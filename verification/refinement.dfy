/** Triangulation.cs: Delaunay refinement of a triangulated area. The worst triangle
    is found; a side of another triangle whose diametral circle holds its circumcenter
    gets its midpoint inserted, otherwise the circumcenter is inserted when it lies
    in the area, otherwise the worst triangle is split along a height. */
module Refinement {
  import opened Results
  import opened Points
  import opened Structs
  import opened Geometry
  import opened Topology

  // ---------------------------------------------------------------------------
  // Splitting triangles
  // ---------------------------------------------------------------------------

  /** The two halves `SplitTriangle` builds when it cuts t at p on side k. */
  function SplitHalves(t: Triangle, k: int, p: PointM): (Triangle, Triangle)
    requires 1 <= k <= 3
  {
    if k == 1 then (NewTriangle(t.v0, p, t.v2), NewTriangle(p, t.v1, t.v2))
    else if k == 2 then (NewTriangle(t.v0, t.v1, p), NewTriangle(p, t.v2, t.v0))
    else (NewTriangle(t.v0, t.v1, p), NewTriangle(p, t.v1, t.v2))
  }

  /** `SplitTriangle`: append the two halves of the triangle at numTriangle cut at p on
      side numEdge; any other side number leaves the list alone. */
  function SplitTriangle(tris: seq<Triangle>, numTriangle: int, numEdge: int, p: PointM): (r: seq<Triangle>)
    requires 1 <= numEdge <= 3 ==> 0 <= numTriangle < |tris|
    ensures !(1 <= numEdge <= 3) ==> r == tris
    ensures 1 <= numEdge <= 3 ==>
      && |r| == |tris| + 2
      && r[..|tris|] == tris
      && r[|tris|].HasVertex(p) && r[|tris| + 1].HasVertex(p)
      && var t := tris[numTriangle];
         && r[|tris|].HasVertex(t.Vertex(Opposite(numEdge))) && r[|tris| + 1].HasVertex(t.Vertex(Opposite(numEdge)))
         && (r[|tris|].HasVertex(t.Vertex(SideFrom(numEdge))) || r[|tris| + 1].HasVertex(t.Vertex(SideFrom(numEdge))))
         && (r[|tris|].HasVertex(t.Vertex(SideTo(numEdge))) || r[|tris| + 1].HasVertex(t.Vertex(SideTo(numEdge))))
  {
    if 1 <= numEdge <= 3 then
      var halves := SplitHalves(tris[numTriangle], numEdge, p);
      tris + [halves.0, halves.1]
    else tris
  }

  /** Cutting the edge from a to b at a + s·(b − a) scales the orientation of the
      triangle with the opposite vertex c by s. */
  lemma CrossAlongEdge(a: PointM, b: PointM, c: PointM, s: real)
    ensures Cross(a, Lerp(a, b, s), c) == s * Cross(a, b, c)
  {
    var ux, uy, wx, wy := b.x - a.x, b.y - a.y, c.x - a.x, c.y - a.y;
    var p := Lerp(a, b, s);
    assert p.x - a.x == s * ux && p.y - a.y == s * uy;
    assert Cross(a, p, c) == (s * ux) * wy - wx * (s * uy);
    assert (s * ux) * wy - wx * (s * uy) == s * (ux * wy - wx * uy);
  }

  /** The part of the triangle a, b, c cut off at p beside b has the rest of the area. */
  lemma CrossRestOfEdge(a: PointM, b: PointM, c: PointM, s: real)
    ensures Cross(Lerp(a, b, s), b, c) == (1.0 - s) * Cross(a, b, c)
  {
    var p := Lerp(a, b, s);
    assert Cross(p, b, c) == Cross(a, b, c) - Cross(a, p, c);
    CrossAlongEdge(a, b, c, s);
  }

  /** A cut at the point s of the way along side k divides the signed area of the
      triangle in the ratio s to 1 − s: the half holding the side's first vertex gets s.
      That half is listed first for sides 1 and 2 and second for side 3. */
  lemma SplitHalvesArea(t: Triangle, k: int, s: real)
    requires 1 <= k <= 3
    ensures var halves := SplitHalves(t, k, Lerp(t.Vertex(SideFrom(k)), t.Vertex(SideTo(k)), s));
      && (k != 3 ==> SignedArea(halves.0) == s * SignedArea(t) && SignedArea(halves.1) == (1.0 - s) * SignedArea(t))
      && (k == 3 ==> SignedArea(halves.1) == s * SignedArea(t) && SignedArea(halves.0) == (1.0 - s) * SignedArea(t))
  {
    var halves := SplitHalves(t, k, Lerp(t.Vertex(SideFrom(k)), t.Vertex(SideTo(k)), s));
    if k == 1 {
      var p := Lerp(t.v0, t.v1, s);
      assert halves == (NewTriangle(t.v0, p, t.v2), NewTriangle(p, t.v1, t.v2));
      CrossAlongEdge(t.v0, t.v1, t.v2, s);
      CrossRestOfEdge(t.v0, t.v1, t.v2, s);
    } else if k == 2 {
      var p := Lerp(t.v1, t.v2, s);
      assert halves == (NewTriangle(t.v0, t.v1, p), NewTriangle(p, t.v2, t.v0));
      SecondSideArea(t.v0, t.v1, t.v2, s);
    } else {
      var p := Lerp(t.v2, t.v0, s);
      assert halves == (NewTriangle(t.v0, t.v1, p), NewTriangle(p, t.v1, t.v2));
      ThirdSideArea(t.v0, t.v1, t.v2, s);
    }
  }

  /** Side 2 of a, b, c cut at p: the halves a, b, p and p, c, a. */
  lemma SecondSideArea(a: PointM, b: PointM, c: PointM, s: real)
    ensures Cross(a, b, Lerp(b, c, s)) == s * Cross(a, b, c)
    ensures Cross(Lerp(b, c, s), c, a) == (1.0 - s) * Cross(a, b, c)
  {
    var p := Lerp(b, c, s);
    CrossAlongEdge(b, c, a, s);
    CrossRestOfEdge(b, c, a, s);
    CrossRotate(a, b, p);
    CrossRotate(a, b, c);
  }

  /** Side 3 of a, b, c cut at p: the halves a, b, p and p, b, c. */
  lemma ThirdSideArea(a: PointM, b: PointM, c: PointM, s: real)
    ensures Cross(Lerp(c, a, s), b, c) == s * Cross(a, b, c)
    ensures Cross(a, b, Lerp(c, a, s)) == (1.0 - s) * Cross(a, b, c)
  {
    var p := Lerp(c, a, s);
    CrossAlongEdge(c, a, b, s);
    CrossRestOfEdge(c, a, b, s);
    CrossRotate(p, b, c);
    CrossRotate(b, c, p);
    CrossRotate(p, a, b);
    CrossRotate(a, b, c);
    CrossRotate(b, c, a);
  }

  /** `SplitInnerPointTriangle`: append the three triangles joining p to the sides of
      the triangle at numTriangle. */
  function SplitInnerPointTriangle(tris: seq<Triangle>, numTriangle: int, p: PointM): (r: seq<Triangle>)
    requires 0 <= numTriangle < |tris|
    ensures |r| == |tris| + 3 && r[..|tris|] == tris
    ensures forall k :: |tris| <= k < |r| ==> r[k].HasVertex(p)
  {
    var t := tris[numTriangle];
    tris + [NewTriangle(t.v0, t.v1, p), NewTriangle(t.v0, p, t.v2), NewTriangle(p, t.v1, t.v2)]
  }

  /** The three parts cover the signed area of the triangle, for any p; for p strictly
      inside, each part has the orientation of the triangle. */
  lemma SplitInnerPointTriangleArea(tris: seq<Triangle>, numTriangle: int, p: PointM)
    requires 0 <= numTriangle < |tris|
    ensures var r, n, t := SplitInnerPointTriangle(tris, numTriangle, p), |tris|, tris[numTriangle];
      && SignedArea(r[n]) + SignedArea(r[n + 1]) + SignedArea(r[n + 2]) == SignedArea(t)
      && (StrictlyInside(t, p) ==>
            forall k :: n <= k < n + 3 ==> Sign(SignedArea(r[k])) == Sign(SignedArea(t)) != 0)
  {
    var t, n := tris[numTriangle], |tris|;
    var r := SplitInnerPointTriangle(tris, numTriangle, p);
    CrossRotate(t.v0, p, t.v2);
    CrossRotate(p, t.v2, t.v0);
    CrossRotate(p, t.v1, t.v2);
    EdgeCrossSum(t, p);
    assert SignedArea(r[n]) == Cross(t.v0, t.v1, p);
    assert SignedArea(r[n + 1]) == Cross(t.v2, t.v0, p);
    assert SignedArea(r[n + 2]) == Cross(t.v1, t.v2, p);
  }

  /** The loop of `AddPoint` over the side hits: split every hit triangle in turn.
      Only appends happen, so the hit indices stay valid. */
  function SplitHits(tris: seq<Triangle>, hits: seq<EdgeTriangleNums>, p: PointM): (r: seq<Triangle>)
    requires forall k :: 0 <= k < |hits| ==> 0 <= hits[k].numTriangle < |tris| && 1 <= hits[k].numEdge <= 3
    ensures |r| == |tris| + 2 * |hits|
    ensures r[..|tris|] == tris
    ensures forall k :: |tris| <= k < |r| ==> r[k].HasVertex(p)
    decreases |hits|
  {
    if |hits| == 0 then tris
    else
      var last := hits[|hits| - 1];
      var before := SplitHits(tris, hits[..|hits| - 1], p);
      assert before[..|tris|] == tris;
      var r := SplitTriangle(before, last.numTriangle, last.numEdge, p);
      assert r[..|before|] == before;
      assert r[..|tris|] == tris by {
        assert r[..|tris|] == r[..|before|][..|tris|];
      }
      r
  }

  /** The first triangle from i on that `PointOnTriangle` says contains p, or |tris|. */
  function FirstContaining(tris: seq<Triangle>, p: PointM, i: int): (r: int)
    requires 0 <= i <= |tris|
    ensures i <= r <= |tris|
    ensures r < |tris| ==> PointOnTriangle(tris[r], p)
    ensures forall k :: i <= k < r ==> !PointOnTriangle(tris[k], p)
    decreases |tris| - i
  {
    if i == |tris| then |tris|
    else if PointOnTriangle(tris[i], p) then i
    else FirstContaining(tris, p, i + 1)
  }

  /** The calls `FlipBadEdges(_triangles[Count − count])`, …,
      `FlipBadEdges(_triangles[Count − 1])` of `AddPoint`, each on the list the previous
      one left, for a given single flip. */
  function FlipLastWith(step: FlipStepFn, tris: seq<Triangle>, count: nat, fuel: nat): (r: Result<seq<Triangle>>)
    requires KeepsLength(step)
    ensures r.Ok? ==> |r.value| == |tris|
    decreases count
  {
    if count == 0 then Ok(tris)
    else
      var next :- FlipRecursion(step, |tris| - count, tris, fuel);
      FlipLastWith(step, next, count - 1, fuel)
  }

  /** The sequence of flips brings in only triangles the step brings in. */
  lemma {:induction false} FlipLastWithAddsOnly(step: FlipStepFn, P: Triangle -> bool, tris: seq<Triangle>, count: nat, fuel: nat)
    requires KeepsLength(step) && AddsOnly(step, P)
    requires FlipLastWith(step, tris, count, fuel).Ok?
    ensures forall x :: x in FlipLastWith(step, tris, count, fuel).value ==> x in tris || P(x)
    decreases count
  {
    if count > 0 {
      var next := FlipRecursion(step, |tris| - count, tris, fuel).value;
      FlipRecursionAddsOnly(step, P, |tris| - count, tris, fuel);
      FlipLastWithAddsOnly(step, P, next, count - 1, fuel);
    }
  }

  /** A list holding a triangle that satisfies P still holds one after the flips. */
  lemma {:induction false} FlipLastWithKeepsSome(step: FlipStepFn, P: Triangle -> bool, tris: seq<Triangle>, count: nat, fuel: nat)
    requires KeepsLength(step) && KeepsSome(step, P)
    requires FlipLastWith(step, tris, count, fuel).Ok?
    requires exists x :: x in tris && P(x)
    ensures exists x :: x in FlipLastWith(step, tris, count, fuel).value && P(x)
    decreases count
  {
    if count > 0 {
      var next := FlipRecursion(step, |tris| - count, tris, fuel).value;
      FlipRecursionKeepsSome(step, P, |tris| - count, tris, fuel);
      FlipLastWithKeepsSome(step, P, next, count - 1, fuel);
    }
  }

  /** The flips of `AddPoint` for the new point p: each call is `FlipBadEdges`. */
  function FlipLast(num: Numerics, p: PointM, tris: seq<Triangle>, count: nat, fuel: nat): (r: Result<seq<Triangle>>)
    ensures r.Ok? ==> |r.value| == |tris|
  {
    FlipStepAtFacts(num, p);
    FlipLastWith(FlipStepAt(num, p), tris, count, fuel)
  }

  /** The flips bring in only triangles having p as a vertex. */
  lemma FlipLastAddsOnly(num: Numerics, p: PointM, tris: seq<Triangle>, count: nat, fuel: nat)
    requires FlipLast(num, p, tris, count, fuel).Ok?
    ensures forall x :: x in FlipLast(num, p, tris, count, fuel).value ==> x in tris || x.HasVertex(p)
  {
    FlipStepAtFacts(num, p);
    FlipLastWithAddsOnly(FlipStepAt(num, p), (x: Triangle) => x.HasVertex(p), tris, count, fuel);
  }

  /** A mesh in which p is a vertex keeps p as a vertex through the flips. */
  lemma FlipLastKeepsPoint(num: Numerics, p: PointM, tris: seq<Triangle>, count: nat, fuel: nat)
    requires FlipLast(num, p, tris, count, fuel).Ok?
    requires exists x :: x in tris && x.HasVertex(p)
    ensures exists x :: x in FlipLast(num, p, tris, count, fuel).value && x.HasVertex(p)
  {
    FlipStepAtFacts(num, p);
    FlipLastWithKeepsSome(FlipStepAt(num, p), (x: Triangle) => x.HasVertex(p), tris, count, fuel);
  }

  /** The flips of `AddPoint` with the intended removal. */
  function FlipLastIntended(num: Numerics, p: PointM, tris: seq<Triangle>, count: nat, fuel: nat): (r: Result<seq<Triangle>>)
    ensures r.Ok? ==> |r.value| == |tris|
  {
    FlipStepIntendedAtKeepsLength(num, p);
    FlipLastWith(FlipStepIntendedAt(num, p), tris, count, fuel)
  }

  /** Two step functions that agree on lists whose entries after the index satisfy P
      give the same sequence of flips on a list whose entries after position
      |tris| − count satisfy P, since each flip keeps those entries satisfying P. */
  lemma {:induction false} FlipLastWithAgree(s1: FlipStepFn, s2: FlipStepFn, P: Triangle -> bool, tris: seq<Triangle>, count: nat, fuel: nat)
    requires KeepsLength(s1) && KeepsLength(s2) && AgreeOnTail(s1, s2, P) && EndsWith(s1, P) && KeepsTail(s1, P)
    requires TailSatisfies(tris, |tris| - count, P)
    ensures FlipLastWith(s1, tris, count, fuel) == FlipLastWith(s2, tris, count, fuel)
    decreases count
  {
    if count > 0 {
      FlipRecursionAgree(s1, s2, P, |tris| - count, tris, fuel);
      var next := FlipRecursion(s1, |tris| - count, tris, fuel);
      if next.Ok? {
        FlipRecursionKeepsTail(s1, P, |tris| - count, tris, fuel, |tris| - count);
        FlipLastWithAgree(s1, s2, P, next.value, count - 1, fuel);
      }
    }
  }

  /** The last k entries of s have p as a vertex. */
  predicate LastHavePoint(s: seq<Triangle>, k: int, p: PointM) {
    forall l :: 0 <= l < |s| && |s| - k <= l ==> s[l].HasVertex(p)
  }

  /** Removing an entry before the last k keeps the last k. */
  lemma LastHavePointRemoveAt(s: seq<Triangle>, i: int, k: int, p: PointM)
    requires 0 <= k && 0 <= i < |s| - k && LastHavePoint(s, k, p)
    ensures LastHavePoint(RemoveAt(s, i), k, p)
  {
    var r := RemoveAt(s, i);
    forall l | 0 <= l < |r| && |r| - k <= l
      ensures r[l].HasVertex(p)
    {
      assert r[l] == s[l + 1];
    }
  }

  /** The side hits of `PointOnSideTriangle` name triangles of the list and sides 1..3. */
  lemma SideHitsValid(num: Numerics, p: PointM, tris: seq<Triangle>)
    ensures var hits := PointOnSideTriangle(num, p, tris);
      forall k :: 0 <= k < |hits| ==> 0 <= hits[k].numTriangle < |tris| && 1 <= hits[k].numEdge <= 3
  {
    PointOnSideTriangleShape(num, p, tris);
  }

  /** The list `AddPoint` hands to its flips, with the number of its last triangles the
      flips check. When p lies on sides, every triangle holding it on a side is split in
      two; then the triangles of the first two hits are removed (the higher index
      first) and four are checked, or the one hit triangle is removed and two are
      checked. Otherwise the first triangle containing p is split in three and removed,
      and three are checked. A point in no triangle leaves the mesh alone. */
  function InsertPoint(num: Numerics, p: PointM, tris: seq<Triangle>): (r: (seq<Triangle>, nat))
  {
    var hits := PointOnSideTriangle(num, p, tris);
    SideHitsValid(num, p, tris);
    if |hits| != 0 then
      var split := SplitHits(tris, hits, p);
      if |hits| != 1 then
        var e0, e1 := hits[0].numTriangle, hits[1].numTriangle;
        var removed := if e0 > e1 then RemoveAt(RemoveAt(split, e0), e1) else RemoveAt(RemoveAt(split, e1), e0);
        (removed, 4)
      else
        (RemoveAt(split, hits[0].numTriangle), 2)
    else
      var i := FirstContaining(tris, p, 0);
      if i == |tris| then (tris, 0)
      else (RemoveAt(SplitInnerPointTriangle(tris, i, p), i), 3)
  }

  /** The removals of `InsertPoint` take exactly the triangles that were split. For two or
      more side hits the first two hits are in increasing order, so removing the higher
      index first leaves the lower one in place, and the list loses exactly the two hit
      originals; one hit loses its original, and a point inside a triangle loses that
      triangle. A point in no triangle leaves the mesh as it is. */
  lemma InsertPointRemovesOriginals(num: Numerics, p: PointM, tris: seq<Triangle>)
    ensures var hits, inserted := PointOnSideTriangle(num, p, tris), InsertPoint(num, p, tris).0;
      var i := FirstContaining(tris, p, 0);
      && (forall k :: 0 <= k < |hits| ==> 0 <= hits[k].numTriangle < |tris| && 1 <= hits[k].numEdge <= 3)
      && (|hits| >= 2 ==>
            && hits[0].numTriangle < hits[1].numTriangle
            && multiset(inserted) + multiset{tris[hits[0].numTriangle], tris[hits[1].numTriangle]}
                 == multiset(SplitHits(tris, hits, p)))
      && (|hits| == 1 ==>
            multiset(inserted) + multiset{tris[hits[0].numTriangle]} == multiset(SplitHits(tris, hits, p)))
      && (|hits| == 0 && i < |tris| ==>
            multiset(inserted) + multiset{tris[i]} == multiset(SplitInnerPointTriangle(tris, i, p)))
      && (|hits| == 0 && i == |tris| ==> inserted == tris)
  {
    var hits := PointOnSideTriangle(num, p, tris);
    SideHitsValid(num, p, tris);
    if |hits| >= 2 {
      SideHitsIncrease(num, p, tris);
      RemoveTwoOriginals(tris, SplitHits(tris, hits, p), hits[0].numTriangle, hits[1].numTriangle);
    } else if |hits| == 1 {
      RemoveOneOriginal(tris, SplitHits(tris, hits, p), hits[0].numTriangle);
    } else {
      var i := FirstContaining(tris, p, 0);
      if i < |tris| {
        RemoveOneOriginal(tris, SplitInnerPointTriangle(tris, i, p), i);
      }
    }
  }

  /** The side hits are in increasing triangle order. */
  lemma SideHitsIncrease(num: Numerics, p: PointM, tris: seq<Triangle>)
    ensures var hits := PointOnSideTriangle(num, p, tris);
      forall k, l :: 0 <= k < l < |hits| ==> hits[k].numTriangle < hits[l].numTriangle
  {
    PointOnSideTriangleShape(num, p, tris);
  }

  /** Removing an original entry from a list that extends the originals takes exactly
      that triangle out. */
  lemma RemoveOneOriginal(tris: seq<Triangle>, split: seq<Triangle>, e: int)
    requires 0 <= e < |tris| <= |split| && split[..|tris|] == tris
    ensures multiset(RemoveAt(split, e)) + multiset{tris[e]} == multiset(split)
  {
    assert split[e] == split[..|tris|][e];
    RemoveAtMultiset(split, e);
  }

  /** Removing the higher of two original entries first, then the lower, takes exactly
      those two triangles out. */
  lemma RemoveTwoOriginals(tris: seq<Triangle>, split: seq<Triangle>, e0: int, e1: int)
    requires 0 <= e0 < e1 < |tris| <= |split| && split[..|tris|] == tris
    ensures multiset(RemoveAt(RemoveAt(split, e1), e0)) + multiset{tris[e0], tris[e1]} == multiset(split)
  {
    RemoveOneOriginal(tris, split, e1);
    var once := RemoveAt(split, e1);
    assert once[..e1] == tris[..e1] by {
      assert once[..e1] == split[..e1];
    }
    RemoveOneOriginal(tris[..e1], once, e0);
  }

  /** `AddPoint`: insert p into the mesh, then flip the bad edges of the last triangles
      of the list `InsertPoint` leaves. */
  function AddPoint(num: Numerics, p: PointM, tris: seq<Triangle>, fuel: nat): (r: Result<seq<Triangle>>)
  {
    var inserted := InsertPoint(num, p, tris);
    FlipLast(num, p, inserted.0, inserted.1, fuel)
  }

  /** Every triangle the flips of `AddPoint` check, and every one after it, has p as
      a vertex: the split appends only triangles at p, and the removals take entries of
      the old mesh. */
  lemma InsertPointTail(num: Numerics, p: PointM, tris: seq<Triangle>)
    ensures var inserted := InsertPoint(num, p, tris);
      LastHavePoint(inserted.0, inserted.1, p)
  {
    var hits := PointOnSideTriangle(num, p, tris);
    PointOnSideTriangleShape(num, p, tris);
    if |hits| != 0 {
      var split := SplitHits(tris, hits, p);
      assert LastHavePoint(split, 2 * |hits|, p);
      if |hits| != 1 {
        var e0, e1 := hits[0].numTriangle, hits[1].numTriangle;
        assert e0 < e1;
        LastHavePointRemoveAt(split, e1, 2 * |hits|, p);
        LastHavePointRemoveAt(RemoveAt(split, e1), e0, 2 * |hits|, p);
      } else {
        LastHavePointRemoveAt(split, hits[0].numTriangle, 2, p);
      }
    } else {
      var i := FirstContaining(tris, p, 0);
      if i < |tris| {
        var inner := SplitInnerPointTriangle(tris, i, p);
        LastHavePointRemoveAt(inner, i, 3, p);
      }
    }
  }

  /** `AddPoint` never meets the stale removal of the flips: every flip starts at a
      triangle after which every entry has p, so the flips run exactly as with the
      intended removal. */
  lemma AddPointAsIntended(num: Numerics, p: PointM, tris: seq<Triangle>, fuel: nat)
    ensures var inserted := InsertPoint(num, p, tris);
      AddPoint(num, p, tris, fuel) == FlipLastIntended(num, p, inserted.0, inserted.1, fuel)
  {
    var inserted := InsertPoint(num, p, tris);
    InsertPointTail(num, p, tris);
    FlipStepAtFacts(num, p);
    FlipStepAtTail(num, p);
    FlipStepIntendedAtKeepsLength(num, p);
    FlipStepsAgreeOnTail(num, p);
    var P := (x: Triangle) => x.HasVertex(p);
    assert TailSatisfies(inserted.0, |inserted.0| - inserted.1, P);
    FlipLastWithAgree(FlipStepAt(num, p), FlipStepIntendedAt(num, p), P, inserted.0, inserted.1, fuel);
  }

  /** How many triangles `AddPoint` leaves: each side hit adds two and the first two
      hit triangles (or the one) go; an interior point adds two; a point in no triangle
      adds none. */
  lemma AddPointLength(num: Numerics, p: PointM, tris: seq<Triangle>, fuel: nat)
    requires AddPoint(num, p, tris, fuel).Ok?
    ensures var hits, r := PointOnSideTriangle(num, p, tris), AddPoint(num, p, tris, fuel).value;
      && (|hits| >= 2 ==> |r| == |tris| + 2 * |hits| - 2)
      && (|hits| == 1 ==> |r| == |tris| + 1)
      && (|hits| == 0 && (exists k :: 0 <= k < |tris| && PointOnTriangle(tris[k], p)) ==> |r| == |tris| + 2)
      && (|hits| == 0 && (forall k :: 0 <= k < |tris| ==> !PointOnTriangle(tris[k], p)) ==> r == tris)
  {
    SideHitsValid(num, p, tris);
    var i := FirstContaining(tris, p, 0);
  }

  /** Removing entries keeps membership in the rest. */
  lemma RemoveAtSubset<T>(s: seq<T>, i: int)
    requires 0 <= i < |s|
    ensures forall x :: x in RemoveAt(s, i) ==> x in s
  {
    forall x | x in RemoveAt(s, i)
      ensures x in s
    {
      var k :| 0 <= k < |RemoveAt(s, i)| && RemoveAt(s, i)[k] == x;
      if k < i { assert s[k] == x; } else { assert s[k + 1] == x; }
    }
  }

  /** A list that is tris followed by triangles having p keeps only such entries. */
  lemma AppendedHavePoint(tris: seq<Triangle>, s: seq<Triangle>, p: PointM)
    requires |tris| <= |s| && s[..|tris|] == tris
    requires forall k :: |tris| <= k < |s| ==> s[k].HasVertex(p)
    ensures forall x :: x in s ==> x in tris || x.HasVertex(p)
  {
    forall x | x in s
      ensures x in tris || x.HasVertex(p)
    {
      var k :| 0 <= k < |s| && s[k] == x;
      if k < |tris| { assert tris[k] == x; }
    }
  }

  /** Every triangle `AddPoint` leaves was in the mesh before or has p as a vertex. */
  lemma AddPointKeepsOthers(num: Numerics, p: PointM, tris: seq<Triangle>, fuel: nat)
    requires AddPoint(num, p, tris, fuel).Ok?
    ensures forall x :: x in AddPoint(num, p, tris, fuel).value ==> x in tris || x.HasVertex(p)
  {
    var hits := PointOnSideTriangle(num, p, tris);
    SideHitsValid(num, p, tris);
    if |hits| != 0 {
      var split := SplitHits(tris, hits, p);
      AppendedHavePoint(tris, split, p);
      if |hits| != 1 {
        var e0, e1 := hits[0].numTriangle, hits[1].numTriangle;
        var removed := if e0 > e1 then RemoveAt(RemoveAt(split, e0), e1) else RemoveAt(RemoveAt(split, e1), e0);
        if e0 > e1 {
          RemoveAtSubset(split, e0);
          RemoveAtSubset(RemoveAt(split, e0), e1);
        } else {
          RemoveAtSubset(split, e1);
          RemoveAtSubset(RemoveAt(split, e1), e0);
        }
        FlipLastAddsOnly(num, p, removed, 4, fuel);
      } else {
        RemoveAtSubset(split, hits[0].numTriangle);
        FlipLastAddsOnly(num, p, RemoveAt(split, hits[0].numTriangle), 2, fuel);
      }
    } else {
      var i := FirstContaining(tris, p, 0);
      if i < |tris| {
        var inner := SplitInnerPointTriangle(tris, i, p);
        AppendedHavePoint(tris, inner, p);
        RemoveAtSubset(inner, i);
        FlipLastAddsOnly(num, p, RemoveAt(inner, i), 3, fuel);
      }
    }
  }

  /** The last entry of a list of at least two stays after removing an earlier entry. */
  lemma RemoveAtKeepsLast<T>(s: seq<T>, i: int)
    requires 0 <= i < |s| - 1
    ensures s[|s| - 1] in RemoveAt(s, i)
  {
    assert RemoveAt(s, i)[|s| - 2] == s[|s| - 1];
  }

  /** A point that lies on a side or inside a triangle becomes a vertex of the mesh. */
  lemma AddPointInserts(num: Numerics, p: PointM, tris: seq<Triangle>, fuel: nat)
    requires AddPoint(num, p, tris, fuel).Ok?
    requires |PointOnSideTriangle(num, p, tris)| != 0 || exists k :: 0 <= k < |tris| && PointOnTriangle(tris[k], p)
    ensures exists x :: x in AddPoint(num, p, tris, fuel).value && x.HasVertex(p)
  {
    var hits := PointOnSideTriangle(num, p, tris);
    SideHitsValid(num, p, tris);
    if |hits| != 0 {
      var split := SplitHits(tris, hits, p);
      var n := |split|;
      assert split[n - 1].HasVertex(p);
      if |hits| != 1 {
        var e0, e1 := hits[0].numTriangle, hits[1].numTriangle;
        var removed := if e0 > e1 then RemoveAt(RemoveAt(split, e0), e1) else RemoveAt(RemoveAt(split, e1), e0);
        if e0 > e1 {
          RemoveAtKeepsLast(split, e0);
          assert RemoveAt(split, e0)[n - 2] == split[n - 1];
          RemoveAtKeepsLast(RemoveAt(split, e0), e1);
        } else {
          RemoveAtKeepsLast(split, e1);
          assert RemoveAt(split, e1)[n - 2] == split[n - 1];
          RemoveAtKeepsLast(RemoveAt(split, e1), e0);
        }
        assert split[n - 1] in removed;
        FlipLastKeepsPoint(num, p, removed, 4, fuel);
      } else {
        RemoveAtKeepsLast(split, hits[0].numTriangle);
        FlipLastKeepsPoint(num, p, RemoveAt(split, hits[0].numTriangle), 2, fuel);
      }
    } else {
      var i := FirstContaining(tris, p, 0);
      var inner := SplitInnerPointTriangle(tris, i, p);
      assert inner[|inner| - 1].HasVertex(p);
      RemoveAtKeepsLast(inner, i);
      FlipLastKeepsPoint(num, p, RemoveAt(inner, i), 3, fuel);
    }
  }

  /** `SplitHeightTriangle`: split the triangle at numTriangle at the foot of the height
      from its largest angle, then remove it. The foot is the `heightFoot` computation. */
  function SplitHeightTriangle(num: Numerics, tris: seq<Triangle>, numTriangle: int): (r: seq<Triangle>)
    requires 0 <= numTriangle < |tris|
    ensures |r| == |tris| + 1
    ensures multiset(r) + multiset{tris[numTriangle]} == multiset(tris) + multiset{r[|tris| - 1], r[|tris|]}
    ensures var t, foot := tris[numTriangle], num.heightFoot(tris[numTriangle]);
      && r[|tris| - 1].HasVertex(foot) && r[|tris|].HasVertex(foot)
      && r[|tris| - 1].HasVertex(VertexMaxAngle(num, t)) && r[|tris|].HasVertex(VertexMaxAngle(num, t))
  {
    var t := tris[numTriangle];
    var newPoint := num.heightFoot(t);
    var numSide := GetNumSideTriangle(num, t);
    var split := SplitTriangle(tris, numTriangle, numSide, newPoint);
    NumSideOppositeMaxVertex(num, t);
    RemoveAtMultiset(split, numTriangle);
    assert split == tris + [split[|tris|], split[|tris| + 1]];
    RemoveAt(split, numTriangle)
  }

  // ---------------------------------------------------------------------------
  // The worst triangle
  // ---------------------------------------------------------------------------

  /** `B = (decimal)Math.Sqrt(2)`: the conversion keeps 15 significant digits. */
  const B: real := 1.41421356237310

  /** The bounds `FindIndexWorstTriangle` derives from the grid size: the edge length h
      and the perimeter a triangle must exceed to be refined. */
  datatype Profile = Profile(h: real, desiredSumSides: real)

  function GridProfile(sizeGrid: int, hInitial: real): Profile
  {
    if sizeGrid == 1 then Profile(hInitial, hInitial * 3.0)
    else if sizeGrid == 2 then Profile(hInitial / 4.0, hInitial * 2.0)
    else Profile(hInitial / 5.0, hInitial * 1.3)
  }

  /** The ratio and circumradius of t are defined: its area and its shortest side are
      not zero. */
  predicate Measurable(num: Numerics, t: Triangle)
  {
    GetSquareTriangle(t) != 0.0 && ShortestEdgeTriangle(num, t) != 0.0
  }

  /** The test `FindIndexWorstTriangle` applies to a triangle: its perimeter exceeds
      the desired one, and either its circumradius-to-shortest-edge ratio exceeds √2
      or its circumradius and shortest side both exceed h. */
  predicate NeedsRefinement(num: Numerics, prof: Profile, t: Triangle)
    requires Measurable(num, t)
  {
    || (GetCircumRadiusShortestEdgeRatio(num, t).value > B && GetSumSidesTriangle(num, t) > prof.desiredSumSides)
    || (&& GetCircumRadius(num, t).value > prof.h && ShortestEdgeTriangle(num, t) > prof.h
        && GetSumSidesTriangle(num, t) > prof.desiredSumSides)
  }

  /** A triangle the refinement must improve. The positive perimeter is what the
      running maximum, which starts at zero, demands. */
  predicate Candidate(num: Numerics, prof: Profile, t: Triangle)
  {
    Measurable(num, t) && NeedsRefinement(num, prof, t) && GetSumSidesTriangle(num, t) > 0.0
  }

  /** index is the worst candidate among the first n triangles: −1 when there is none,
      otherwise a candidate of largest perimeter, the first of those. */
  predicate IsWorst(num: Numerics, prof: Profile, tris: seq<Triangle>, n: int, index: int)
    requires 0 <= n <= |tris|
  {
    if index == -1 then forall k :: 0 <= k < n ==> !Candidate(num, prof, tris[k])
    else
      && 0 <= index < n
      && Candidate(num, prof, tris[index])
      && (forall k :: 0 <= k < n && Candidate(num, prof, tris[k]) ==>
            GetSumSidesTriangle(num, tris[k]) <= GetSumSidesTriangle(num, tris[index]))
      && (forall k :: 0 <= k < index && Candidate(num, prof, tris[k]) ==>
            GetSumSidesTriangle(num, tris[k]) < GetSumSidesTriangle(num, tris[index]))
  }

  /** The loop of `FindIndexWorstTriangle` from triangle i on, with the running
      maximum perimeter and its index. */
  function WorstFrom(num: Numerics, prof: Profile, tris: seq<Triangle>, i: int, maxSumSides: real, index: int): (r: Result<int>)
    requires 0 <= i <= |tris|
    ensures r.Ok? <==> forall k :: i <= k < |tris| ==> Measurable(num, tris[k])
    decreases |tris| - i
  {
    if i == |tris| then Ok(index)
    else
      var t := tris[i];
      var ratio :- GetCircumRadiusShortestEdgeRatio(num, t);
      var sum := GetSumSidesTriangle(num, t);
      if NeedsRefinement(num, prof, t) && sum > maxSumSides then WorstFrom(num, prof, tris, i + 1, sum, i)
      else WorstFrom(num, prof, tris, i + 1, maxSumSides, index)
  }

  /** The running maximum is the perimeter of the running index, or zero before any. */
  predicate RunningMax(num: Numerics, tris: seq<Triangle>, maxSumSides: real, index: int)
    requires -1 <= index < |tris|
  {
    maxSumSides == if index == -1 then 0.0 else GetSumSidesTriangle(num, tris[index])
  }

  /** One iteration keeps the worst candidate so far: a triangle that needs refinement
      and beats the running maximum becomes the new worst one. */
  lemma WorstStep(num: Numerics, prof: Profile, tris: seq<Triangle>, i: int, maxSumSides: real, index: int)
    requires 0 <= i < |tris| && -1 <= index < i && Measurable(num, tris[i])
    requires RunningMax(num, tris, maxSumSides, index)
    requires IsWorst(num, prof, tris, i, index)
    ensures var sum := GetSumSidesTriangle(num, tris[i]);
      if NeedsRefinement(num, prof, tris[i]) && sum > maxSumSides then IsWorst(num, prof, tris, i + 1, i)
      else IsWorst(num, prof, tris, i + 1, index)
  {
  }

  /** The loop keeps the worst candidate so far. */
  lemma {:induction false} WorstFromSelects(num: Numerics, prof: Profile, tris: seq<Triangle>, i: int, maxSumSides: real, index: int)
    requires 0 <= i <= |tris| && -1 <= index < i
    requires RunningMax(num, tris, maxSumSides, index)
    requires IsWorst(num, prof, tris, i, index)
    requires WorstFrom(num, prof, tris, i, maxSumSides, index).Ok?
    ensures IsWorst(num, prof, tris, |tris|, WorstFrom(num, prof, tris, i, maxSumSides, index).value)
    decreases |tris| - i
  {
    if i < |tris| {
      var sum := GetSumSidesTriangle(num, tris[i]);
      WorstStep(num, prof, tris, i, maxSumSides, index);
      if NeedsRefinement(num, prof, tris[i]) && sum > maxSumSides {
        WorstFromSelects(num, prof, tris, i + 1, sum, i);
      } else {
        WorstFromSelects(num, prof, tris, i + 1, maxSumSides, index);
      }
    }
  }

  /** `FindIndexWorstTriangle`: the index of the candidate of largest perimeter (the
      first of equal ones), or −1 when no triangle is a candidate. Every ratio is
      computed, so a triangle with zero area or a zero side makes it throw. */
  function FindIndexWorstTriangle(num: Numerics, sizeGrid: int, hInitial: real, tris: seq<Triangle>): (r: Result<int>)
    ensures r.Ok? <==> forall k :: 0 <= k < |tris| ==> Measurable(num, tris[k])
    ensures r.Ok? ==> -1 <= r.value < |tris| && IsWorst(num, GridProfile(sizeGrid, hInitial), tris, |tris|, r.value)
  {
    var prof := GridProfile(sizeGrid, hInitial);
    var r := WorstFrom(num, prof, tris, 0, 0.0, -1);
    if r.Ok? then
      WorstFromSelects(num, prof, tris, 0, 0.0, -1);
      r
    else r
  }

  // ---------------------------------------------------------------------------
  // The refinement loop
  // ---------------------------------------------------------------------------

  /** What the diametral-circle scan of `TriangulationArea` finds. */
  datatype Encroachment = Clear | Encroached(midPoint: PointM)

  /** Side j + 1 of triangle t, from `Vertex[j]` to the next vertex in cyclic order,
      has the circumcenter of w within its diametral circle. */
  predicate EncroachedSide(num: Numerics, w: Triangle, t: Triangle, j: int)
    requires 0 <= j < 3 && GetSquareTriangle(w) != 0.0
  {
    PointIsDiametralCircle(num, w, t.Vertex(j), t.Vertex((j + 1) % 3)).value
  }

  /** The scan of `TriangulationArea` from triangle i, side j on: the midpoint of the
      first side of a triangle other than the worst one whose diametral circle holds
      the worst triangle's circumcenter. */
  function EncroachFrom(num: Numerics, tris: seq<Triangle>, w: int, i: int, j: int): (r: Result<Encroachment>)
    requires 0 <= w < |tris| && 0 <= i <= |tris| && 0 <= j <= 3
    decreases |tris| - i, 3 - j
  {
    if i == |tris| then Ok(Clear)
    else if i == w || j == 3 then EncroachFrom(num, tris, w, i + 1, 0)
    else
      var firstIndex := j;
      var lastIndex := if j == 2 then 0 else j + 1;
      var a, b := tris[i].Vertex(firstIndex), tris[i].Vertex(lastIndex);
      var inCircle :- PointIsDiametralCircle(num, tris[w], a, b);
      if inCircle then Ok(Encroached(PointM((a.x + b.x) / 2.0, (a.y + b.y) / 2.0)))
      else EncroachFrom(num, tris, w, i, j + 1)
  }

  /** The position (k, l) comes at or after (i, j) in the scan order. */
  predicate AtOrAfter(i: int, j: int, k: int, l: int) {
    k > i || (k == i && l >= j)
  }

  /** The scan finds exactly the encroached sides: Clear when none from (i, j) on is
      encroached, otherwise the midpoint of the first one. */
  lemma {:induction false} EncroachFromSpec(num: Numerics, tris: seq<Triangle>, w: int, i: int, j: int)
    requires 0 <= w < |tris| && 0 <= i <= |tris| && 0 <= j <= 3
    requires GetSquareTriangle(tris[w]) != 0.0
    ensures EncroachFrom(num, tris, w, i, j).Ok?
    ensures var r := EncroachFrom(num, tris, w, i, j).value;
      && (r.Clear? <==>
            forall k, l :: 0 <= k < |tris| && k != w && 0 <= l < 3 && AtOrAfter(i, j, k, l) ==>
              !EncroachedSide(num, tris[w], tris[k], l))
      && (r.Encroached? ==>
            exists k, l ::
              && 0 <= k < |tris| && k != w && 0 <= l < 3 && AtOrAfter(i, j, k, l)
              && EncroachedSide(num, tris[w], tris[k], l)
              && r.midPoint == Midpoint(tris[k].Vertex(l), tris[k].Vertex((l + 1) % 3))
              && forall k', l' ::
                   0 <= k' < |tris| && k' != w && 0 <= l' < 3 && AtOrAfter(i, j, k', l') && !AtOrAfter(k, l, k', l') ==>
                     !EncroachedSide(num, tris[w], tris[k'], l'))
    decreases |tris| - i, 3 - j
  {
    if i == |tris| {
    } else if i == w || j == 3 {
      EncroachFromSpec(num, tris, w, i + 1, 0);
    } else {
      assert (j + 1) % 3 == (if j == 2 then 0 else j + 1);
      if !EncroachedSide(num, tris[w], tris[i], j) {
        EncroachFromSpec(num, tris, w, i, j + 1);
      }
    }
  }

  /** For a worst triangle of zero area the scan throws at the first side it tests. */
  lemma {:induction false} EncroachFromDegenerate(num: Numerics, tris: seq<Triangle>, w: int, i: int, j: int)
    requires 0 <= w < |tris| && 0 <= i <= |tris| && 0 <= j <= 3
    requires GetSquareTriangle(tris[w]) == 0.0
    ensures EncroachFrom(num, tris, w, i, j).Ok? <==> NothingToScan(tris, w, i, j)
    decreases |tris| - i, 3 - j
  {
    if i == |tris| {
    } else if i == w || j == 3 {
      EncroachFromDegenerate(num, tris, w, i + 1, 0);
      if NothingToScan(tris, w, i + 1, 0) {
        forall k, l | 0 <= k < |tris| && k != w && 0 <= l < 3
          ensures !AtOrAfter(i, j, k, l)
        {
          assert !AtOrAfter(i + 1, 0, k, l);
        }
      } else {
        var k, l :| 0 <= k < |tris| && k != w && 0 <= l < 3 && AtOrAfter(i + 1, 0, k, l);
        assert AtOrAfter(i, j, k, l);
      }
    } else {
      assert AtOrAfter(i, j, i, j);
    }
  }

  /** No side of a triangle other than w is left to scan from (i, j) on. */
  predicate NothingToScan(tris: seq<Triangle>, w: int, i: int, j: int)
  {
    forall k, l :: 0 <= k < |tris| && k != w && 0 <= l < 3 ==> !AtOrAfter(i, j, k, l)
  }

  /** One round of the refinement loop for the worst triangle w: the midpoint of an
      encroached side is inserted; otherwise the circumcenter unless `PointIsBeyondArea`
      reports it beyond the area, and the height split when it does. The area test is
      the one as written: in a mesh of two or more triangles it reports every point on
      no side beyond the area, so an interior circumcenter is inserted only when it
      lies on a side. */
  function RefineStep(num: Numerics, tris: seq<Triangle>, w: int, fuel: nat): (r: Result<seq<Triangle>>)
    requires 0 <= w < |tris|
  {
    var enc :- EncroachFrom(num, tris, w, 0, 0);
    match enc
    case Encroached(midPoint) => AddPoint(num, midPoint, tris, fuel)
    case Clear =>
      var center :- GetCenterPointCircleTriangle(tris[w]);
      if !PointIsBeyondArea(num, center, tris) then AddPoint(num, center, tris, fuel)
      else Ok(SplitHeightTriangle(num, tris, w))
  }

  /** With no encroached side, a circumcenter that lies on no side is inserted only when
      every triangle contains it: as soon as one triangle misses it (any mesh of two or
      more triangles with the circumcenter strictly inside one of them) the round splits
      the worst triangle at its height instead. */
  lemma RefineStepSplitsWhenAnotherMisses(num: Numerics, tris: seq<Triangle>, w: int, fuel: nat, j: int)
    requires 0 <= w < |tris|
    requires EncroachFrom(num, tris, w, 0, 0) == Ok(Clear)
    requires GetCenterPointCircleTriangle(tris[w]).Ok?
    requires NoSideHolds(num, GetCenterPointCircleTriangle(tris[w]).value, tris)
    requires 0 <= j < |tris| && !PointOnTriangle(tris[j], GetCenterPointCircleTriangle(tris[w]).value)
    ensures RefineStep(num, tris, w, fuel) == Ok(SplitHeightTriangle(num, tris, w))
  {
    NoSideHoldsNoHits(num, GetCenterPointCircleTriangle(tris[w]).value, tris);
  }

  /** The `goto step_two` loop of `TriangulationArea` with the edge length hInitial
      fixed at the start. The source loop has no termination argument; the model
      gives up with `FuelExhausted` after `fuel` rounds, and the flips of a round get the
      number of rounds still left as their bound. */
  function RefineFrom(num: Numerics, sizeGrid: int, hInitial: real, tris: seq<Triangle>, fuel: nat): (r: Result<seq<Triangle>>)
    ensures r.Ok? ==> FindIndexWorstTriangle(num, sizeGrid, hInitial, r.value) == Ok(-1)
    decreases fuel
  {
    var w :- FindIndexWorstTriangle(num, sizeGrid, hInitial, tris);
    if w == -1 then Ok(tris)
    else if fuel == 0 then Err(FuelExhausted)
    else
      var next :- RefineStep(num, tris, w, fuel);
      RefineFrom(num, sizeGrid, hInitial, next, fuel - 1)
  }

  /** `TriangulationArea`: refine until no triangle is a candidate for the bounds
      derived from the shortest edge of the initial mesh. */
  function TriangulationArea(num: Numerics, sizeGrid: int, tris: seq<Triangle>, fuel: nat): (r: Result<seq<Triangle>>)
    ensures r.Ok? ==>
      var prof := GridProfile(sizeGrid, ShortestEdgeTriangles(num, tris));
      forall k :: 0 <= k < |r.value| ==> Measurable(num, r.value[k]) && !Candidate(num, prof, r.value[k])
  {
    RefineFrom(num, sizeGrid, ShortestEdgeTriangles(num, tris), tris, fuel)
  }
}
