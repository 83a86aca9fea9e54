/** Utility/TriangulationUtility.cs: point location, neighbour search and edge flips
    on a triangle list. Lists are sequences; an operation that mutates the list
    returns the new sequence. */
module Topology {
  import opened Results
  import opened Points
  import opened Structs
  import opened Geometry

  /** The tolerance of the on-side test. */
  const SideTolerance: real := 0.00000001

  /** The on-side test of `PointOnSideTriangle`: the two distances from the side's ends
      to p add up to the side's length within the tolerance, all three distances being
      computed by `dist` in the source's argument order. */
  predicate OnSideWithinTolerance(dist: (PointM, PointM) -> real, first: PointM, last: PointM, p: PointM)
  {
    Abs(dist(first, p) + dist(last, p) - dist(first, last)) <= SideTolerance
  }

  /** Side k (1..3) of t holds p in the sense of the on-side test. */
  predicate SideHolds(num: Numerics, t: Triangle, k: int, p: PointM)
    requires 1 <= k <= 3
  {
    OnSideWithinTolerance(num.dist, t.Vertex(SideFrom(k)), t.Vertex(SideTo(k)), p)
  }

  /** `ContainsEdgeTriangleNums`: does some entry name the same triangle? The side number
      plays no part. */
  function ContainsEdgeTriangleNums(list: seq<EdgeTriangleNums>, e: EdgeTriangleNums): (r: bool)
    ensures r <==> exists j :: 0 <= j < |list| && list[j].numTriangle == e.numTriangle
  {
    ContainsFrom(list, e, 0)
  }

  /** The loop of `ContainsEdgeTriangleNums` from entry j on. */
  function ContainsFrom(list: seq<EdgeTriangleNums>, e: EdgeTriangleNums, j: int): (r: bool)
    requires 0 <= j <= |list|
    ensures r <==> exists k :: j <= k < |list| && list[k].numTriangle == e.numTriangle
    decreases |list| - j
  {
    if j == |list| then false
    else if list[j].numTriangle == e.numTriangle then true
    else ContainsFrom(list, e, j + 1)
  }

  /** The inner loop of `PointOnSideTriangle` over sides j + 1 .. 3 of triangle i:
      a side that holds p is recorded unless triangle i already is. */
  function ScanSides(num: Numerics, p: PointM, t: Triangle, i: int, j: int, acc: seq<EdgeTriangleNums>): seq<EdgeTriangleNums>
    requires 0 <= j <= 3
    decreases 3 - j
  {
    if j == 3 then acc
    else
      var firstSideIndex := j;
      var lastSideIndex := if j == 2 then 0 else j + 1;
      var accNext :=
        if OnSideWithinTolerance(num.dist, t.Vertex(firstSideIndex), t.Vertex(lastSideIndex), p) then
          var current := EdgeTriangleNums(i, if lastSideIndex == 0 then 3 else lastSideIndex);
          if !ContainsEdgeTriangleNums(acc, current) then acc + [current] else acc
        else acc;
      ScanSides(num, p, t, i, j + 1, accNext)
  }

  /** The outer loop of `PointOnSideTriangle` from triangle i on. */
  function ScanTriangles(num: Numerics, p: PointM, tris: seq<Triangle>, i: int, acc: seq<EdgeTriangleNums>): seq<EdgeTriangleNums>
    requires 0 <= i <= |tris|
    decreases |tris| - i
  {
    if i == |tris| then acc
    else if p != tris[i].v0 && p != tris[i].v1 && p != tris[i].v2 then
      ScanTriangles(num, p, tris, i + 1, ScanSides(num, p, tris[i], i, 0, acc))
    else
      ScanTriangles(num, p, tris, i + 1, acc)
  }

  /** `PointOnSideTriangle`: the triangles on one of whose sides the point lies, each
      with the number of the first such side. */
  function PointOnSideTriangle(num: Numerics, p: PointM, tris: seq<Triangle>): seq<EdgeTriangleNums>
  {
    ScanTriangles(num, p, tris, 0, [])
  }

  /** The first side of t, in the order 1, 2, 3, that holds p, or 0 when none does. */
  function FirstSideHolding(num: Numerics, t: Triangle, p: PointM): (k: int)
    ensures 0 <= k <= 3
    ensures k != 0 ==> SideHolds(num, t, k, p)
    ensures forall s :: 1 <= s <= 3 && (k == 0 || s < k) ==> !SideHolds(num, t, s, p)
  {
    if SideHolds(num, t, 1, p) then 1
    else if SideHolds(num, t, 2, p) then 2
    else if SideHolds(num, t, 3, p) then 3
    else 0
  }

  /** Reference definition of the side hits: triangle by triangle, an entry for each
      triangle that does not have p as a vertex and has a side holding p. */
  function SideHits(num: Numerics, p: PointM, tris: seq<Triangle>, n: int): seq<EdgeTriangleNums>
    requires 0 <= n <= |tris|
  {
    if n == 0 then []
    else
      var k := FirstSideHolding(num, tris[n - 1], p);
      SideHits(num, p, tris, n - 1)
        + (if !tris[n - 1].HasVertex(p) && k != 0 then [EdgeTriangleNums(n - 1, k)] else [])
  }

  /** Every entry of the reference list names a triangle below n. */
  lemma SideHitsBelow(num: Numerics, p: PointM, tris: seq<Triangle>, n: int)
    requires 0 <= n <= |tris|
    ensures forall k :: 0 <= k < |SideHits(num, p, tris, n)| ==> SideHits(num, p, tris, n)[k].numTriangle < n
  {
    if n > 0 {
      SideHitsBelow(num, p, tris, n - 1);
    }
  }

  /** The side loop adds exactly the entry of the first side holding p, given that the
      list so far names only earlier triangles. */
  lemma {:induction false} ScanSidesAddsFirst(num: Numerics, p: PointM, t: Triangle, i: int, j: int, acc: seq<EdgeTriangleNums>)
    requires 0 <= j <= 3
    requires forall k :: 0 <= k < |acc| - 1 ==> acc[k].numTriangle != i
    requires j > 0 && FirstSideHolding(num, t, p) != 0 && FirstSideHolding(num, t, p) <= j
      ==> |acc| > 0 && acc[|acc| - 1] == EdgeTriangleNums(i, FirstSideHolding(num, t, p))
    requires !(j > 0 && FirstSideHolding(num, t, p) != 0 && FirstSideHolding(num, t, p) <= j)
      ==> forall k :: 0 <= k < |acc| ==> acc[k].numTriangle != i
    ensures var k := FirstSideHolding(num, t, p);
      ScanSides(num, p, t, i, j, acc) ==
        if j > 0 && k != 0 && k <= j then acc
        else acc + (if k != 0 then [EdgeTriangleNums(i, k)] else [])
    decreases 3 - j
  {
    var k := FirstSideHolding(num, t, p);
    if j < 3 {
      var lastSideIndex := if j == 2 then 0 else j + 1;
      assert SideFrom(j + 1) == j && SideTo(j + 1) == lastSideIndex;
      var hit := OnSideWithinTolerance(num.dist, t.Vertex(j), t.Vertex(lastSideIndex), p);
      assert hit == SideHolds(num, t, j + 1, p);
      var current := EdgeTriangleNums(i, if lastSideIndex == 0 then 3 else lastSideIndex);
      assert current == EdgeTriangleNums(i, j + 1);
      if hit {
        if j > 0 && k != 0 && k <= j {
          assert ContainsEdgeTriangleNums(acc, current);
          ScanSidesAddsFirst(num, p, t, i, j + 1, acc);
        } else {
          assert k == j + 1;
          assert !ContainsEdgeTriangleNums(acc, current);
          ScanSidesAddsFirst(num, p, t, i, j + 1, acc + [current]);
        }
      } else {
        ScanSidesAddsFirst(num, p, t, i, j + 1, acc);
      }
    }
  }

  /** The triangle loop extends the reference list triangle by triangle. */
  lemma {:induction false} ScanTrianglesIsSideHits(num: Numerics, p: PointM, tris: seq<Triangle>, i: int)
    requires 0 <= i <= |tris|
    ensures ScanTriangles(num, p, tris, i, SideHits(num, p, tris, i)) == SideHits(num, p, tris, |tris|)
    decreases |tris| - i
  {
    if i < |tris| {
      var acc := SideHits(num, p, tris, i);
      SideHitsBelow(num, p, tris, i);
      var k := FirstSideHolding(num, tris[i], p);
      var next := acc + (if !tris[i].HasVertex(p) && k != 0 then [EdgeTriangleNums(i, k)] else []);
      assert SideHits(num, p, tris, i + 1) == next;
      if p != tris[i].v0 && p != tris[i].v1 && p != tris[i].v2 {
        ScanSidesAddsFirst(num, p, tris[i], i, 0, acc);
        assert ScanSides(num, p, tris[i], i, 0, acc) == next;
        assert ScanTriangles(num, p, tris, i, acc) == ScanTriangles(num, p, tris, i + 1, next);
      } else {
        assert next == acc;
      }
      ScanTrianglesIsSideHits(num, p, tris, i + 1);
    }
  }

  /** One step of the reference list: the list for n keeps the list for n − 1 and adds
      at most the entry of triangle n − 1. */
  lemma SideHitsStep(num: Numerics, p: PointM, tris: seq<Triangle>, n: int)
    requires 0 < n <= |tris|
    ensures var r := SideHits(num, p, tris, n);
      var prev := SideHits(num, p, tris, n - 1);
      var k := FirstSideHolding(num, tris[n - 1], p);
      && (forall j :: 0 <= j < |prev| ==> j < |r| && r[j] == prev[j])
      && (if !tris[n - 1].HasVertex(p) && k != 0
          then |r| == |prev| + 1 && r[|prev|] == EdgeTriangleNums(n - 1, k)
          else |r| == |prev|)
  {
  }

  /** Each entry of the reference list names a triangle below n that does not have p as
      a vertex, with the first of its sides that holds p. */
  lemma {:induction false} SideHitsEntries(num: Numerics, p: PointM, tris: seq<Triangle>, n: int)
    requires 0 <= n <= |tris|
    ensures var r := SideHits(num, p, tris, n);
      forall k :: 0 <= k < |r| ==>
        && 0 <= r[k].numTriangle < n
        && !tris[r[k].numTriangle].HasVertex(p)
        && r[k].numEdge == FirstSideHolding(num, tris[r[k].numTriangle], p)
        && 1 <= r[k].numEdge <= 3
  {
    if n > 0 {
      SideHitsEntries(num, p, tris, n - 1);
      SideHitsStep(num, p, tris, n);
      var prev := SideHits(num, p, tris, n - 1);
      assert forall k :: 0 <= k < |prev| ==> prev[k].numTriangle < n - 1;
    }
  }

  /** The reference list is strictly increasing in the triangle number. */
  lemma {:induction false} SideHitsIncreasing(num: Numerics, p: PointM, tris: seq<Triangle>, n: int)
    requires 0 <= n <= |tris|
    ensures var r := SideHits(num, p, tris, n);
      forall k, l :: 0 <= k < l < |r| ==> r[k].numTriangle < r[l].numTriangle
  {
    if n > 0 {
      SideHitsIncreasing(num, p, tris, n - 1);
      SideHitsBelow(num, p, tris, n - 1);
      SideHitsStep(num, p, tris, n);
    }
  }

  /** Every triangle below n that does not have p as a vertex and has a side holding p
      has its entry in the reference list. */
  lemma {:induction false} SideHitsComplete(num: Numerics, p: PointM, tris: seq<Triangle>, n: int)
    requires 0 <= n <= |tris|
    ensures var r := SideHits(num, p, tris, n);
      forall i :: 0 <= i < n && !tris[i].HasVertex(p) && FirstSideHolding(num, tris[i], p) != 0 ==>
        exists k :: 0 <= k < |r| && r[k].numTriangle == i
  {
    if n > 0 {
      SideHitsComplete(num, p, tris, n - 1);
      SideHitsStep(num, p, tris, n);
      var r := SideHits(num, p, tris, n);
      var prev := SideHits(num, p, tris, n - 1);
      forall i | 0 <= i < n && !tris[i].HasVertex(p) && FirstSideHolding(num, tris[i], p) != 0
        ensures exists k :: 0 <= k < |r| && r[k].numTriangle == i
      {
        if i == n - 1 {
          assert r[|prev|].numTriangle == i;
        } else {
          var k :| 0 <= k < |prev| && prev[k].numTriangle == i;
          assert r[k] == prev[k];
        }
      }
    }
  }

  /** What `PointOnSideTriangle` returns: triangles that do not have p as a vertex, at
      most one entry per triangle in increasing triangle order, each with the first of
      its sides 1, 2, 3 that holds p; and every such triangle is listed. */
  lemma PointOnSideTriangleShape(num: Numerics, p: PointM, tris: seq<Triangle>)
    ensures var r := PointOnSideTriangle(num, p, tris);
      && (forall k :: 0 <= k < |r| ==>
            && 0 <= r[k].numTriangle < |tris|
            && !tris[r[k].numTriangle].HasVertex(p)
            && 1 <= r[k].numEdge <= 3
            && SideHolds(num, tris[r[k].numTriangle], r[k].numEdge, p)
            && forall s :: 1 <= s < r[k].numEdge ==> !SideHolds(num, tris[r[k].numTriangle], s, p))
      && (forall k, l :: 0 <= k < l < |r| ==> r[k].numTriangle < r[l].numTriangle)
      && (forall i :: 0 <= i < |tris| && !tris[i].HasVertex(p) && (exists s :: 1 <= s <= 3 && SideHolds(num, tris[i], s, p)) ==>
            exists k :: 0 <= k < |r| && r[k].numTriangle == i)
  {
    ScanTrianglesIsSideHits(num, p, tris, 0);
    SideHitsEntries(num, p, tris, |tris|);
    SideHitsIncreasing(num, p, tris, |tris|);
    SideHitsComplete(num, p, tris, |tris|);
  }

  /** Math.Sign. */
  function Sign(a: real): (r: int)
    ensures r == -1 || r == 0 || r == 1
    ensures r == 0 <==> a == 0.0
    ensures r == 1 <==> a > 0.0
  {
    if a > 0.0 then 1 else if a < 0.0 then -1 else 0
  }

  /** The three edge determinants of `PointOnTriangle`, as written there: the first is
      (V0.X − P.X)(V1.Y − V0.Y) − (V1.X − V0.X)(V0.Y − P.Y), the others cyclic. */
  function EdgeTest(a: PointM, b: PointM, p: PointM): real
  {
    (a.x - p.x) * (b.y - a.y) - (b.x - a.x) * (a.y - p.y)
  }

  /** `PointOnTriangle`: the three edge determinants have the same sign. */
  predicate PointOnTriangle(t: Triangle, p: PointM)
  {
    var t0 := EdgeTest(t.v0, t.v1, p);
    var t1 := EdgeTest(t.v1, t.v2, p);
    var t2 := EdgeTest(t.v2, t.v0, p);
    Sign(t0) == Sign(t1) && Sign(t0) == Sign(t2)
  }

  /** Each edge determinant is the orientation of p relative to the directed edge. */
  lemma EdgeTestIsCross(a: PointM, b: PointM, p: PointM)
    ensures EdgeTest(a, b, p) == Cross(a, b, p)
  {
  }

  /** Strictly inside: p is strictly on the inner side of all three directed edges, for
      either orientation of the triangle. */
  predicate StrictlyInside(t: Triangle, p: PointM)
  {
    || (Cross(t.v0, t.v1, p) > 0.0 && Cross(t.v1, t.v2, p) > 0.0 && Cross(t.v2, t.v0, p) > 0.0)
    || (Cross(t.v0, t.v1, p) < 0.0 && Cross(t.v1, t.v2, p) < 0.0 && Cross(t.v2, t.v0, p) < 0.0)
  }

  /** The three edge orientations of p add up to the orientation of the triangle. */
  lemma EdgeCrossSum(t: Triangle, p: PointM)
    ensures Cross(t.v0, t.v1, p) + Cross(t.v1, t.v2, p) + Cross(t.v2, t.v0, p) == Cross(t.v0, t.v1, t.v2)
  {
  }

  /** For a triangle of non-zero area, `PointOnTriangle` holds exactly for the points
      strictly inside it: equal signs cannot all be zero, since they add up to twice
      the signed area. */
  lemma PointOnTriangleIsInterior(t: Triangle, p: PointM)
    requires GetSquareTriangle(t) != 0.0
    ensures PointOnTriangle(t, p) <==> StrictlyInside(t, p)
  {
    EdgeTestIsCross(t.v0, t.v1, p);
    EdgeTestIsCross(t.v1, t.v2, p);
    EdgeTestIsCross(t.v2, t.v0, p);
    EdgeCrossSum(t, p);
  }

  /** `GetNumEdgeWithoutPoint`: the number of the side opposite the vertex equal to p,
      checking the vertices in order, or −1 when p is not a vertex. */
  function GetNumEdgeWithoutPoint(t: Triangle, p: PointM): (r: int)
    ensures r == -1 <==> !t.HasVertex(p)
    ensures r != -1 ==>
      && 1 <= r <= 3
      && t.Vertex(Opposite(r)) == p
      && forall k :: 0 <= k < Opposite(r) ==> t.Vertex(k) != p
  {
    if p == t.v0 then 2
    else if p == t.v1 then 3
    else if p == t.v2 then 1
    else -1
  }

  /** Side j + 1 of cand runs along the side from `first` to `last` of a triangle whose
      third vertex is `other`, in either direction, and cand has a different third vertex. */
  predicate SharesSide(first: PointM, last: PointM, other: PointM, cand: Triangle, j: int)
    requires 0 <= j < 3
  {
    var currentFirst := cand.Vertex(SideFrom(j + 1));
    var currentLast := cand.Vertex(SideTo(j + 1));
    var currentOther := cand.Vertex(Opposite(j + 1));
    ((first == currentFirst && last == currentLast) || (first == currentLast && last == currentFirst))
      && other != currentOther
  }

  /** The inner loop of `GetNeighborEdgeTriangleNums` over the sides of triangle i:
      the first matching side, or `found` unchanged. */
  function MatchSides(first: PointM, last: PointM, other: PointM, cand: Triangle, i: int, j: int, found: EdgeTriangleNums): EdgeTriangleNums
    requires 0 <= j <= 3
    decreases 3 - j
  {
    if j == 3 then found
    else
      var currentFirstPoint := cand.Vertex(j);
      var currentLastPoint := if j == 2 then cand.Vertex(0) else cand.Vertex(j + 1);
      var currentOtherPoint := if j == 2 then cand.Vertex(3 - j) else cand.Vertex(3 - j - j - 1);
      if (first == currentFirstPoint && last == currentLastPoint && other != currentOtherPoint)
        || (first == currentLastPoint && last == currentFirstPoint && other != currentOtherPoint)
      then EdgeTriangleNums(i, if j == 2 then 3 else j + 1)
      else MatchSides(first, last, other, cand, i, j + 1, found)
  }

  /** The outer loop of `GetNeighborEdgeTriangleNums` from triangle i on. */
  function MatchTriangles(first: PointM, last: PointM, other: PointM, tris: seq<Triangle>, i: int, found: EdgeTriangleNums): EdgeTriangleNums
    requires 0 <= i <= |tris|
    decreases |tris| - i
  {
    if i == |tris| then found
    else MatchTriangles(first, last, other, tris, i + 1, MatchSides(first, last, other, tris[i], i, 0, found))
  }

  /** `GetNeighborEdgeTriangleNums`: the triangle of the list sharing side numEdge of t
      with a different third vertex, and the number of that side in it. The side number
      must be 1..3, otherwise the vertex lookup throws. */
  function GetNeighborEdgeTriangleNums(numEdge: int, t: Triangle, tris: seq<Triangle>): (r: Result<EdgeTriangleNums>)
    ensures r.Ok? <==> 1 <= numEdge <= 3
  {
    var firstSideIndex := numEdge - 1;
    var lastSideIndex := if numEdge == 3 then 0 else numEdge;
    if !(0 <= firstSideIndex < 3 && 0 <= lastSideIndex < 3) then Err(IndexOutOfRange)
    else
      var otherIndex := 3 - firstSideIndex - lastSideIndex;
      Ok(MatchTriangles(t.Vertex(firstSideIndex), t.Vertex(lastSideIndex), t.Vertex(otherIndex), tris, 0, NoEdge))
  }

  /** The first side of cand that shares side (first, last) of the triangle, as j + 1, or 0. */
  function FirstSharedSide(first: PointM, last: PointM, other: PointM, cand: Triangle): (k: int)
    ensures 0 <= k <= 3
    ensures k != 0 ==> SharesSide(first, last, other, cand, k - 1)
    ensures forall j :: 0 <= j < 3 && (k == 0 || j < k - 1) ==> !SharesSide(first, last, other, cand, j)
  {
    if SharesSide(first, last, other, cand, 0) then 1
    else if SharesSide(first, last, other, cand, 1) then 2
    else if SharesSide(first, last, other, cand, 2) then 3
    else 0
  }

  /** The side loop records the first shared side. */
  lemma {:induction false} MatchSidesFirst(first: PointM, last: PointM, other: PointM, cand: Triangle, i: int, j: int, found: EdgeTriangleNums)
    requires 0 <= j <= 3
    requires forall l :: 0 <= l < j ==> !SharesSide(first, last, other, cand, l)
    ensures var k := FirstSharedSide(first, last, other, cand);
      MatchSides(first, last, other, cand, i, j, found) == if k == 0 then found else EdgeTriangleNums(i, k)
    decreases 3 - j
  {
    if j < 3 {
      SideNumbering(j + 1);
      if !SharesSide(first, last, other, cand, j) {
        MatchSidesFirst(first, last, other, cand, i, j + 1, found);
      }
    }
  }

  /** The triangle loop keeps the last triangle with a shared side. */
  lemma {:induction false} MatchTrianglesLast(first: PointM, last: PointM, other: PointM, tris: seq<Triangle>, i: int, found: EdgeTriangleNums)
    requires 0 <= i <= |tris|
    ensures var r := MatchTriangles(first, last, other, tris, i, found);
      || (r == found && forall l :: i <= l < |tris| ==> FirstSharedSide(first, last, other, tris[l]) == 0)
      || (&& i <= r.numTriangle < |tris|
          && r.numEdge == FirstSharedSide(first, last, other, tris[r.numTriangle])
          && r.numEdge != 0
          && forall l :: r.numTriangle < l < |tris| ==> FirstSharedSide(first, last, other, tris[l]) == 0)
    decreases |tris| - i
  {
    if i < |tris| {
      MatchSidesFirst(first, last, other, tris[i], i, 0, found);
      MatchTrianglesLast(first, last, other, tris, i + 1, MatchSides(first, last, other, tris[i], i, 0, found));
    }
  }

  /** What `GetNeighborEdgeTriangleNums` returns: a fault for a side number outside 1..3;
      otherwise `NoEdge` (zeroes) when no triangle shares the side, and else the last
      triangle that does, with the first of its sides that does. */
  lemma GetNeighborEdgeTriangleNumsSpec(numEdge: int, t: Triangle, tris: seq<Triangle>)
    requires 1 <= numEdge <= 3
    ensures
      var first := t.Vertex(SideFrom(numEdge));
      var last := t.Vertex(SideTo(numEdge));
      var other := t.Vertex(Opposite(numEdge));
      var r := GetNeighborEdgeTriangleNums(numEdge, t, tris).value;
      || (r == NoEdge && forall l :: 0 <= l < |tris| ==> FirstSharedSide(first, last, other, tris[l]) == 0)
      || (&& 0 <= r.numTriangle < |tris|
          && 1 <= r.numEdge <= 3
          && SharesSide(first, last, other, tris[r.numTriangle], r.numEdge - 1)
          && (forall j :: 0 <= j < r.numEdge - 1 ==> !SharesSide(first, last, other, tris[r.numTriangle], j))
          && forall l :: r.numTriangle < l < |tris| ==> FirstSharedSide(first, last, other, tris[l]) == 0)
  {
    var first := t.Vertex(SideFrom(numEdge));
    var last := t.Vertex(SideTo(numEdge));
    var other := t.Vertex(Opposite(numEdge));
    MatchTrianglesLast(first, last, other, tris, 0, NoEdge);
  }

  /** The triangle loop of `PointIsBeyondArea` from triangle i on. */
  function SomeTriangleMisses(tris: seq<Triangle>, p: PointM, i: int): (r: bool)
    requires 0 <= i <= |tris|
    ensures r <==> exists k :: i <= k < |tris| && !PointOnTriangle(tris[k], p)
    decreases |tris| - i
  {
    if i == |tris| then false
    else if !PointOnTriangle(tris[i], p) then true
    else SomeTriangleMisses(tris, p, i + 1)
  }

  /** `PointIsBeyondArea` as written: no side holds the point and SOME triangle does not
      contain it. */
  function PointIsBeyondArea(num: Numerics, p: PointM, tris: seq<Triangle>): (r: bool)
    ensures r <==> |PointOnSideTriangle(num, p, tris)| == 0 && exists k :: 0 <= k < |tris| && !PointOnTriangle(tris[k], p)
  {
    var edgeTriangleNums := PointOnSideTriangle(num, p, tris);
    if |edgeTriangleNums| == 0 then SomeTriangleMisses(tris, p, 0) else false
  }

  /** `PointIsBeyondArea` as intended: no side holds the point and NO triangle contains
      it. */
  function PointIsOutsideArea(num: Numerics, p: PointM, tris: seq<Triangle>): (r: bool)
    ensures r <==> |PointOnSideTriangle(num, p, tris)| == 0 && forall k :: 0 <= k < |tris| ==> !PointOnTriangle(tris[k], p)
  {
    |PointOnSideTriangle(num, p, tris)| == 0 && !SomeTriangleHolds(tris, p, 0)
  }

  /** Some triangle from i on contains the point. */
  function SomeTriangleHolds(tris: seq<Triangle>, p: PointM, i: int): (r: bool)
    requires 0 <= i <= |tris|
    ensures r <==> exists k :: i <= k < |tris| && PointOnTriangle(tris[k], p)
    decreases |tris| - i
  {
    if i == |tris| then false
    else if PointOnTriangle(tris[i], p) then true
    else SomeTriangleHolds(tris, p, i + 1)
  }

  /** Every triangle of the mesh has non-zero area. */
  predicate NonDegenerate(tris: seq<Triangle>) {
    forall k :: 0 <= k < |tris| ==> GetSquareTriangle(tris[k]) != 0.0
  }

  /** In a mesh without degenerate triangles the corrected test holds exactly for the
      points on no side and strictly inside no triangle. */
  lemma PointIsOutsideAreaMeansOutside(num: Numerics, p: PointM, tris: seq<Triangle>)
    requires NonDegenerate(tris)
    ensures PointIsOutsideArea(num, p, tris)
      <==> |PointOnSideTriangle(num, p, tris)| == 0 && forall k :: 0 <= k < |tris| ==> !StrictlyInside(tris[k], p)
  {
    forall k | 0 <= k < |tris| {
      PointOnTriangleIsInterior(tris[k], p);
    }
  }

  /** Two triangles making up the unit square, and a point strictly inside the first. */
  const UnitSquare: seq<Triangle> := [
    NewTriangle(PointM(0.0, 0.0), PointM(1.0, 0.0), PointM(0.0, 1.0)),
    NewTriangle(PointM(1.0, 0.0), PointM(1.0, 1.0), PointM(0.0, 1.0))]
  const InnerPoint: PointM := PointM(0.25, 0.25)

  /** Three positive edge determinants place p strictly inside t. */
  lemma PositiveEdgeTestsInside(t: Triangle, p: PointM)
    requires EdgeTest(t.v0, t.v1, p) > 0.0 && EdgeTest(t.v1, t.v2, p) > 0.0 && EdgeTest(t.v2, t.v0, p) > 0.0
    ensures StrictlyInside(t, p) && PointOnTriangle(t, p)
  {
    EdgeTestIsCross(t.v0, t.v1, p);
    EdgeTestIsCross(t.v1, t.v2, p);
    EdgeTestIsCross(t.v2, t.v0, p);
  }

  /** The inner point is strictly inside the first triangle of the unit square. */
  lemma InnerPointInFirst()
    ensures StrictlyInside(UnitSquare[0], InnerPoint)
    ensures PointOnTriangle(UnitSquare[0], InnerPoint)
  {
    var t := UnitSquare[0];
    var p := InnerPoint;
    assert EdgeTest(t.v0, t.v1, p) > 0.0 by { assert EdgeTest(t.v0, t.v1, p) == 0.25; }
    assert EdgeTest(t.v1, t.v2, p) > 0.0 by { assert EdgeTest(t.v1, t.v2, p) == 0.5; }
    assert EdgeTest(t.v2, t.v0, p) > 0.0 by { assert EdgeTest(t.v2, t.v0, p) == 0.25; }
    PositiveEdgeTestsInside(t, p);
  }

  /** The second triangle of the unit square does not contain the inner point. */
  lemma InnerPointNotInSecond()
    ensures !PointOnTriangle(UnitSquare[1], InnerPoint)
  {
    var t := UnitSquare[1];
    var p := InnerPoint;
    assert Sign(EdgeTest(t.v0, t.v1, p)) == 1 by { assert EdgeTest(t.v0, t.v1, p) == 0.75; }
    assert Sign(EdgeTest(t.v2, t.v0, p)) == -1 by { assert EdgeTest(t.v2, t.v0, p) == -0.5; }
  }

  /** The unit square meets the hypotheses below: the inner point is strictly inside the
      first triangle, which `PointOnTriangle` recognises, and not in the second. */
  lemma UnitSquareSeparatesInnerPoint()
    ensures StrictlyInside(UnitSquare[0], InnerPoint) && PointOnTriangle(UnitSquare[0], InnerPoint)
    ensures !PointOnTriangle(UnitSquare[1], InnerPoint)
  {
    InnerPointInFirst();
    InnerPointNotInSecond();
  }

  /** No side of any triangle of the mesh holds p. */
  predicate NoSideHolds(num: Numerics, p: PointM, tris: seq<Triangle>) {
    forall k :: 0 <= k < |tris| ==> FirstSideHolding(num, tris[k], p) == 0
  }

  /** With no side holding p the reference list of side hits is empty. */
  lemma {:induction false} NoSideHoldsNoSideHits(num: Numerics, p: PointM, tris: seq<Triangle>, n: int)
    requires NoSideHolds(num, p, tris)
    requires 0 <= n <= |tris|
    ensures SideHits(num, p, tris, n) == []
  {
    if n > 0 {
      NoSideHoldsNoSideHits(num, p, tris, n - 1);
    }
  }

  /** With no side holding p the side search finds nothing. */
  lemma NoSideHoldsNoHits(num: Numerics, p: PointM, tris: seq<Triangle>)
    requires NoSideHolds(num, p, tris)
    ensures |PointOnSideTriangle(num, p, tris)| == 0
  {
    ScanTrianglesIsSideHits(num, p, tris, 0);
    NoSideHoldsNoSideHits(num, p, tris, |tris|);
  }

  /** With no side holding p, one triangle containing p and another not (as for the inner
      point of the unit square), `PointIsBeyondArea` reports p beyond the area while the
      corrected test does not. */
  lemma BeyondAreaWhenAnotherMisses(num: Numerics, p: PointM, tris: seq<Triangle>, i: int, j: int)
    requires NoSideHolds(num, p, tris)
    requires 0 <= i < |tris| && PointOnTriangle(tris[i], p)
    requires 0 <= j < |tris| && !PointOnTriangle(tris[j], p)
    ensures PointIsBeyondArea(num, p, tris) && !PointIsOutsideArea(num, p, tris)
  {
    NoSideHoldsNoHits(num, p, tris);
  }

  /** The cyclic neighbours of entry i of a list of n points. */
  function PrevIndex(i: int, n: int): (r: int)
    ensures 0 <= r < n <==> 0 <= i <= n && 0 < n
    ensures 0 <= i < n ==> r == (i + n - 1) % n
  {
    if i == 0 then n - 1 else i - 1
  }
  function NextIndex(i: int, n: int): (r: int)
    ensures 0 <= r < n <==> -1 <= i < n && 0 < n
    ensures 0 <= i < n ==> r == (i + 1) % n
  {
    if i == n - 1 then 0 else i + 1
  }

  /** Some triangle from i on has p as a vertex. */
  function SomeTriangleHasVertex(tris: seq<Triangle>, p: PointM, i: int): (r: bool)
    requires 0 <= i <= |tris|
    ensures r <==> exists k :: i <= k < |tris| && tris[k].HasVertex(p)
    decreases |tris| - i
  {
    if i == |tris| then false
    else if tris[i].HasVertex(p) then true
    else SomeTriangleHasVertex(tris, p, i + 1)
  }

  /** `PointIsRequired`: split point i is still needed unless both of its cyclic
      neighbours are already vertices of the mesh. The neighbours are only read inside
      the triangle loop, so an empty mesh answers true whatever the index. */
  function PointIsRequired(indexPoint: int, tris: seq<Triangle>, splitPoints: seq<PointM>): (r: Result<bool>)
    ensures r.Ok? <==> |tris| == 0 || 0 <= indexPoint < |splitPoints|
    ensures r.Ok? && |tris| != 0 ==>
      var n := |splitPoints|;
      (r.value <==>
        !(&& (exists k :: 0 <= k < |tris| && tris[k].HasVertex(splitPoints[(indexPoint + n - 1) % n]))
          && (exists k :: 0 <= k < |tris| && tris[k].HasVertex(splitPoints[(indexPoint + 1) % n]))))
    ensures |tris| == 0 ==> r == Ok(true)
  {
    var firstIndex := PrevIndex(indexPoint, |splitPoints|);
    var secondIndex := NextIndex(indexPoint, |splitPoints|);
    if |tris| == 0 then Ok(true)
    else if !(0 <= firstIndex < |splitPoints| && 0 <= secondIndex < |splitPoints|) then Err(IndexOutOfRange)
    else
      var firstT := SomeTriangleHasVertex(tris, splitPoints[firstIndex], 0);
      var secondT := SomeTriangleHasVertex(tris, splitPoints[secondIndex], 0);
      Ok(!(firstT && secondT))
  }

  /** `PointInCircleNeighborTriangle`: is the neighbour's vertex opposite the shared side
      within the circumradius, computed as the product of the sides over four times the
      area, of the circumcenter of t? The radius is divided out first, then the
      neighbour and its vertex are looked up. */
  function PointInCircleNeighborTriangle(num: Numerics, nb: EdgeTriangleNums, t: Triangle, tris: seq<Triangle>): (r: Result<bool>)
    ensures r.Ok? <==> GetSquareTriangle(t) != 0.0 && 0 <= nb.numTriangle < |tris| && -1 <= nb.numEdge <= 3
    ensures r.Ok? && 1 <= nb.numEdge <= 3 ==>
      (r.value <==> num.dist(tris[nb.numTriangle].Vertex(Opposite(nb.numEdge)), GetCenterPointCircleTriangle(t).value)
                    <= GetCircumRadius(num, t).value)
  {
    var radius :- GetCircumRadius(num, t);
    var index := if nb.numEdge == 2 then 0 else if nb.numEdge == 3 then 1 else nb.numEdge + 1;
    if !(0 <= nb.numTriangle < |tris| && 0 <= index < 3) then Err(IndexOutOfRange)
    else
      var center := GetCenterPointCircleTriangle(t).value;
      Ok(num.dist(tris[nb.numTriangle].Vertex(index), center) <= radius)
  }

  /** The exact on-segment test of `EdgeTriangleOnBorder` and of the border search of the
      node numbering: the distances from the ends to p add up to the segment's length. */
  predicate OnSegmentExact(dist: (PointM, PointM) -> real, a: PointM, b: PointM, p: PointM)
  {
    dist(a, p) + dist(p, b) == dist(a, b)
  }

  /** The end of border side i of a closed polygon. */
  function BorderEnd(pointsArea: seq<PointM>, i: int): PointM
    requires 0 <= i < |pointsArea|
  {
    pointsArea[if i == |pointsArea| - 1 then 0 else i + 1]
  }

  /** Both ends of an edge lie on border side i. */
  predicate EdgeOnBorderSide(dist: (PointM, PointM) -> real, first: PointM, second: PointM, pointsArea: seq<PointM>, i: int)
    requires 0 <= i < |pointsArea|
  {
    && OnSegmentExact(dist, pointsArea[i], BorderEnd(pointsArea, i), first)
    && OnSegmentExact(dist, pointsArea[i], BorderEnd(pointsArea, i), second)
  }

  /** The border loop from side i on. */
  function BorderFrom(dist: (PointM, PointM) -> real, first: PointM, second: PointM, pointsArea: seq<PointM>, i: int): (r: int)
    requires 0 <= i <= |pointsArea|
    ensures r == -1 || i <= r < |pointsArea|
    ensures r == -1 <==> forall k :: i <= k < |pointsArea| ==> !EdgeOnBorderSide(dist, first, second, pointsArea, k)
    ensures r != -1 ==>
      && EdgeOnBorderSide(dist, first, second, pointsArea, r)
      && forall k :: i <= k < r ==> !EdgeOnBorderSide(dist, first, second, pointsArea, k)
    decreases |pointsArea| - i
  {
    if i == |pointsArea| then -1
    else if EdgeOnBorderSide(dist, first, second, pointsArea, i) then i
    else BorderFrom(dist, first, second, pointsArea, i + 1)
  }

  /** `EdgeTriangleOnBorder`: the first border side holding both ends of the edge, or −1. */
  function EdgeTriangleOnBorder(dist: (PointM, PointM) -> real, first: PointM, second: PointM, pointsArea: seq<PointM>): (r: int)
    ensures r == -1 || 0 <= r < |pointsArea|
    ensures r == -1 <==> forall k :: 0 <= k < |pointsArea| ==> !EdgeOnBorderSide(dist, first, second, pointsArea, k)
    ensures r != -1 ==>
      && EdgeOnBorderSide(dist, first, second, pointsArea, r)
      && forall k :: 0 <= k < r ==> !EdgeOnBorderSide(dist, first, second, pointsArea, k)
  {
    BorderFrom(dist, first, second, pointsArea, 0)
  }

  /** The list operations of a flip as written: append the two new triangles, remove the
      flipped triangle, then remove whatever now sits at the neighbour's old index. */
  function ReplaceAsWritten(tris: seq<Triangle>, idx: int, nb: int, t0: Triangle, t1: Triangle): (r: seq<Triangle>)
    requires 0 <= idx < |tris| && 0 <= nb < |tris|
    ensures |r| == |tris|
    ensures r[|r| - 1] == t1
    ensures forall x :: x in r ==> x in tris || x == t0 || x == t1
  {
    RemoveAtMultiset(tris + [t0, t1], idx);
    RemoveAtMultiset(RemoveAt(tris + [t0, t1], idx), nb);
    RemoveAt(RemoveAt(tris + [t0, t1], idx), nb)
  }

  /** Remove two distinct entries, keeping the order of the rest. */
  function RemovePair<T>(s: seq<T>, i: int, j: int): (r: seq<T>)
    requires 0 <= i < |s| && 0 <= j < |s| && i != j
    ensures |r| == |s| - 2
    ensures multiset(r) + multiset{s[i], s[j]} == multiset(s)
  {
    var lo := if i < j then i else j;
    var hi := if i < j then j else i;
    RemoveAtMultiset(s, hi);
    RemoveAtMultiset(RemoveAt(s, hi), lo);
    RemoveAt(RemoveAt(s, hi), lo)
  }

  /** `RemoveAt` takes exactly one occurrence of the removed entry out of the multiset. */
  lemma RemoveAtMultiset<T>(s: seq<T>, i: int)
    requires 0 <= i < |s|
    ensures multiset(RemoveAt(s, i)) + multiset{s[i]} == multiset(s)
  {
    assert s == s[..i] + [s[i]] + s[i + 1..];
    assert RemoveAt(s, i) == s[..i] + s[i + 1..];
  }

  /** The list operations of a flip as intended: the flipped triangle and its neighbour
      leave the list, the two new triangles are appended. */
  function ReplacePair(tris: seq<Triangle>, idx: int, nb: int, t0: Triangle, t1: Triangle): (r: seq<Triangle>)
    requires 0 <= idx < |tris| && 0 <= nb < |tris| && idx != nb
    ensures |r| == |tris|
    ensures r[|r| - 2] == t0 && r[|r| - 1] == t1
    ensures multiset(r) + multiset{tris[idx], tris[nb]} == multiset(tris) + multiset{t0, t1}
  {
    RemovePair(tris, idx, nb) + [t0, t1]
  }

  /** When the neighbour comes before the flipped triangle the written operations do what
      was intended. */
  lemma ReplaceAsWrittenBelow(tris: seq<Triangle>, idx: int, nb: int, t0: Triangle, t1: Triangle)
    requires 0 <= nb < idx < |tris|
    ensures ReplaceAsWritten(tris, idx, nb, t0, t1) == ReplacePair(tris, idx, nb, t0, t1)
  {
  }

  /** When the neighbour comes after the flipped triangle the stale index removes the
      entry after the neighbour (the first new triangle when the neighbour is last), and
      the neighbour stays. */
  lemma ReplaceAsWrittenAbove(tris: seq<Triangle>, idx: int, nb: int, t0: Triangle, t1: Triangle)
    requires 0 <= idx < nb < |tris|
    ensures ReplaceAsWritten(tris, idx, nb, t0, t1)
      == tris[..idx] + tris[idx + 1..nb + 1] + (tris + [t0, t1])[nb + 2..]
  {
    var r := ReplaceAsWritten(tris, idx, nb, t0, t1);
    var e := tris[..idx] + tris[idx + 1..nb + 1] + (tris + [t0, t1])[nb + 2..];
    assert |r| == |e|;
    forall k | 0 <= k < |r|
      ensures r[k] == e[k]
    {
      if k < idx {
      } else if k < nb {
      } else {
      }
    }
  }

  /** The smallest instance: flipping the first of two triangles against the second keeps
      the second and loses the first new triangle. */
  lemma StaleRemovalExample(a: Triangle, b: Triangle, t0: Triangle, t1: Triangle)
    ensures ReplaceAsWritten([a, b], 0, 1, t0, t1) == [b, t1]
    ensures ReplacePair([a, b], 0, 1, t0, t1) == [t0, t1]
  {
  }

  /** A repeated vertex makes the orientation zero. */
  lemma CrossRepeated(a: PointM, c: PointM)
    ensures Cross(a, a, c) == 0.0 && Cross(a, c, a) == 0.0 && Cross(c, a, a) == 0.0
  {
  }

  /** A triangle of non-zero area has three distinct vertices. */
  lemma DistinctVertices(t: Triangle)
    requires GetSquareTriangle(t) != 0.0
    ensures t.v0 != t.v1 && t.v1 != t.v2 && t.v2 != t.v0
  {
    CrossRepeated(t.v0, t.v2);
    CrossRepeated(t.v1, t.v0);
    CrossRepeated(t.v2, t.v1);
  }

  /** A triangle with distinct vertices is not its own neighbour across any side. */
  lemma NotOwnNeighbour(t: Triangle, k: int)
    requires t.v0 != t.v1 && t.v1 != t.v2 && t.v2 != t.v0
    requires 1 <= k <= 3
    ensures FirstSharedSide(t.Vertex(SideFrom(k)), t.Vertex(SideTo(k)), t.Vertex(Opposite(k)), t) == 0
  {
  }

  /** A triangle sharing a side whose ends differ from `other`, with a third vertex other
      than `other`, does not have `other` as a vertex. */
  lemma SharerLacksOther(first: PointM, last: PointM, other: PointM, cand: Triangle, j: int)
    requires 0 <= j < 3 && SharesSide(first, last, other, cand, j)
    requires first != other && last != other
    ensures !cand.HasVertex(other)
  {
    SideNumbering(j + 1);
  }

  /** The neighbour found across the side opposite p of a triangle of non-zero area is
      another triangle of the list, and p is not one of its vertices. */
  lemma NeighbourIsOther(idx: int, p: PointM, tris: seq<Triangle>)
    requires 0 <= idx < |tris| && GetSquareTriangle(tris[idx]) != 0.0
    requires tris[idx].HasVertex(p)
    requires GetNeighborEdgeTriangleNums(GetNumEdgeWithoutPoint(tris[idx], p), tris[idx], tris).value.numEdge != 0
    ensures var nb := GetNeighborEdgeTriangleNums(GetNumEdgeWithoutPoint(tris[idx], p), tris[idx], tris).value;
      && 0 <= nb.numTriangle < |tris| && nb.numTriangle != idx && 1 <= nb.numEdge <= 3
      && !tris[nb.numTriangle].HasVertex(p)
  {
    var t := tris[idx];
    var k := GetNumEdgeWithoutPoint(t, p);
    var nb := GetNeighborEdgeTriangleNums(k, t, tris).value;
    GetNeighborEdgeTriangleNumsSpec(k, t, tris);
    DistinctVertices(t);
    NotOwnNeighbour(t, k);
    SideNumbering(k);
    SharerLacksOther(t.Vertex(SideFrom(k)), t.Vertex(SideTo(k)), p, tris[nb.numTriangle], nb.numEdge - 1);
  }

  /** The two triangles that replace a flipped pair: with side k of t running from a to b
      and f the neighbour's far vertex, (p, a, f) and (f, b, p). */
  function FlipTriangles(p: PointM, t: Triangle, k: int, f: PointM): (Triangle, Triangle)
    requires 1 <= k <= 3
  {
    var firstIndexCurrentTriangle := k - 1;
    var lastIndexCurrentTriangle := if k == 3 then 0 else k;
    (NewTriangle(p, t.Vertex(firstIndexCurrentTriangle), f), NewTriangle(f, t.Vertex(lastIndexCurrentTriangle), p))
  }

  /** What one call of `FlipBadEdges` does before its recursive calls. */
  datatype FlipOutcome = Unchanged | Flipped(tris: seq<Triangle>)

  /** The decision of one call of `FlipBadEdges`: keep the list, or swap the triangle and
      its neighbour nb for the triangles t0 and t1 across the other diagonal. */
  datatype FlipPlan = Keep | Swap(nb: int, t0: Triangle, t1: Triangle)

  /** The decision of `FlipBadEdges` for the triangle at idx and the new point p: find the
      side opposite p and the neighbour across it, and swap when the neighbour's far
      vertex is within the circumcircle. The neighbour is another triangle, without p. */
  function PlanFlip(num: Numerics, idx: int, p: PointM, tris: seq<Triangle>): (r: Result<FlipPlan>)
    ensures r.Ok? ==> 0 <= idx < |tris| && tris[idx].HasVertex(p)
    ensures r.Ok? && r.value.Swap? ==>
      && 0 <= r.value.nb < |tris| && r.value.nb != idx && !tris[r.value.nb].HasVertex(p)
      && r.value.t0.HasVertex(p) && r.value.t1.HasVertex(p)
  {
    if !(0 <= idx < |tris|) then Err(IndexOutOfRange)
    else
    var t := tris[idx];
    var commonEdgeIndex := GetNumEdgeWithoutPoint(t, p);
    var nb :- GetNeighborEdgeTriangleNums(commonEdgeIndex, t, tris);
    if nb.numEdge == 0 then Ok(Keep)
    else
      var inCircle :- PointInCircleNeighborTriangle(num, nb, t, tris);
      if !inCircle then Ok(Keep)
      else
        NeighbourIsOther(idx, p, tris);
        var indexNeighborTriangle := if nb.numEdge == 1 then 2 else if nb.numEdge == 2 then 0 else 1;
        var pair := FlipTriangles(p, t, commonEdgeIndex, tris[nb.numTriangle].Vertex(indexNeighborTriangle));
        Ok(Swap(nb.numTriangle, pair.0, pair.1))
  }

  /** What the decision rests on: the list is kept exactly when the side opposite p has no
      neighbour or the neighbour's far vertex is outside the circumcircle; a swap takes
      that neighbour, which runs along the side, and cuts the quadrilateral along the
      diagonal from p to the far vertex. */
  lemma PlanFlipDecides(num: Numerics, idx: int, p: PointM, tris: seq<Triangle>)
    requires PlanFlip(num, idx, p, tris).Ok?
    ensures var t, plan := tris[idx], PlanFlip(num, idx, p, tris).value;
      var k := GetNumEdgeWithoutPoint(t, p);
      var nbr := GetNeighborEdgeTriangleNums(k, t, tris).value;
      && (plan.Keep? <==> nbr.numEdge == 0 || !PointInCircleNeighborTriangle(num, nbr, t, tris).value)
      && (plan.Swap? ==>
            && plan.nb == nbr.numTriangle && 1 <= nbr.numEdge <= 3
            && SharesSide(t.Vertex(SideFrom(k)), t.Vertex(SideTo(k)), p, tris[plan.nb], nbr.numEdge - 1)
            && (plan.t0, plan.t1) == FlipTriangles(p, t, k, tris[plan.nb].Vertex(Opposite(nbr.numEdge))))
  {
    var t := tris[idx];
    var k := GetNumEdgeWithoutPoint(t, p);
    var nbr := GetNeighborEdgeTriangleNums(k, t, tris).value;
    GetNeighborEdgeTriangleNumsSpec(k, t, tris);
    if nbr.numEdge != 0 {
      SideNumbering(nbr.numEdge);
    }
  }

  /** One flip of `FlipBadEdges` as written: on a swap the two new triangles are
      appended, the flipped triangle is removed, and then the entry at the neighbour's
      old index (`ReplaceAsWritten`). */
  function FlipStep(num: Numerics, idx: int, p: PointM, tris: seq<Triangle>): (r: Result<FlipOutcome>)
    ensures r.Ok? ==> 0 <= idx < |tris| && tris[idx].HasVertex(p)
    ensures r.Ok? && r.value.Flipped? ==> |r.value.tris| == |tris| >= 2
  {
    var plan :- PlanFlip(num, idx, p, tris);
    match plan
    case Keep => Ok(Unchanged)
    case Swap(nb, t0, t1) => Ok(Flipped(ReplaceAsWritten(tris, idx, nb, t0, t1)))
  }

  /** The same flip with the intended removal `ReplacePair`: exactly the flipped triangle
      and its neighbour leave the list. */
  function FlipStepIntended(num: Numerics, idx: int, p: PointM, tris: seq<Triangle>): (r: Result<FlipOutcome>)
    ensures r.Ok? ==> 0 <= idx < |tris| && tris[idx].HasVertex(p)
    ensures r.Ok? && r.value.Flipped? ==> |r.value.tris| == |tris| >= 2
  {
    var plan :- PlanFlip(num, idx, p, tris);
    match plan
    case Keep => Ok(Unchanged)
    case Swap(nb, t0, t1) => Ok(Flipped(ReplacePair(tris, idx, nb, t0, t1)))
  }

  /** A flip as written ends the list with a new triangle having p as a vertex. When the
      neighbour comes first it replaces exactly the pair; when the neighbour comes after
      the flipped triangle the neighbour stays and the entry after it goes. */
  lemma FlipStepReplaces(num: Numerics, idx: int, p: PointM, tris: seq<Triangle>)
    requires FlipStep(num, idx, p, tris).Ok? && FlipStep(num, idx, p, tris).value.Flipped?
    ensures var m, plan := FlipStep(num, idx, p, tris).value.tris, PlanFlip(num, idx, p, tris).value;
      && plan.Swap?
      && m[|m| - 1].HasVertex(p)
      && (plan.nb < idx ==> m == ReplacePair(tris, idx, plan.nb, plan.t0, plan.t1))
      && (idx < plan.nb ==> m == tris[..idx] + tris[idx + 1..plan.nb + 1] + (tris + [plan.t0, plan.t1])[plan.nb + 2..])
  {
    var plan := PlanFlip(num, idx, p, tris).value;
    if plan.nb < idx {
      ReplaceAsWrittenBelow(tris, idx, plan.nb, plan.t0, plan.t1);
    } else {
      ReplaceAsWrittenAbove(tris, idx, plan.nb, plan.t0, plan.t1);
    }
  }

  /** Every entry of tris after position i satisfies P. */
  ghost predicate TailSatisfies(tris: seq<Triangle>, i: int, P: Triangle -> bool) {
    forall l :: i < l < |tris| && l >= 0 ==> P(tris[l])
  }

  /** When every entry after idx has p as a vertex the neighbour, which lacks p, comes
      before idx, and the written removal is the intended one. */
  lemma FlipStepAsIntendedWhenTail(num: Numerics, idx: int, p: PointM, tris: seq<Triangle>)
    requires TailSatisfies(tris, idx, (x: Triangle) => x.HasVertex(p))
    ensures FlipStep(num, idx, p, tris) == FlipStepIntended(num, idx, p, tris)
  {
    var plan := PlanFlip(num, idx, p, tris);
    if plan.Ok? && plan.value.Swap? {
      var nb := plan.value.nb;
      ReplaceAsWrittenBelow(tris, idx, nb, plan.value.t0, plan.value.t1);
    }
  }

  /** Twice the signed area of a triangle: positive when its vertices run counter-clockwise. */
  function SignedArea(t: Triangle): real {
    Cross(t.v0, t.v1, t.v2)
  }

  /** Orientation does not depend on which vertex is listed first. */
  lemma CrossRotate(a: PointM, b: PointM, c: PointM)
    ensures Cross(a, b, c) == Cross(b, c, a)
  {
  }

  /** The two ways of cutting the quadrilateral a, f, b, p along a diagonal cover the same
      signed area. */
  lemma DiagonalSwapArea(a: PointM, b: PointM, p: PointM, f: PointM)
    ensures Cross(p, a, f) + Cross(f, b, p) == Cross(a, b, p) + Cross(b, a, f)
  {
  }

  /** A flip keeps the signed area: when p is the vertex of t opposite side k, and the
      neighbour n runs along that side in the opposite direction as its side j + 1, the
      two new triangles have the signed area of t and n together. */
  lemma FlipTrianglesKeepSignedArea(p: PointM, t: Triangle, k: int, n: Triangle, j: int)
    requires 1 <= k <= 3 && 0 <= j < 3
    requires t.Vertex(Opposite(k)) == p
    requires n.Vertex(SideFrom(j + 1)) == t.Vertex(SideTo(k)) && n.Vertex(SideTo(j + 1)) == t.Vertex(SideFrom(k))
    ensures var pair := FlipTriangles(p, t, k, n.Vertex(Opposite(j + 1)));
      SignedArea(pair.0) + SignedArea(pair.1) == SignedArea(t) + SignedArea(n)
  {
    var a := t.Vertex(SideFrom(k));
    var b := t.Vertex(SideTo(k));
    var f := n.Vertex(Opposite(j + 1));
    SideNumbering(k);
    SideNumbering(j + 1);
    assert SignedArea(t) == Cross(a, b, p) by {
      CrossRotate(t.v0, t.v1, t.v2);
      CrossRotate(t.v1, t.v2, t.v0);
    }
    assert SignedArea(n) == Cross(b, a, f) by {
      CrossRotate(n.v0, n.v1, n.v2);
      CrossRotate(n.v1, n.v2, n.v0);
    }
    DiagonalSwapArea(a, b, p, f);
  }

  /** A swap keeps the signed area of the pair it replaces when the neighbour runs along
      the shared side in the opposite direction, as in a consistently oriented mesh. */
  lemma PlanFlipKeepsSignedArea(num: Numerics, idx: int, p: PointM, tris: seq<Triangle>)
    requires PlanFlip(num, idx, p, tris).Ok? && PlanFlip(num, idx, p, tris).value.Swap?
    requires var t := tris[idx];
      var k := GetNumEdgeWithoutPoint(t, p);
      var nbr := GetNeighborEdgeTriangleNums(k, t, tris).value;
      && 1 <= nbr.numEdge <= 3 && 0 <= nbr.numTriangle < |tris|
      && tris[nbr.numTriangle].Vertex(SideFrom(nbr.numEdge)) == t.Vertex(SideTo(k))
      && tris[nbr.numTriangle].Vertex(SideTo(nbr.numEdge)) == t.Vertex(SideFrom(k))
    ensures var plan := PlanFlip(num, idx, p, tris).value;
      SignedArea(plan.t0) + SignedArea(plan.t1) == SignedArea(tris[idx]) + SignedArea(tris[plan.nb])
  {
    var t := tris[idx];
    var k := GetNumEdgeWithoutPoint(t, p);
    var nbr := GetNeighborEdgeTriangleNums(k, t, tris).value;
    PlanFlipDecides(num, idx, p, tris);
    FlipTrianglesKeepSignedArea(p, t, k, tris[nbr.numTriangle], nbr.numEdge - 1);
  }

  /** A single flip as a function of the index of the triangle and the list. */
  type FlipStepFn = (int, seq<Triangle>) -> Result<FlipOutcome>

  /** The flips of a step function keep the length of the list. */
  ghost predicate KeepsLength(step: FlipStepFn) {
    forall i, ts :: step(i, ts).Ok? && step(i, ts).value.Flipped? ==> |step(i, ts).value.tris| == |ts|
  }

  /** The flips of a step function bring in only triangles satisfying P. */
  ghost predicate AddsOnly(step: FlipStepFn, P: Triangle -> bool) {
    forall i, ts :: step(i, ts).Ok? && step(i, ts).value.Flipped? ==>
      forall x :: x in step(i, ts).value.tris ==> x in ts || P(x)
  }

  /** The recursion of `FlipBadEdges` for a given single flip: flip the triangle at idx
      if needed, then check the two new triangles. The source recursion has no bound;
      the model gives up with `FuelExhausted` after `fuel` nested calls. */
  function FlipRecursion(step: FlipStepFn, idx: int, tris: seq<Triangle>, fuel: nat): (r: Result<seq<Triangle>>)
    requires KeepsLength(step)
    ensures r.Ok? ==> |r.value| == |tris|
    decreases fuel, 0
  {
    if !(0 <= idx < |tris|) then Err(IndexOutOfRange)
    else if fuel == 0 then Err(FuelExhausted)
    else
      var outcome :- step(idx, tris);
      CheckNewTriangles(step, outcome, tris, fuel - 1)
  }

  /** The recursive calls of `FlipBadEdges` after a flip: the second-to-last entry of the
      flipped list, then the last entry of the list that check leaves. */
  function CheckNewTriangles(step: FlipStepFn, outcome: FlipOutcome, tris: seq<Triangle>, fuel: nat): (r: Result<seq<Triangle>>)
    requires KeepsLength(step)
    requires outcome.Flipped? ==> |outcome.tris| == |tris|
    ensures r.Ok? ==> |r.value| == |tris|
    decreases fuel, 1
  {
    match outcome
    case Unchanged => Ok(tris)
    case Flipped(m) =>
      var m1 :- FlipRecursion(step, |m| - 2, m, fuel);
      FlipRecursion(step, |m1| - 1, m1, fuel)
  }

  /** The recursion only ever brings in triangles the step brings in. */
  lemma {:induction false} FlipRecursionAddsOnly(step: FlipStepFn, P: Triangle -> bool, idx: int, tris: seq<Triangle>, fuel: nat)
    requires KeepsLength(step) && AddsOnly(step, P)
    requires FlipRecursion(step, idx, tris, fuel).Ok?
    ensures forall x :: x in FlipRecursion(step, idx, tris, fuel).value ==> x in tris || P(x)
    decreases fuel
  {
    var outcome := step(idx, tris).value;
    if outcome.Flipped? {
      var m := outcome.tris;
      FlipRecursionAddsOnly(step, P, |m| - 2, m, fuel - 1);
      var m1 := FlipRecursion(step, |m| - 2, m, fuel - 1).value;
      FlipRecursionAddsOnly(step, P, |m1| - 1, m1, fuel - 1);
    }
  }

  /** Every flip of a step function leaves some triangle satisfying P in the list. */
  ghost predicate KeepsSome(step: FlipStepFn, P: Triangle -> bool) {
    forall i, ts :: step(i, ts).Ok? && step(i, ts).value.Flipped? ==>
      exists x :: x in step(i, ts).value.tris && P(x)
  }

  /** A list holding a triangle that satisfies P still holds one after the recursion. */
  lemma {:induction false} FlipRecursionKeepsSome(step: FlipStepFn, P: Triangle -> bool, idx: int, tris: seq<Triangle>, fuel: nat)
    requires KeepsLength(step) && KeepsSome(step, P)
    requires FlipRecursion(step, idx, tris, fuel).Ok?
    requires exists x :: x in tris && P(x)
    ensures exists x :: x in FlipRecursion(step, idx, tris, fuel).value && P(x)
    decreases fuel
  {
    var outcome := step(idx, tris).value;
    if outcome.Flipped? {
      var m := outcome.tris;
      FlipRecursionKeepsSome(step, P, |m| - 2, m, fuel - 1);
      var m1 := FlipRecursion(step, |m| - 2, m, fuel - 1).value;
      FlipRecursionKeepsSome(step, P, |m1| - 1, m1, fuel - 1);
    }
  }

  /** More fuel does not change a result that was reached: the bound only cuts off
      recursions the source would continue. */
  lemma {:induction false} FlipRecursionFuelMonotone(step: FlipStepFn, idx: int, tris: seq<Triangle>, fuel: nat, more: nat)
    requires KeepsLength(step)
    requires fuel <= more
    requires FlipRecursion(step, idx, tris, fuel).Ok?
    ensures FlipRecursion(step, idx, tris, more) == FlipRecursion(step, idx, tris, fuel)
    decreases fuel
  {
    var outcome := step(idx, tris).value;
    if outcome.Flipped? {
      var m := outcome.tris;
      FlipRecursionFuelMonotone(step, |m| - 2, m, fuel - 1, more - 1);
      var m1 := FlipRecursion(step, |m| - 2, m, fuel - 1).value;
      FlipRecursionFuelMonotone(step, |m1| - 1, m1, fuel - 1, more - 1);
    }
  }

  /** The single flip of `FlipBadEdges` for the new point p. */
  function FlipStepAt(num: Numerics, p: PointM): FlipStepFn {
    (i: int, ts: seq<Triangle>) => FlipStep(num, i, p, ts)
  }

  /** The flips for p keep the length of the list and bring in only triangles having p
      as a vertex. */
  lemma FlipStepAtFacts(num: Numerics, p: PointM)
    ensures KeepsLength(FlipStepAt(num, p))
    ensures AddsOnly(FlipStepAt(num, p), (x: Triangle) => x.HasVertex(p))
    ensures KeepsSome(FlipStepAt(num, p), (x: Triangle) => x.HasVertex(p))
  {
    forall i, ts | FlipStep(num, i, p, ts).Ok? && FlipStep(num, i, p, ts).value.Flipped?
      ensures exists x :: x in FlipStep(num, i, p, ts).value.tris && x.HasVertex(p)
    {
      FlipStepReplaces(num, i, p, ts);
      var m := FlipStep(num, i, p, ts).value.tris;
      assert m[|ts| - 1] in m;
    }
    forall i, ts | FlipStep(num, i, p, ts).Ok? && FlipStep(num, i, p, ts).value.Flipped?
      ensures forall x :: x in FlipStep(num, i, p, ts).value.tris ==> x in ts || x.HasVertex(p)
    {
      FlipStepNewTrianglesHavePoint(num, i, p, ts);
    }
  }

  /** `FlipBadEdges`. */
  function FlipBadEdges(num: Numerics, idx: int, p: PointM, tris: seq<Triangle>, fuel: nat): (r: Result<seq<Triangle>>)
    ensures r.Ok? ==> |r.value| == |tris|
  {
    FlipStepAtFacts(num, p);
    FlipRecursion(FlipStepAt(num, p), idx, tris, fuel)
  }

  /** Every triangle after the flips was there before or has p as a vertex. */
  lemma FlipBadEdgesNewTrianglesHavePoint(num: Numerics, idx: int, p: PointM, tris: seq<Triangle>, fuel: nat)
    requires FlipBadEdges(num, idx, p, tris, fuel).Ok?
    ensures forall x :: x in FlipBadEdges(num, idx, p, tris, fuel).value ==> x in tris || x.HasVertex(p)
  {
    FlipStepAtFacts(num, p);
    FlipRecursionAddsOnly(FlipStepAt(num, p), (x: Triangle) => x.HasVertex(p), idx, tris, fuel);
  }

  /** A mesh in which p is a vertex keeps p as a vertex through the flips. */
  lemma FlipBadEdgesKeepsPoint(num: Numerics, idx: int, p: PointM, tris: seq<Triangle>, fuel: nat)
    requires FlipBadEdges(num, idx, p, tris, fuel).Ok?
    requires exists x :: x in tris && x.HasVertex(p)
    ensures exists x :: x in FlipBadEdges(num, idx, p, tris, fuel).value && x.HasVertex(p)
  {
    FlipStepAtFacts(num, p);
    FlipRecursionKeepsSome(FlipStepAt(num, p), (x: Triangle) => x.HasVertex(p), idx, tris, fuel);
  }

  /** Every triangle after one flip was there before or has p as a vertex. */
  lemma FlipStepNewTrianglesHavePoint(num: Numerics, idx: int, p: PointM, tris: seq<Triangle>)
    requires FlipStep(num, idx, p, tris).Ok? && FlipStep(num, idx, p, tris).value.Flipped?
    ensures forall x :: x in FlipStep(num, idx, p, tris).value.tris ==> x in tris || x.HasVertex(p)
  {
    var plan := PlanFlip(num, idx, p, tris).value;
    assert FlipStep(num, idx, p, tris).value.tris == ReplaceAsWritten(tris, idx, plan.nb, plan.t0, plan.t1);
  }

  /** The flip with the intended removal as a step function. */
  function FlipStepIntendedAt(num: Numerics, p: PointM): FlipStepFn {
    (i: int, ts: seq<Triangle>) => FlipStepIntended(num, i, p, ts)
  }

  /** The intended flips keep the length of the list. */
  lemma FlipStepIntendedAtKeepsLength(num: Numerics, p: PointM)
    ensures KeepsLength(FlipStepIntendedAt(num, p))
  {
  }

  /** `FlipBadEdges` with the intended removal: the corrected recursion. */
  function FlipBadEdgesIntended(num: Numerics, idx: int, p: PointM, tris: seq<Triangle>, fuel: nat): (r: Result<seq<Triangle>>)
    ensures r.Ok? ==> |r.value| == |tris|
  {
    FlipStepIntendedAtKeepsLength(num, p);
    FlipRecursion(FlipStepIntendedAt(num, p), idx, tris, fuel)
  }

  /** Two step functions agree on every list whose entries after the index satisfy P. */
  ghost predicate AgreeOnTail(s1: FlipStepFn, s2: FlipStepFn, P: Triangle -> bool) {
    forall i, ts :: TailSatisfies(ts, i, P) ==> s1(i, ts) == s2(i, ts)
  }

  /** Every flip of a step function ends the list with a triangle satisfying P. */
  ghost predicate EndsWith(step: FlipStepFn, P: Triangle -> bool) {
    forall i, ts :: step(i, ts).Ok? && step(i, ts).value.Flipped? ==>
      |step(i, ts).value.tris| > 0 && P(step(i, ts).value.tris[|step(i, ts).value.tris| - 1])
  }

  /** Every flip of a step function keeps the entries after any position j satisfying P
      when they did before. */
  ghost predicate KeepsTail(step: FlipStepFn, P: Triangle -> bool) {
    forall i, j, ts :: step(i, ts).Ok? && step(i, ts).value.Flipped? && TailSatisfies(ts, j, P) ==>
      TailSatisfies(step(i, ts).value.tris, j, P)
  }

  /** Two step functions that agree whenever the entries after the index satisfy P, the
      first of which always ends with such an entry, give the same recursion from an
      index after which every entry satisfies P: the recursive calls start at the
      second-to-last and at the last entry. */
  lemma {:induction false} FlipRecursionAgree(s1: FlipStepFn, s2: FlipStepFn, P: Triangle -> bool, idx: int, tris: seq<Triangle>, fuel: nat)
    requires KeepsLength(s1) && KeepsLength(s2) && AgreeOnTail(s1, s2, P) && EndsWith(s1, P)
    requires TailSatisfies(tris, idx, P)
    ensures FlipRecursion(s1, idx, tris, fuel) == FlipRecursion(s2, idx, tris, fuel)
    decreases fuel
  {
    if 0 <= idx < |tris| && fuel > 0 {
      assert s1(idx, tris) == s2(idx, tris);
      var outcome := s1(idx, tris);
      if outcome.Ok? && outcome.value.Flipped? {
        var m := outcome.value.tris;
        assert TailSatisfies(m, |m| - 2, P);
        FlipRecursionAgree(s1, s2, P, |m| - 2, m, fuel - 1);
        var m1 := FlipRecursion(s1, |m| - 2, m, fuel - 1);
        if m1.Ok? {
          FlipRecursionAgree(s1, s2, P, |m1.value| - 1, m1.value, fuel - 1);
        }
      }
    }
  }

  /** Entries after position j that satisfy P still do after the recursion. */
  lemma {:induction false} FlipRecursionKeepsTail(step: FlipStepFn, P: Triangle -> bool, idx: int, tris: seq<Triangle>, fuel: nat, j: int)
    requires KeepsLength(step) && KeepsTail(step, P)
    requires FlipRecursion(step, idx, tris, fuel).Ok?
    requires TailSatisfies(tris, j, P)
    ensures TailSatisfies(FlipRecursion(step, idx, tris, fuel).value, j, P)
    decreases fuel
  {
    var outcome := step(idx, tris).value;
    if outcome.Flipped? {
      var m := outcome.tris;
      FlipRecursionKeepsTail(step, P, |m| - 2, m, fuel - 1, j);
      var m1 := FlipRecursion(step, |m| - 2, m, fuel - 1).value;
      FlipRecursionKeepsTail(step, P, |m1| - 1, m1, fuel - 1, j);
    }
  }

  /** Removing an entry keeps every entry after position j satisfying P. */
  lemma TailRemoveAt(s: seq<Triangle>, i: int, j: int, P: Triangle -> bool)
    requires 0 <= i < |s| && TailSatisfies(s, j, P)
    ensures TailSatisfies(RemoveAt(s, i), j, P)
  {
    var r := RemoveAt(s, i);
    forall l | j < l < |r| && l >= 0
      ensures P(r[l])
    {
      if l >= i {
        assert r[l] == s[l + 1];
      }
    }
  }

  /** The flips as written end with a triangle having p and keep a tail of triangles
      having p. */
  lemma FlipStepAtTail(num: Numerics, p: PointM)
    ensures EndsWith(FlipStepAt(num, p), (x: Triangle) => x.HasVertex(p))
    ensures KeepsTail(FlipStepAt(num, p), (x: Triangle) => x.HasVertex(p))
  {
    var P := (x: Triangle) => x.HasVertex(p);
    forall i, ts | FlipStep(num, i, p, ts).Ok? && FlipStep(num, i, p, ts).value.Flipped?
      ensures P(FlipStep(num, i, p, ts).value.tris[|ts| - 1])
    {
      FlipStepReplaces(num, i, p, ts);
    }
    forall i, j, ts | FlipStep(num, i, p, ts).Ok? && FlipStep(num, i, p, ts).value.Flipped? && TailSatisfies(ts, j, P)
      ensures TailSatisfies(FlipStep(num, i, p, ts).value.tris, j, P)
    {
      var plan := PlanFlip(num, i, p, ts).value;
      var ext := ts + [plan.t0, plan.t1];
      assert TailSatisfies(ext, j, P);
      TailRemoveAt(ext, i, j, P);
      TailRemoveAt(RemoveAt(ext, i), plan.nb, j, P);
    }
  }

  /** The written and the intended flips agree on lists whose entries after the index
      all have p as a vertex. */
  lemma FlipStepsAgreeOnTail(num: Numerics, p: PointM)
    ensures AgreeOnTail(FlipStepAt(num, p), FlipStepIntendedAt(num, p), (x: Triangle) => x.HasVertex(p))
  {
    forall i, ts | TailSatisfies(ts, i, (x: Triangle) => x.HasVertex(p))
      ensures FlipStep(num, i, p, ts) == FlipStepIntended(num, i, p, ts)
    {
      FlipStepAsIntendedWhenTail(num, i, p, ts);
    }
  }

  /** `FlipBadEdges` from a triangle after which every entry has p as a vertex (the last
      entry, as in `Division`) never meets the stale removal: it runs exactly as the
      recursion with the intended removal. */
  lemma FlipBadEdgesAsIntended(num: Numerics, idx: int, p: PointM, tris: seq<Triangle>, fuel: nat)
    requires forall l :: 0 <= l < |tris| && idx < l ==> tris[l].HasVertex(p)
    ensures FlipBadEdges(num, idx, p, tris, fuel) == FlipBadEdgesIntended(num, idx, p, tris, fuel)
  {
    FlipStepAtFacts(num, p);
    FlipStepAtTail(num, p);
    FlipStepIntendedAtKeepsLength(num, p);
    FlipStepsAgreeOnTail(num, p);
    var P := (x: Triangle) => x.HasVertex(p);
    assert TailSatisfies(tris, idx, P);
    FlipRecursionAgree(FlipStepAt(num, p), FlipStepIntendedAt(num, p), P, idx, tris, fuel);
  }
}
