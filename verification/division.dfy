/** DivisionArea.cs: the initial subdivision of the area. The border is cut into
    points about one unit apart, then ears are clipped: each round picks the three
    consecutive points with the smallest interior angle, adds their triangle, flips
    its bad edges, and drops the middle point once both its neighbours are in the mesh. */
module Division {
  import opened Results
  import opened Points
  import opened Structs
  import opened Geometry
  import opened Topology
  import opened RealFacts

  // ---------------------------------------------------------------------------
  // Border subdivision
  // ---------------------------------------------------------------------------

  /** The step between consecutive points on the side from a to b cut into quantity
      parts. */
  function Delta(a: PointM, b: PointM, quantity: real): PointM
    requires quantity != 0.0
  {
    PointM((b.x - a.x) / quantity, (b.y - a.y) / quantity)
  }

  /** The inner loop of `SplitEdgesArea` for the border side from a to b: while j is
      below the quantity of points, emit the current point and move it on by
      (b − a)/quantity. */
  function SidePoints(a: PointM, b: PointM, current: PointM, j: nat, quantity: real): (r: seq<PointM>)
    decreases quantity.Floor + 1 - j
  {
    if (j as real) < quantity then [current] + SidePoints(a, b, Translate(current, Delta(a, b, quantity)), j + 1, quantity)
    else []
  }

  /** The number of points the loop emits from j on: the naturals k with j <= k < quantity. */
  lemma {:induction false} SidePointsCount(a: PointM, b: PointM, current: PointM, j: nat, quantity: real)
    ensures var r := SidePoints(a, b, current, j, quantity);
      && (quantity <= j as real ==> |r| == 0)
      && (j as real < quantity ==> (j + |r|) as real >= quantity && (j + |r| - 1) as real < quantity)
    decreases quantity.Floor + 1 - j
  {
    if (j as real) < quantity {
      SidePointsCount(a, b, Translate(current, Delta(a, b, quantity)), j + 1, quantity);
    }
  }

  /** Entry k of r lies k steps of delta on from start. */
  predicate EvenSteps(r: seq<PointM>, start: PointM, delta: PointM)
  {
    forall k :: 0 <= k < |r| ==> r[k] == PointM(start.x + (k as real) * delta.x, start.y + (k as real) * delta.y)
  }

  /** One step of delta then k more is k + 1 steps. */
  lemma OneMoreStep(current: PointM, delta: PointM, k: nat)
    ensures var next := Translate(current, delta);
      PointM(next.x + (k as real) * delta.x, next.y + (k as real) * delta.y)
        == PointM(current.x + ((k + 1) as real) * delta.x, current.y + ((k + 1) as real) * delta.y)
  {
    assert ((k + 1) as real) * delta.x == (k as real) * delta.x + delta.x;
    assert ((k + 1) as real) * delta.y == (k as real) * delta.y + delta.y;
  }

  /** Prepending the point one step before an even run gives an even run from it. */
  lemma EvenStepsCons(current: PointM, delta: PointM, rest: seq<PointM>)
    requires EvenSteps(rest, Translate(current, delta), delta)
    ensures EvenSteps([current] + rest, current, delta)
  {
    var r := [current] + rest;
    forall k | 0 <= k < |r|
      ensures r[k] == PointM(current.x + (k as real) * delta.x, current.y + (k as real) * delta.y)
    {
      if k > 0 {
        assert r[k] == rest[k - 1];
        OneMoreStep(current, delta, k - 1);
      }
    }
  }

  /** The k-th point the loop emits is k steps on from where it starts. */
  lemma {:induction false} SidePointsSteps(a: PointM, b: PointM, current: PointM, j: nat, quantity: real)
    requires 0.0 < quantity
    ensures EvenSteps(SidePoints(a, b, current, j, quantity), current, Delta(a, b, quantity))
    decreases quantity.Floor + 1 - j
  {
    if (j as real) < quantity {
      var delta := Delta(a, b, quantity);
      var next := Translate(current, delta);
      SidePointsSteps(a, b, next, j + 1, quantity);
      EvenStepsCons(current, delta, SidePoints(a, b, next, j + 1, quantity));
    }
  }

  /** The points `SplitEdgesArea` emits for the border side from a to b of length d. */
  function SplitSide(a: PointM, b: PointM, d: real): seq<PointM>
  {
    SidePoints(a, b, a, 0, d)
  }

  /** k steps of (b − a)/d from a reach the point k/d of the way from a to b. */
  lemma StepsAlongSide(a: PointM, b: PointM, d: real, k: real)
    requires d != 0.0
    ensures PointM(a.x + k * Delta(a, b, d).x, a.y + k * Delta(a, b, d).y) == Lerp(a, b, k / d)
  {
    var delta := Delta(a, b, d);
    assert delta.x == (b.x - a.x) / d && delta.y == (b.y - a.y) / d;
    MulDivSwap(k, b.x - a.x, d);
    MulDivSwap(k, b.y - a.y, d);
    assert k * delta.x == (k / d) * (b.x - a.x);
    assert k * delta.y == (k / d) * (b.y - a.y);
  }

  /** The number of points of a side: ⌈d⌉ for d > 0, none otherwise. */
  lemma SplitSideCount(a: PointM, b: PointM, d: real)
    ensures d <= 0.0 ==> SplitSide(a, b, d) == []
    ensures d > 0.0 ==> |SplitSide(a, b, d)| as real >= d && (|SplitSide(a, b, d)| - 1) as real < d
  {
    SidePointsCount(a, b, a, 0, d);
  }

  /** The position of the points of a side: the k-th is k/d of the way along. */
  lemma SplitSidePositions(a: PointM, b: PointM, d: real)
    requires d > 0.0
    ensures var r := SplitSide(a, b, d);
      forall k :: 0 <= k < |r| ==> r[k] == Lerp(a, b, (k as real) / d) && 0.0 <= (k as real) / d < 1.0
  {
    SplitSideCount(a, b, d);
    SidePointsSteps(a, b, a, 0, d);
    var r := SplitSide(a, b, d);
    var delta := Delta(a, b, d);
    forall k | 0 <= k < |r|
      ensures r[k] == Lerp(a, b, (k as real) / d) && 0.0 <= (k as real) / d < 1.0
    {
      assert r[k] == PointM(a.x + (k as real) * delta.x, a.y + (k as real) * delta.y);
      StepsAlongSide(a, b, d, k as real);
      QuotientBelowOne(k as real, d);
    }
  }

  /** A side of positive length starts at its start corner. */
  lemma SplitSideStart(a: PointM, b: PointM, d: real)
    requires d > 0.0
    ensures |SplitSide(a, b, d)| > 0 && SplitSide(a, b, d)[0] == a
  {
  }

  /** A side of length d > 0 yields ⌈d⌉ points: the start corner first, each next one
      1/d of the side further on, all of them before the end corner. A side of length
      zero or less yields none. */
  lemma SplitSideShape(a: PointM, b: PointM, d: real)
    ensures d <= 0.0 ==> SplitSide(a, b, d) == []
    ensures d > 0.0 ==>
      var r := SplitSide(a, b, d);
      && |r| as real >= d && (|r| - 1) as real < d
      && r[0] == a
      && forall k :: 0 <= k < |r| ==> r[k] == Lerp(a, b, (k as real) / d) && 0.0 <= (k as real) / d < 1.0
  {
    SplitSideCount(a, b, d);
    if d > 0.0 {
      SplitSidePositions(a, b, d);
      assert SplitSide(a, b, d)[0] == a;
    }
  }

  /** The outer loop of `SplitEdgesArea` from border side i on; the subdivision length
      is 1, so the quantity of points is the side's length. */
  function SplitFrom(num: Numerics, points: seq<PointM>, i: int): seq<PointM>
    requires 0 <= i <= |points|
    decreases |points| - i
  {
    if i == |points| then []
    else
      var index := if i != |points| - 1 then i + 1 else 0;
      var quantityPoints := num.dist(points[i], points[index]) / 1.0;
      SplitSide(points[i], points[index], quantityPoints) + SplitFrom(num, points, i + 1)
  }

  /** `SplitEdgesArea`: the border points of the area, side after side. */
  function SplitEdgesArea(num: Numerics, points: seq<PointM>): seq<PointM>
  {
    SplitFrom(num, points, 0)
  }

  /** The length of border side i as `SplitEdgesArea` measures it. */
  function SideLength(num: Numerics, points: seq<PointM>, i: int): real
    requires 0 <= i < |points|
  {
    num.dist(points[i], BorderEnd(points, i))
  }

  /** x lies on border side k or a later one, in front of the side's end corner. */
  ghost predicate OnBorderFrom(points: seq<PointM>, i: int, x: PointM)
  {
    exists k, s :: 0 <= i <= k < |points| && 0.0 <= s < 1.0 && x == Lerp(points[k], BorderEnd(points, k), s)
  }

  /** The points of side i lie on it. */
  lemma SplitSideOnBorder(num: Numerics, points: seq<PointM>, i: int)
    requires 0 <= i < |points|
    ensures forall x :: x in SplitSide(points[i], BorderEnd(points, i), SideLength(num, points, i)) ==> OnBorderFrom(points, i, x)
  {
    var d := SideLength(num, points, i);
    var side := SplitSide(points[i], BorderEnd(points, i), d);
    SplitSideCount(points[i], BorderEnd(points, i), d);
    if d > 0.0 {
      SplitSidePositions(points[i], BorderEnd(points, i), d);
      forall x | x in side
        ensures OnBorderFrom(points, i, x)
      {
        var j :| 0 <= j < |side| && side[j] == x;
        assert x == Lerp(points[i], BorderEnd(points, i), (j as real) / d);
      }
    }
  }

  /** A point on a side from i + 1 on is on a side from i on. */
  lemma OnBorderFromEarlier(points: seq<PointM>, i: int, x: PointM)
    requires 0 <= i && OnBorderFrom(points, i + 1, x)
    ensures OnBorderFrom(points, i, x)
  {
    var k, s :| 0 <= i + 1 <= k < |points| && 0.0 <= s < 1.0 && x == Lerp(points[k], BorderEnd(points, k), s);
  }

  /** Every point from side i on lies on a border side, in front of its end corner. */
  lemma {:induction false} SplitFromOnBorder(num: Numerics, points: seq<PointM>, i: int)
    requires 0 <= i <= |points|
    ensures forall x :: x in SplitFrom(num, points, i) ==> OnBorderFrom(points, i, x)
    decreases |points| - i
  {
    if i < |points| {
      SplitFromOnBorder(num, points, i + 1);
      var side := SplitSide(points[i], BorderEnd(points, i), SideLength(num, points, i));
      var rest := SplitFrom(num, points, i + 1);
      assert SplitFrom(num, points, i) == side + rest;
      SplitSideOnBorder(num, points, i);
      forall x | x in rest
        ensures OnBorderFrom(points, i, x)
      {
        OnBorderFromEarlier(points, i, x);
      }
    }
  }

  /** Every corner from i on that starts a side of positive length is among the points. */
  lemma {:induction false} SplitFromCorners(num: Numerics, points: seq<PointM>, i: int)
    requires 0 <= i <= |points|
    ensures forall k :: i <= k < |points| && SideLength(num, points, k) > 0.0 ==> points[k] in SplitFrom(num, points, i)
    decreases |points| - i
  {
    if i < |points| {
      SplitFromCorners(num, points, i + 1);
      var d := SideLength(num, points, i);
      var side := SplitSide(points[i], BorderEnd(points, i), d);
      var rest := SplitFrom(num, points, i + 1);
      assert SplitFrom(num, points, i) == side + rest;
      if d > 0.0 {
        SplitSideStart(points[i], BorderEnd(points, i), d);
        assert points[i] in side;
      }
    }
  }

  /** The points of `SplitEdgesArea` lie on the border, and the start corner of every
      side of positive length is one of them. */
  lemma SplitEdgesAreaOnBorder(num: Numerics, points: seq<PointM>)
    ensures var r := SplitEdgesArea(num, points);
      && (forall x :: x in r ==> OnBorderFrom(points, 0, x))
      && (forall k :: 0 <= k < |points| && SideLength(num, points, k) > 0.0 ==> points[k] in r)
  {
    SplitFromOnBorder(num, points, 0);
    SplitFromCorners(num, points, 0);
  }

  // ---------------------------------------------------------------------------
  // Ear selection
  // ---------------------------------------------------------------------------

  /** `Math.Abs` on int. */
  function IntAbs(a: int): nat
  {
    if a < 0 then -a else a
  }

  /** The indices `jIndexes` (and `iIndexes`) of `Division` for position j among n points. */
  function EarTriple(j: int, n: int): (int, int, int)
  {
    if j + 1 >= n then (j, IntAbs(n - j - 1), IntAbs(n - j - 2))
    else if j + 2 >= n then (j, j + 1, IntAbs(n - j - 2))
    else (j, j + 1, j + 2)
  }

  /** For two or more points the triple is j and the next two positions, cyclically. */
  lemma EarTripleCyclic(j: int, n: int)
    requires 2 <= n && 0 <= j < n
    ensures EarTriple(j, n) == (j, (j + 1) % n, (j + 2) % n)
  {
  }

  /** All three indices address the list. */
  predicate ValidTriple(tr: (int, int, int), n: int)
  {
    0 <= tr.0 < n && 0 <= tr.1 < n && 0 <= tr.2 < n
  }

  /** The determinant `Division` computes for the points a, b, c, as written. */
  function TripleDeterminant(a: PointM, b: PointM, c: PointM): real
  {
    a.x * b.y + c.x * a.y + c.y * b.x - c.x * b.y - a.x * c.y - b.x * a.y
  }

  /** The determinant is twice the signed area: it is at most zero exactly when the
      three points turn clockwise or lie on a line. */
  lemma TripleDeterminantIsCross(a: PointM, b: PointM, c: PointM)
    ensures TripleDeterminant(a, b, c) == Cross(a, b, c)
  {
  }

  /** The angle at the middle point of the triple, taken as its reflex complement when
      the triple does not turn counter-clockwise. */
  function CorrectedAngle(num: Numerics, sp: seq<PointM>, tr: (int, int, int)): real
    requires ValidTriple(tr, |sp|)
  {
    var vectors := GetVectors(tr.0, tr.1, tr.2, sp);
    var currentAngle := num.angle(vectors.0, vectors.1);
    if TripleDeterminant(sp[tr.0], sp[tr.1], sp[tr.2]) <= 0.0 then 360.0 - currentAngle else currentAngle
  }

  /** The corrected angle of the ear at position j. */
  function EarAngle(num: Numerics, sp: seq<PointM>, j: int): real
    requires 2 <= |sp| && 0 <= j < |sp|
  {
    EarTripleCyclic(j, |sp|);
    CorrectedAngle(num, sp, EarTriple(j, |sp|))
  }

  /** The corrected angle is the angle at the middle point between the directions to
      its neighbours, or 360 minus it for a clockwise or degenerate turn. */
  lemma EarAngleReflex(num: Numerics, sp: seq<PointM>, j: int)
    requires 2 <= |sp| && 0 <= j < |sp|
    ensures var n := |sp|;
      var a, b, c := sp[j], sp[(j + 1) % n], sp[(j + 2) % n];
      var angle := num.angle(Sub(a, b), Sub(c, b));
      EarAngle(num, sp, j) == if Cross(a, b, c) <= 0.0 then 360.0 - angle else angle
  {
    var n := |sp|;
    EarTripleCyclic(j, n);
    TripleDeterminantIsCross(sp[j], sp[(j + 1) % n], sp[(j + 2) % n]);
  }

  /** The inner loop of `Division` from position j on, with the running minimum angle
      and the running index. */
  function ScanEars(num: Numerics, sp: seq<PointM>, j: int, minAngle: real, found: int): (r: Result<int>)
    requires 0 <= j <= |sp|
    ensures r.Ok? <==> j == |sp| || 2 <= |sp|
    decreases |sp| - j
  {
    if j == |sp| then Ok(found)
    else
      var tr := EarTriple(j, |sp|);
      if !ValidTriple(tr, |sp|) then Err(IndexOutOfRange)
      else
        var currentAngle := CorrectedAngle(num, sp, tr);
        if currentAngle < minAngle then ScanEars(num, sp, j + 1, currentAngle, tr.0)
        else ScanEars(num, sp, j + 1, minAngle, found)
  }

  /** The corrected angles at every position, in order. */
  function EarAngles(num: Numerics, sp: seq<PointM>): (r: seq<real>)
    requires 2 <= |sp|
    ensures |r| == |sp| && forall k :: 0 <= k < |sp| ==> r[k] == EarAngle(num, sp, k)
  {
    seq(|sp|, k requires 0 <= k < |sp| => EarAngle(num, sp, k))
  }

  /** The inner loop's selection over a list of angles: the running index moves to j
      whenever the angle at j is below the running minimum. */
  function ScanMin(angles: seq<real>, j: int, minAngle: real, found: int): int
    requires 0 <= j <= |angles|
    decreases |angles| - j
  {
    if j == |angles| then found
    else if angles[j] < minAngle then ScanMin(angles, j + 1, angles[j], j)
    else ScanMin(angles, j + 1, minAngle, found)
  }

  /** With two or more points the inner loop never fails and selects as `ScanMin` does
      over the corrected angles. */
  lemma {:induction false} ScanEarsIsScanMin(num: Numerics, sp: seq<PointM>, j: int, minAngle: real, found: int)
    requires 2 <= |sp| && 0 <= j <= |sp|
    ensures ScanEars(num, sp, j, minAngle, found) == Ok(ScanMin(EarAngles(num, sp), j, minAngle, found))
    decreases |sp| - j
  {
    if j < |sp| {
      EarTripleCyclic(j, |sp|);
      var a := EarAngle(num, sp, j);
      assert EarAngles(num, sp)[j] == a;
      if a < minAngle {
        ScanEarsIsScanMin(num, sp, j + 1, a, j);
      } else {
        ScanEarsIsScanMin(num, sp, j + 1, minAngle, found);
      }
    }
  }

  /** found is the selection among the first n angles: the first position of the least
      angle when some angle is below 360, and otherwise the index kept from the previous
      round. */
  predicate IsFirstMin(angles: seq<real>, n: int, found: int, previous: int)
    requires 0 <= n <= |angles|
  {
    if forall k :: 0 <= k < n ==> angles[k] >= 360.0 then found == previous
    else
      && 0 <= found < n
      && angles[found] < 360.0
      && (forall k :: 0 <= k < n ==> angles[found] <= angles[k])
      && (forall k :: 0 <= k < found ==> angles[found] < angles[k])
  }

  /** The running minimum is 360 until an angle beats it, then the angle at found. */
  predicate RunningMin(angles: seq<real>, n: int, minAngle: real, found: int)
    requires 0 <= n <= |angles|
  {
    if forall k :: 0 <= k < n ==> angles[k] >= 360.0 then minAngle == 360.0
    else 0 <= found < n && minAngle == angles[found]
  }

  /** One iteration of the inner loop keeps the selection. */
  lemma ScanMinStep(angles: seq<real>, j: int, minAngle: real, found: int, previous: int)
    requires 0 <= j < |angles|
    requires IsFirstMin(angles, j, found, previous) && RunningMin(angles, j, minAngle, found)
    ensures var a := angles[j];
      if a < minAngle then IsFirstMin(angles, j + 1, j, previous) && RunningMin(angles, j + 1, a, j)
      else IsFirstMin(angles, j + 1, found, previous) && RunningMin(angles, j + 1, minAngle, found)
  {
    var a := angles[j];
    if forall k :: 0 <= k < j ==> angles[k] >= 360.0 {
      if a < minAngle {
        assert !(forall k :: 0 <= k < j + 1 ==> angles[k] >= 360.0);
      } else {
        assert forall k :: 0 <= k < j + 1 ==> angles[k] >= 360.0;
      }
    } else {
      assert !(forall k :: 0 <= k < j + 1 ==> angles[k] >= 360.0);
    }
  }

  /** The scan selects the first position of the least angle. */
  lemma {:induction false} ScanMinSelects(angles: seq<real>, j: int, minAngle: real, found: int, previous: int)
    requires 0 <= j <= |angles|
    requires IsFirstMin(angles, j, found, previous) && RunningMin(angles, j, minAngle, found)
    ensures IsFirstMin(angles, |angles|, ScanMin(angles, j, minAngle, found), previous)
    decreases |angles| - j
  {
    if j < |angles| {
      ScanMinStep(angles, j, minAngle, found, previous);
      if angles[j] < minAngle {
        ScanMinSelects(angles, j + 1, angles[j], j, previous);
      } else {
        ScanMinSelects(angles, j + 1, minAngle, found, previous);
      }
    }
  }

  /** The selection of one round: the inner loop with `minAngle` reset to 360. It fails
      only when a single point is left; otherwise it is the first position of least
      corrected angle, or the previous index when no angle is below 360. */
  function SelectEar(num: Numerics, sp: seq<PointM>, previous: int): (r: Result<int>)
    ensures r.Ok? <==> |sp| == 0 || 2 <= |sp|
    ensures 2 <= |sp| ==> IsFirstMin(EarAngles(num, sp), |sp|, r.value, previous)
  {
    if 2 <= |sp| then
      ScanEarsIsScanMin(num, sp, 0, 360.0, previous);
      ScanMinSelects(EarAngles(num, sp), 0, 360.0, previous, previous);
      ScanEars(num, sp, 0, 360.0, previous)
    else ScanEars(num, sp, 0, 360.0, previous)
  }

  // ---------------------------------------------------------------------------
  // Ear clipping
  // ---------------------------------------------------------------------------

  /** The state `Division` carries between rounds. The found index is not reset. */
  datatype DivisionState = DivisionState(splitPoints: seq<PointM>, triangles: seq<Triangle>, foundIndex: int)

  /** The ear at position f: the triangle of f and the next two points. */
  function Ear(sp: seq<PointM>, f: int): Triangle
    requires 2 <= |sp| && 0 <= f < |sp|
  {
    var n := |sp|;
    NewTriangle(sp[f], sp[(f + 1) % n], sp[(f + 2) % n])
  }

  /** The neighbours of the middle of the ear at f are the ear's two other corners. */
  lemma MiddleNeighbours(f: int, n: int)
    requires 2 <= n && 0 <= f < n
    ensures ((f + 1) % n + n - 1) % n == f
    ensures ((f + 1) % n + 1) % n == (f + 2) % n
  {
    var m := NextIndex(f, n);
    EarTripleCyclic(f, n);
    assert PrevIndex(m, n) == f;
    assert NextIndex(m, n) == EarTriple(f, n).2;
  }

  /** p is a vertex of some triangle of the mesh. */
  predicate InMesh(tris: seq<Triangle>, p: PointM)
  {
    exists k :: 0 <= k < |tris| && tris[k].HasVertex(p)
  }

  /** The end of a round: the ear's middle point `middle` is removed from the split
      points unless `PointIsRequired` says it is still needed. */
  function DropTip(sp: seq<PointM>, middle: int, tris: seq<Triangle>): (r: Result<seq<PointM>>)
  {
    var required :- PointIsRequired(middle, tris, sp);
    if required then Ok(sp) else if 0 <= middle < |sp| then Ok(RemoveAt(sp, middle)) else Err(IndexOutOfRange)
  }

  /** The middle of the ear at f is dropped exactly when both the ear's other corners
      are vertices of the mesh; otherwise the points stay as they were. */
  lemma DropTipSpec(sp: seq<PointM>, f: int, tris: seq<Triangle>)
    requires 2 <= |sp| && 0 <= f < |sp| && |tris| != 0
    ensures var n := |sp|;
      var bothInMesh := InMesh(tris, sp[f]) && InMesh(tris, sp[(f + 2) % n]);
      && (bothInMesh ==> DropTip(sp, (f + 1) % n, tris) == Ok(RemoveAt(sp, (f + 1) % n)))
      && (!bothInMesh ==> DropTip(sp, (f + 1) % n, tris) == Ok(sp))
  {
    MiddleNeighbours(f, |sp|);
  }

  /** The rest of a round once the ear at f is chosen: add its triangle, flip its bad
      edges from the vertex of its largest angle, and drop the ear's middle point unless
      `PointIsRequired` says it is still needed. */
  function PlaceEar(num: Numerics, st: DivisionState, f: int, fuel: nat): (r: Result<DivisionState>)
    ensures r.Ok? ==> |r.value.triangles| == |st.triangles| + 1
  {
    var sp := st.splitPoints;
    var tr := EarTriple(f, |sp|);
    if !ValidTriple(tr, |sp|) then Err(IndexOutOfRange)
    else
      var added := st.triangles + [NewTriangle(sp[tr.0], sp[tr.1], sp[tr.2])];
      var flipped :- FlipBadEdges(num, |added| - 1, VertexMaxAngle(num, added[|added| - 1]), added, fuel);
      var points :- DropTip(sp, tr.1, flipped);
      Ok(DivisionState(points, flipped, f))
  }

  /** One round of `Division`: select the ear, then place it. */
  function DivisionRound(num: Numerics, st: DivisionState, fuel: nat): (r: Result<DivisionState>)
    ensures r.Ok? ==> |r.value.triangles| == |st.triangles| + 1
  {
    var foundIndex :- SelectEar(num, st.splitPoints, st.foundIndex);
    PlaceEar(num, st, foundIndex, fuel)
  }

  /** The ear a round selects: the first position of least corrected angle, or the
      index kept from the previous round when no angle is below 360. */
  lemma DivisionRoundSelects(num: Numerics, st: DivisionState, fuel: nat)
    requires DivisionRound(num, st, fuel).Ok?
    ensures var sp, f := st.splitPoints, DivisionRound(num, st, fuel).value.foundIndex;
      && 2 <= |sp| && 0 <= f < |sp|
      && IsFirstMin(EarAngles(num, sp), |sp|, f, st.foundIndex)
      && DivisionRound(num, st, fuel) == PlaceEar(num, st, f, fuel)
  {
  }

  /** Placing the ear at f adds it, flips from the vertex of its largest angle and
      ends with `DropTip` on its middle point. */
  lemma PlaceEarSteps(num: Numerics, st: DivisionState, f: int, fuel: nat)
    requires 2 <= |st.splitPoints| && 0 <= f < |st.splitPoints|
    requires PlaceEar(num, st, f, fuel).Ok?
    ensures var sp, r := st.splitPoints, PlaceEar(num, st, f, fuel).value;
      && r.foundIndex == f
      && FlipBadEdges(num, |st.triangles|, VertexMaxAngle(num, Ear(sp, f)), st.triangles + [Ear(sp, f)], fuel) == Ok(r.triangles)
      && DropTip(sp, (f + 1) % |sp|, r.triangles) == Ok(r.splitPoints)
  {
    EarTripleCyclic(f, |st.splitPoints|);
  }

  /** The flips of a round start at the ear, the last entry, so they never meet the
      stale removal: they run exactly as with the intended removal. */
  lemma PlaceEarFlipsAsIntended(num: Numerics, st: DivisionState, f: int, fuel: nat)
    requires 2 <= |st.splitPoints| && 0 <= f < |st.splitPoints|
    ensures var ear := Ear(st.splitPoints, f);
      FlipBadEdges(num, |st.triangles|, VertexMaxAngle(num, ear), st.triangles + [ear], fuel)
        == FlipBadEdgesIntended(num, |st.triangles|, VertexMaxAngle(num, ear), st.triangles + [ear], fuel)
  {
    var ear := Ear(st.splitPoints, f);
    FlipBadEdgesAsIntended(num, |st.triangles|, VertexMaxAngle(num, ear), st.triangles + [ear], fuel);
  }

  /** After placing the ear every triangle was there before, is the ear, or has the
      vertex of the ear's largest angle: the flips only bring in triangles at that vertex. */
  lemma PlaceEarTriangles(num: Numerics, st: DivisionState, f: int, fuel: nat)
    requires 2 <= |st.splitPoints| && 0 <= f < |st.splitPoints|
    requires PlaceEar(num, st, f, fuel).Ok?
    ensures var ear, r := Ear(st.splitPoints, f), PlaceEar(num, st, f, fuel).value;
      forall x :: x in r.triangles ==> x in st.triangles || x == ear || x.HasVertex(VertexMaxAngle(num, ear))
  {
    PlaceEarSteps(num, st, f, fuel);
    var ear := Ear(st.splitPoints, f);
    FlipBadEdgesNewTrianglesHavePoint(num, |st.triangles|, VertexMaxAngle(num, ear), st.triangles + [ear], fuel);
  }

  /** The ear's middle point is dropped exactly when both of its neighbours are
      vertices of the mesh after the flips; otherwise the points stay as they were. */
  lemma PlaceEarDropsTip(num: Numerics, st: DivisionState, f: int, fuel: nat)
    requires 2 <= |st.splitPoints| && 0 <= f < |st.splitPoints|
    requires PlaceEar(num, st, f, fuel).Ok?
    ensures var sp, r := st.splitPoints, PlaceEar(num, st, f, fuel).value;
      var bothInMesh := InMesh(r.triangles, sp[f]) && InMesh(r.triangles, sp[(f + 2) % |sp|]);
      && (bothInMesh ==> r.splitPoints == RemoveAt(sp, (f + 1) % |sp|))
      && (!bothInMesh ==> r.splitPoints == sp)
  {
    PlaceEarSteps(num, st, f, fuel);
    var sp := st.splitPoints;
    var r := PlaceEar(num, st, f, fuel).value;
    var m := (f + 1) % |sp|;
    var drop := DropTip(sp, m, r.triangles);
    assert drop == Ok(r.splitPoints);
    DropTipSpec(sp, f, r.triangles);
    if InMesh(r.triangles, sp[f]) && InMesh(r.triangles, sp[(f + 2) % |sp|]) {
      assert drop == Ok(RemoveAt(sp, m));
    } else {
      assert drop == Ok(sp);
    }
  }

  /** The outer loop of `Division`: count more rounds. */
  function Rounds(num: Numerics, st: DivisionState, count: int, fuel: nat): (r: Result<DivisionState>)
    ensures r.Ok? ==> |r.value.triangles| == |st.triangles| + (if count < 0 then 0 else count)
    decreases count
  {
    if count <= 0 then Ok(st)
    else
      var next :- DivisionRound(num, st, fuel);
      Rounds(num, next, count - 1, fuel)
  }

  /** `Division`: the border points, then exactly (number of points − 2) rounds, a
      count fixed before the first point is dropped; each round adds one triangle. */
  function DivisionArea(num: Numerics, points: seq<PointM>, fuel: nat): (r: Result<seq<Triangle>>)
    ensures r.Ok? ==>
      var countPoints := |SplitEdgesArea(num, points)|;
      |r.value| == if countPoints < 2 then 0 else countPoints - 2
  {
    var splitPoints := SplitEdgesArea(num, points);
    var st :- Rounds(num, DivisionState(splitPoints, [], -1), |splitPoints| - 2, fuel);
    Ok(st.triangles)
  }
}
