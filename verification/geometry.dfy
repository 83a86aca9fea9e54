/** Utility/GeometryUtility.cs: vectors, angles, side lengths, areas and the
    circumscribed and diametral circles of triangles. */
module Geometry {
  import opened Results
  import opened Points
  import opened Structs
  import opened RealFacts

  /** The three computations the source performs in double precision with square
      roots and arc cosines. They are parameters of the model: `dist` is
      `GetDistancePoints`, `angle` is `GetAngleVectors` (degrees) and `heightFoot` is
      `FindNewVertexHeightTriangle`. Everything else is exact. */
  datatype Numerics = Numerics(
    dist: (PointM, PointM) -> real,
    angle: (PointM, PointM) -> real,
    heightFoot: Triangle -> PointM)

  /** `dist` compares pairs of points as the exact Euclidean distance does: it is
      a monotone function of the squared distance, as a square root without
      rounding is. */
  ghost predicate Euclidean(dist: (PointM, PointM) -> real) {
    forall p, q, r, s :: dist(p, q) <= dist(r, s) <==> SqDist(p, q) <= SqDist(r, s)
  }

  function Abs(a: real): (r: real)
    ensures 0.0 <= r && (r == a || r == -a)
  {
    if a < 0.0 then -a else a
  }

  /** `GetVectors(firstIndex, secondIndex, thirdIndex, points)`: the vectors from the
      second point to the first and to the third. */
  function GetVectors(first: int, second: int, third: int, points: seq<PointM>): (r: (PointM, PointM))
    requires 0 <= first < |points| && 0 <= second < |points| && 0 <= third < |points|
    ensures Translate(points[second], r.0) == points[first]
    ensures Translate(points[second], r.1) == points[third]
  {
    (Sub(points[first], points[second]), Sub(points[third], points[second]))
  }

  /** `GetVectors(triangle, sideNums)`: the vectors from `Vertex[sideNums - 1]` to the
      next two vertices in cyclic order. */
  function GetVectorsSide(t: Triangle, sideNums: int): (r: (PointM, PointM))
    requires 1 <= sideNums <= 3
    ensures Translate(t.Vertex(sideNums - 1), r.0) == t.Vertex(sideNums % 3)
    ensures Translate(t.Vertex(sideNums - 1), r.1) == t.Vertex((sideNums + 1) % 3)
  {
    var prevIndex := sideNums - 1;
    var currentIndex := if sideNums == 3 then 0 else sideNums;
    var nextIndex := if currentIndex == 2 then 0 else currentIndex + 1;
    (Sub(t.Vertex(currentIndex), t.Vertex(prevIndex)), Sub(t.Vertex(nextIndex), t.Vertex(prevIndex)))
  }

  /** The interior angle at vertex k: the angle between the edges from vertex k to the
      two other vertices, taken in cyclic order. */
  function AngleAt(num: Numerics, t: Triangle, k: int): real
    requires 0 <= k < 3
  {
    num.angle(Sub(t.Vertex((k + 1) % 3), t.Vertex(k)), Sub(t.Vertex((k + 2) % 3), t.Vertex(k)))
  }

  predicate IsMaxAngle(num: Numerics, t: Triangle, k: int)
    requires 0 <= k < 3
  {
    forall j :: 0 <= j < 3 ==> AngleAt(num, t, j) <= AngleAt(num, t, k)
  }

  /** `GetAngelsTriangle`: angles[i] is the angle at vertex i. */
  function GetAngelsTriangle(num: Numerics, t: Triangle): (r: (real, real, real))
    ensures r.0 == AngleAt(num, t, 0) && r.1 == AngleAt(num, t, 1) && r.2 == AngleAt(num, t, 2)
  {
    var u := GetVectorsSide(t, 1);
    var v := GetVectorsSide(t, 2);
    var w := GetVectorsSide(t, 3);
    (num.angle(u.0, u.1), num.angle(v.0, v.1), num.angle(w.0, w.1))
  }

  /** The index whose vertex `VertexMaxAngle` returns: the first vertex of largest angle,
      so a tie goes to the lower index. */
  function MaxAngleIndex(num: Numerics, t: Triangle): (k: int)
    ensures 0 <= k < 3 && IsMaxAngle(num, t, k)
    ensures forall j :: 0 <= j < k ==> AngleAt(num, t, j) < AngleAt(num, t, k)
  {
    var a := GetAngelsTriangle(num, t);
    if a.0 >= a.1 then
      (if a.0 >= a.2 then 0 else 2)
    else
      (if a.1 >= a.2 then 1 else 2)
  }

  /** `VertexMaxAngle`: a vertex whose angle is largest. */
  function VertexMaxAngle(num: Numerics, t: Triangle): (r: PointM)
    ensures exists k :: 0 <= k < 3 && r == t.Vertex(k) && IsMaxAngle(num, t, k)
  {
    var a := GetAngelsTriangle(num, t);
    var r := if a.0 >= a.1 then
      (if a.0 >= a.2 then t.Vertex(0) else t.Vertex(2))
    else
      (if a.1 >= a.2 then t.Vertex(1) else t.Vertex(2));
    assert r == t.Vertex(MaxAngleIndex(num, t));
    r
  }

  /** `GetNumSideTriangle`: the number of the side opposite a largest angle. */
  function GetNumSideTriangle(num: Numerics, t: Triangle): (r: int)
    ensures 1 <= r <= 3
    ensures IsMaxAngle(num, t, Opposite(r))
  {
    var a := GetAngelsTriangle(num, t);
    if a.0 >= a.1 then
      (if a.0 >= a.2 then 2 else 1)
    else
      (if a.1 >= a.2 then 3 else 1)
  }

  /** Both selections break ties the same way: the side that `GetNumSideTriangle`
      returns lies opposite the vertex that `VertexMaxAngle` returns. */
  lemma NumSideOppositeMaxVertex(num: Numerics, t: Triangle)
    ensures VertexMaxAngle(num, t) == t.Vertex(Opposite(GetNumSideTriangle(num, t)))
  {
  }

  /** `GetSideLenght`: the length of side numSide. */
  function GetSideLenght(num: Numerics, numSide: int, t: Triangle): (r: real)
    requires 1 <= numSide <= 3
    ensures r == num.dist(t.Vertex(SideFrom(numSide)), t.Vertex(SideTo(numSide)))
    ensures r == num.dist(t.Vertex(numSide - 1), t.Vertex(numSide % 3))
  {
    var index := if numSide == 3 then 0 else numSide;
    num.dist(t.Vertex(numSide - 1), t.Vertex(index))
  }

  /** `ShortestEdgeTriangle`: the least of the three side lengths. */
  function ShortestEdgeTriangle(num: Numerics, t: Triangle): (r: real)
    ensures forall k :: 1 <= k <= 3 ==> r <= GetSideLenght(num, k, t)
    ensures exists k :: 1 <= k <= 3 && r == GetSideLenght(num, k, t)
  {
    var e0 := num.dist(t.Vertex(0), t.Vertex(1));
    var e1 := num.dist(t.Vertex(1), t.Vertex(2));
    var e2 := num.dist(t.Vertex(2), t.Vertex(0));
    assert e0 == GetSideLenght(num, 1, t) && e1 == GetSideLenght(num, 2, t) && e2 == GetSideLenght(num, 3, t);
    if e0 < e1 then
      (if e0 < e2 then e0 else e2)
    else
      (if e1 < e2 then e1 else e2)
  }

  /** The starting value of `ShortestEdgeTriangles`. */
  const InitialShortest: real := 1000000.0

  /** The loop of `ShortestEdgeTriangles` from triangle i on, with the running minimum. */
  function ShortestFrom(num: Numerics, tris: seq<Triangle>, i: int, minLength: real): (r: real)
    requires 0 <= i <= |tris|
    ensures r <= minLength
    ensures forall k :: i <= k < |tris| ==> r <= ShortestEdgeTriangle(num, tris[k])
    ensures r == minLength || exists k :: i <= k < |tris| && r == ShortestEdgeTriangle(num, tris[k])
    decreases |tris| - i
  {
    if i == |tris| then minLength
    else
      var current := ShortestEdgeTriangle(num, tris[i]);
      ShortestFrom(num, tris, i + 1, if current < minLength then current else minLength)
  }

  /** `ShortestEdgeTriangles`: the shortest edge of all triangles, capped at 1000000. */
  function ShortestEdgeTriangles(num: Numerics, tris: seq<Triangle>): (r: real)
    ensures r <= InitialShortest
    ensures forall k :: 0 <= k < |tris| ==> r <= ShortestEdgeTriangle(num, tris[k])
    ensures r == InitialShortest || exists k :: 0 <= k < |tris| && r == ShortestEdgeTriangle(num, tris[k])
    ensures (forall k :: 0 <= k < |tris| ==> InitialShortest <= ShortestEdgeTriangle(num, tris[k])) ==> r == InitialShortest
  {
    ShortestFrom(num, tris, 0, InitialShortest)
  }

  /** `GetSumSidesTriangle`: the perimeter, at least three times the shortest side. */
  function GetSumSidesTriangle(num: Numerics, t: Triangle): (r: real)
    ensures r >= 3.0 * ShortestEdgeTriangle(num, t)
  {
    assert forall k :: 1 <= k <= 3 ==> ShortestEdgeTriangle(num, t) <= GetSideLenght(num, k, t);
    num.dist(t.Vertex(0), t.Vertex(1)) + num.dist(t.Vertex(1), t.Vertex(2)) + num.dist(t.Vertex(2), t.Vertex(0))
  }

  /** A product of three reals is zero exactly when a factor is. */
  lemma ZeroProduct(a: real, b: real, c: real)
    ensures a * b * c == 0.0 <==> a == 0.0 || b == 0.0 || c == 0.0
  {
  }

  /** `GetProductSidesTriangle`: the product of the side lengths, zero exactly when some
      side has length zero. */
  function GetProductSidesTriangle(num: Numerics, t: Triangle): (r: real)
    ensures r == 0.0 <==> exists k :: 1 <= k <= 3 && GetSideLenght(num, k, t) == 0.0
  {
    var e0, e1, e2 := num.dist(t.Vertex(0), t.Vertex(1)), num.dist(t.Vertex(1), t.Vertex(2)), num.dist(t.Vertex(2), t.Vertex(0));
    assert e0 == GetSideLenght(num, 1, t) && e1 == GetSideLenght(num, 2, t) && e2 == GetSideLenght(num, 3, t);
    ZeroProduct(e0, e1, e2);
    e0 * e1 * e2
  }

  /** The perimeter and the side product do not depend on which vertex is listed first. */
  lemma SidesRotationInvariant(num: Numerics, t: Triangle)
    ensures GetSumSidesTriangle(num, Triangle(t.v1, t.v2, t.v0, t.nodes)) == GetSumSidesTriangle(num, t)
    ensures GetProductSidesTriangle(num, Triangle(t.v1, t.v2, t.v0, t.nodes)) == GetProductSidesTriangle(num, t)
  {
    var e0, e1, e2 := num.dist(t.v0, t.v1), num.dist(t.v1, t.v2), num.dist(t.v2, t.v0);
    assert e1 * e2 * e0 == e0 * e1 * e2;
  }

  /** `GetSquareTriangle`: the shoelace area, half the absolute cross product. */
  function GetSquareTriangle(t: Triangle): (r: real)
    ensures 0.0 <= r
    ensures 2.0 * r == Abs(Cross(t.v0, t.v1, t.v2))
  {
    var a := t.Vertex(0);
    var b := t.Vertex(1);
    var c := t.Vertex(2);
    Abs(a.x * b.y + b.x * c.y + c.x * a.y - (b.x * a.y + c.x * b.y + a.x * c.y)) / 2.0
  }

  /** Three points on one line: the first two coincide, or the third is on the line through them. */
  ghost predicate Collinear(a: PointM, b: PointM, c: PointM) {
    a == b || exists s :: c == Lerp(a, b, s)
  }

  /** A vector w parallel to a non-zero vector u is a multiple of it. */
  lemma ParallelIsMultiple(ux: real, uy: real, wx: real, wy: real) returns (s: real)
    requires ux * wy - wx * uy == 0.0
    requires ux != 0.0 || uy != 0.0
    ensures wx == s * ux && wy == s * uy
  {
    if ux != 0.0 {
      s := wx / ux;
      assert (s * uy) * ux == (s * ux) * uy;
      Cancel(s * uy, wy, ux);
    } else {
      s := wy / uy;
      assert (s * ux) * uy == (s * uy) * ux;
      Cancel(s * ux, wx, uy);
    }
  }

  /** Collinear points have a zero cross product. */
  lemma CollinearCrossZero(a: PointM, b: PointM, c: PointM)
    requires Collinear(a, b, c)
    ensures Cross(a, b, c) == 0.0
  {
    if a != b {
      var s :| c == Lerp(a, b, s);
      var ux, uy := b.x - a.x, b.y - a.y;
      assert c.x - a.x == s * ux && c.y - a.y == s * uy;
      assert Cross(a, b, c) == ux * (s * uy) - (s * ux) * uy;
    }
  }

  /** A zero cross product makes the points collinear. */
  lemma CrossZeroCollinear(a: PointM, b: PointM, c: PointM)
    requires Cross(a, b, c) == 0.0
    ensures Collinear(a, b, c)
  {
    if a != b {
      var ux, uy, wx, wy := b.x - a.x, b.y - a.y, c.x - a.x, c.y - a.y;
      assert ux * wy - wx * uy == 0.0;
      var s := ParallelIsMultiple(ux, uy, wx, wy);
      assert c == Lerp(a, b, s);
    }
  }

  /** The area is zero exactly for collinear vertices. */
  lemma SquareZeroIffCollinear(t: Triangle)
    ensures GetSquareTriangle(t) == 0.0 <==> Collinear(t.v0, t.v1, t.v2)
  {
    assert GetSquareTriangle(t) == 0.0 <==> Cross(t.v0, t.v1, t.v2) == 0.0;
    if Cross(t.v0, t.v1, t.v2) == 0.0 {
      CrossZeroCollinear(t.v0, t.v1, t.v2);
    }
    if Collinear(t.v0, t.v1, t.v2) {
      CollinearCrossZero(t.v0, t.v1, t.v2);
    }
  }

  /** The area does not depend on which vertex is listed first, nor on orientation. */
  lemma SquareRotationInvariant(t: Triangle)
    ensures GetSquareTriangle(Triangle(t.v1, t.v2, t.v0, t.nodes)) == GetSquareTriangle(t)
    ensures GetSquareTriangle(Triangle(t.v2, t.v0, t.v1, t.nodes)) == GetSquareTriangle(t)
    ensures GetSquareTriangle(Triangle(t.v1, t.v0, t.v2, t.nodes)) == GetSquareTriangle(t)
  {
  }

  /** Twice the signed area, the shoelace determinant used for the circumcenter. */
  function Determinant(t: Triangle): (d: real)
    ensures d == Cross(t.v0, t.v1, t.v2)
  {
    t.v0.x * (t.v1.y - t.v2.y) + t.v1.x * (t.v2.y - t.v0.y) + t.v2.x * (t.v0.y - t.v1.y)
  }

  /** Squared norm of a point seen as a vector. */
  function NormSq(p: PointM): real
  {
    p.x * p.x + p.y * p.y
  }

  /** The numerators of the closed-form circumcenter. */
  function CenterNumeratorX(t: Triangle): real
  {
    -(t.v0.y * (NormSq(t.v1) - NormSq(t.v2)) + t.v1.y * (NormSq(t.v2) - NormSq(t.v0))
      + t.v2.y * (NormSq(t.v0) - NormSq(t.v1)))
  }

  function CenterNumeratorY(t: Triangle): real
  {
    t.v0.x * (NormSq(t.v1) - NormSq(t.v2)) + t.v1.x * (NormSq(t.v2) - NormSq(t.v0))
    + t.v2.x * (NormSq(t.v0) - NormSq(t.v1))
  }

  /** The closed-form circumcenter, defined when the vertices are not collinear. */
  function CenterPoint(t: Triangle): PointM
    requires Determinant(t) != 0.0
  {
    var denominator := 2.0 * Determinant(t);
    PointM(CenterNumeratorX(t) / denominator, CenterNumeratorY(t) / denominator)
  }

  /** `GetCenterPointCircleTriangle`: the closed-form circumcenter. The decimal
      division throws when the vertices are collinear. */
  function GetCenterPointCircleTriangle(t: Triangle): (r: Result<PointM>)
    ensures r.Ok? <==> GetSquareTriangle(t) != 0.0
    ensures r.Ok? ==> var c := r.value;
      SqDist(c, t.v0) == SqDist(c, t.v1) && SqDist(c, t.v0) == SqDist(c, t.v2)
  {
    if 2.0 * Determinant(t) == 0.0 then Err(DivideByZero)
    else
      CircumcenterEquidistant(t);
      Ok(CenterPoint(t))
  }

  /** c lies on the perpendicular bisector of v0 and v: 2·c·(v − v0) = |v|² − |v0|². */
  predicate OnBisector(c: PointM, v0: PointM, v: PointM)
  {
    2.0 * (c.x * (v.x - v0.x) + c.y * (v.y - v0.y)) == NormSq(v) - NormSq(v0)
  }

  /** The bisector equation of direction (dx, dy) and offset da, scaled by det. */
  predicate ScaledBisectorEquation(nx: real, ny: real, det: real, dx: real, dy: real, da: real)
  {
    nx * dx + ny * dy == det * da
  }

  /** nx, ny and det are the circumcenter numerators and the determinant written over
      the coordinates and the squared norms a0, a1, a2 of three points. */
  predicate CramerForm(x0: real, y0: real, x1: real, y1: real, x2: real, y2: real,
                       a0: real, a1: real, a2: real, nx: real, ny: real, det: real)
  {
    && nx == -(y0 * (a1 - a2) + y1 * (a2 - a0) + y2 * (a0 - a1))
    && ny == x0 * (a1 - a2) + x1 * (a2 - a0) + x2 * (a0 - a1)
    && det == x0 * (y1 - y2) + x1 * (y2 - y0) + x2 * (y0 - y1)
  }

  /** Cramer's rule for the circumcenter: with the squared norms taken as independent
      unknowns, the numerators satisfy the two bisector equations scaled by det. */
  lemma CramerIdentity(x0: real, y0: real, x1: real, y1: real, x2: real, y2: real,
                       a0: real, a1: real, a2: real, nx: real, ny: real, det: real)
    requires CramerForm(x0, y0, x1, y1, x2, y2, a0, a1, a2, nx, ny, det)
    ensures ScaledBisectorEquation(nx, ny, det, x1 - x0, y1 - y0, a1 - a0)
    ensures ScaledBisectorEquation(nx, ny, det, x2 - x0, y2 - y0, a2 - a0)
  {
  }

  /** The numerators and the determinant of t have the form Cramer's rule gives. */
  lemma NumeratorsCramerForm(t: Triangle)
    ensures CramerForm(t.v0.x, t.v0.y, t.v1.x, t.v1.y, t.v2.x, t.v2.y,
      NormSq(t.v0), NormSq(t.v1), NormSq(t.v2), CenterNumeratorX(t), CenterNumeratorY(t), Determinant(t))
  {
    var a0, a1, a2 := NormSq(t.v0), NormSq(t.v1), NormSq(t.v2);
    assert CenterNumeratorX(t) == -(t.v0.y * (a1 - a2) + t.v1.y * (a2 - a0) + t.v2.y * (a0 - a1));
    assert CenterNumeratorY(t) == t.v0.x * (a1 - a2) + t.v1.x * (a2 - a0) + t.v2.x * (a0 - a1);
  }

  lemma NumeratorsScaled(t: Triangle)
    ensures ScaledBisectorEquation(CenterNumeratorX(t), CenterNumeratorY(t), Determinant(t),
      t.v1.x - t.v0.x, t.v1.y - t.v0.y, NormSq(t.v1) - NormSq(t.v0))
    ensures ScaledBisectorEquation(CenterNumeratorX(t), CenterNumeratorY(t), Determinant(t),
      t.v2.x - t.v0.x, t.v2.y - t.v0.y, NormSq(t.v2) - NormSq(t.v0))
  {
    NumeratorsCramerForm(t);
    CramerIdentity(t.v0.x, t.v0.y, t.v1.x, t.v1.y, t.v2.x, t.v2.y,
      NormSq(t.v0), NormSq(t.v1), NormSq(t.v2), CenterNumeratorX(t), CenterNumeratorY(t), Determinant(t));
  }

  /** Dividing the scaled bisector equation by twice the determinant. */
  lemma ScaledBisector(c: PointM, nx: real, ny: real, det: real, v0: PointM, v: PointM)
    requires det != 0.0
    requires c == PointM(nx / (2.0 * det), ny / (2.0 * det))
    requires ScaledBisectorEquation(nx, ny, det, v.x - v0.x, v.y - v0.y, NormSq(v) - NormSq(v0))
    ensures OnBisector(c, v0, v)
  {
    var dx, dy, da := v.x - v0.x, v.y - v0.y, NormSq(v) - NormSq(v0);
    assert c.x * (2.0 * det) == nx && c.y * (2.0 * det) == ny;
    assert (2.0 * (c.x * dx + c.y * dy)) * det == (c.x * (2.0 * det)) * dx + (c.y * (2.0 * det)) * dy;
    Cancel(2.0 * (c.x * dx + c.y * dy), da, det);
  }

  /** A point on the bisector of v0 and v is as far from v as from v0. */
  lemma EquidistantFromBisector(c: PointM, v0: PointM, v: PointM)
    requires OnBisector(c, v0, v)
    ensures SqDist(c, v) == SqDist(c, v0)
  {
  }

  /** The closed-form point is equidistant from the three vertices. */
  lemma CircumcenterEquidistant(t: Triangle)
    requires Determinant(t) != 0.0
    ensures var c := CenterPoint(t);
      SqDist(c, t.v0) == SqDist(c, t.v1) && SqDist(c, t.v0) == SqDist(c, t.v2)
  {
    NumeratorsScaled(t);
    var c, nx, ny, det := CenterPoint(t), CenterNumeratorX(t), CenterNumeratorY(t), Determinant(t);
    ScaledBisector(c, nx, ny, det, t.v0, t.v1);
    ScaledBisector(c, nx, ny, det, t.v0, t.v2);
    EquidistantFromBisector(c, t.v0, t.v1);
    EquidistantFromBisector(c, t.v0, t.v2);
  }

  /** `GetCircumRadius`: product of the sides over four times the area. */
  function GetCircumRadius(num: Numerics, t: Triangle): (r: Result<real>)
    ensures r.Ok? <==> GetSquareTriangle(t) != 0.0
    ensures r.Ok? ==> r.value * (4.0 * GetSquareTriangle(t)) == GetProductSidesTriangle(num, t)
  {
    Div(GetProductSidesTriangle(num, t), 4.0 * GetSquareTriangle(t))
  }

  /** `GetCircumRadiusShortestEdgeRatio`: circumradius over shortest edge. */
  function GetCircumRadiusShortestEdgeRatio(num: Numerics, t: Triangle): (r: Result<real>)
    ensures r.Ok? <==> GetSquareTriangle(t) != 0.0 && ShortestEdgeTriangle(num, t) != 0.0
    ensures r.Ok? ==> r.value * ShortestEdgeTriangle(num, t) == GetCircumRadius(num, t).value
  {
    var radius :- GetCircumRadius(num, t);
    Div(radius, ShortestEdgeTriangle(num, t))
  }

  /** `PointIsDiametralCircle`: does the circumcenter of t lie within the circle whose
      diameter is the segment from start to end? */
  function PointIsDiametralCircle(num: Numerics, t: Triangle, start: PointM, end: PointM): (r: Result<bool>)
    ensures r.Ok? <==> GetSquareTriangle(t) != 0.0
  {
    var midPoint := PointM((start.x + end.x) / 2.0, (start.y + end.y) / 2.0);
    var center :- GetCenterPointCircleTriangle(t);
    Ok(num.dist(center, midPoint) <= num.dist(midPoint, start))
  }

  /** The midpoint is half a segment's length from its start. */
  lemma MidpointHalfway(start: PointM, end: PointM)
    ensures 4.0 * SqDist(Midpoint(start, end), start) == SqDist(start, end)
  {
    var m := Midpoint(start, end);
    assert m.x - start.x == (end.x - start.x) / 2.0;
    assert m.y - start.y == (end.y - start.y) / 2.0;
  }

  /** With exact distances the test is membership of the closed diametral disk: the
      circumcenter is within half the segment's length of the segment's midpoint. */
  lemma DiametralCircleIsDisk(num: Numerics, t: Triangle, start: PointM, end: PointM)
    requires Euclidean(num.dist)
    requires GetSquareTriangle(t) != 0.0
    ensures PointIsDiametralCircle(num, t, start, end).value
        <==> 4.0 * SqDist(GetCenterPointCircleTriangle(t).value, Midpoint(start, end)) <= SqDist(start, end)
  {
    var c := GetCenterPointCircleTriangle(t).value;
    var m := Midpoint(start, end);
    assert PointIsDiametralCircle(num, t, start, end) == Ok(num.dist(c, m) <= num.dist(m, start));
    MidpointHalfway(start, end);
    assert num.dist(c, m) <= num.dist(m, start) <==> SqDist(c, m) <= SqDist(m, start);
  }
}
