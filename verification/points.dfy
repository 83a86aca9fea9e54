/** The value type `PointM` of Structs/PointM.cs: an (X, Y) pair of decimals,
    modelled as exact reals. */
module Points {

  datatype PointM = PointM(x: real, y: real)

  /** The default value `PointM.Empty`: both coordinates zero. */
  const Empty: PointM := PointM(0.0, 0.0)

  /** `IsEmpty`: both coordinates are zero. */
  function IsEmpty(p: PointM): (r: bool)
    ensures r <==> p == Empty
  {
    p.x == 0.0 && p.y == 0.0
  }

  /** `operator ==`: coordinate-wise equality. */
  function Eq(left: PointM, right: PointM): (r: bool)
    ensures r <==> left == right
  {
    left.x == right.x && left.y == right.y
  }

  /** `operator !=`: the negation of `==`. */
  function NotEq(left: PointM, right: PointM): (r: bool)
    ensures r <==> left != right
    ensures r <==> !Eq(left, right)
  {
    !Eq(left, right)
  }

  /** `Equals(PointM)`. */
  function EqualsPoint(self: PointM, other: PointM): (r: bool)
    ensures r <==> Eq(self, other)
    ensures r <==> self == other
  {
    Eq(self, other)
  }

  /** The boxed argument of `Equals(object)`: a boxed point or any other object (null included). */
  datatype Object = Boxed(point: PointM) | NotAPoint

  /** `Equals(object)`: a type test followed by `Equals(PointM)`. */
  function EqualsObject(self: PointM, obj: Object): (r: bool)
    ensures obj.NotAPoint? ==> !r
    ensures r <==> obj == Boxed(self)
  {
    obj.Boxed? && EqualsPoint(self, obj.point)
  }

  /** `GetHashCode`: `HashCode.Combine` applied to the hash codes of the two
      coordinates. Both hash functions are runtime internals, so they are parameters;
      decimal hashing depends only on the numeric value. */
  function GetHashCode(combine: (int, int) -> int, decimalHash: real -> int, p: PointM): int
  {
    combine(decimalHash(p.x), decimalHash(p.y))
  }

  /** Points that are `==` hash equally, whatever the two runtime hash functions are. */
  lemma HashConsistent(combine: (int, int) -> int, decimalHash: real -> int, a: PointM, b: PointM)
    requires Eq(a, b)
    ensures GetHashCode(combine, decimalHash, a) == GetHashCode(combine, decimalHash, b)
  {
  }

  /** Vector and point arithmetic used by the geometry. */
  function Sub(a: PointM, b: PointM): PointM
  {
    PointM(a.x - b.x, a.y - b.y)
  }

  function Translate(a: PointM, v: PointM): PointM
  {
    PointM(a.x + v.x, a.y + v.y)
  }

  /** The point a + t·(b − a) of the line through a and b. */
  function Lerp(a: PointM, b: PointM, t: real): PointM
  {
    PointM(a.x + t * (b.x - a.x), a.y + t * (b.y - a.y))
  }

  /** The coordinate-average midpoint of a and b. */
  function Midpoint(a: PointM, b: PointM): (m: PointM)
    ensures m == Lerp(a, b, 0.5)
  {
    PointM((a.x + b.x) / 2.0, (a.y + b.y) / 2.0)
  }

  /** Squared Euclidean distance: exact, unlike the source's square root. */
  function SqDist(a: PointM, b: PointM): real
  {
    (a.x - b.x) * (a.x - b.x) + (a.y - b.y) * (a.y - b.y)
  }

  /** Cross product of b − a and c − a: twice the signed area of triangle (a, b, c). */
  function Cross(a: PointM, b: PointM, c: PointM): real
  {
    (b.x - a.x) * (c.y - a.y) - (c.x - a.x) * (b.y - a.y)
  }
}
