/** The small value types of the triangulation and node libraries:
    Triangle.cs, EdgeTriangleNums.cs, GridNode.cs, BorderNodeNums.cs and
    TemperatureBorder.cs. */
module Structs {
  import opened Points

  /** The `NodesNumber` array of a triangle: one grid-node number per vertex. */
  datatype NodeNums = NodeNums(n0: int, n1: int, n2: int) {
    function At(k: int): int
      requires 0 <= k < 3
    {
      if k == 0 then n0 else if k == 1 then n1 else n2
    }
  }

  /** `NodesNumber[k] = n`: entry k becomes n and the others stay. */
  function SetNode(nums: NodeNums, k: int, n: int): (r: NodeNums)
    requires 0 <= k < 3
    ensures r.At(k) == n
    ensures forall j :: 0 <= j < 3 && j != k ==> r.At(j) == nums.At(j)
  {
    if k == 0 then nums.(n0 := n) else if k == 1 then nums.(n1 := n) else nums.(n2 := n)
  }

  /** A triangle: vertices 0, 1, 2 and their grid-node numbers. */
  datatype Triangle = Triangle(v0: PointM, v1: PointM, v2: PointM, nodes: NodeNums) {

    /** `Vertex[k]`. */
    function Vertex(k: int): PointM
      requires 0 <= k < 3
    {
      if k == 0 then v0 else if k == 1 then v1 else v2
    }

    predicate HasVertex(p: PointM) {
      p == v0 || p == v1 || p == v2
    }
  }

  /** `new Triangle(a, b, c)` and the triangles built vertex by vertex: the node numbers
      start as the zeros of a fresh `int[3]`. */
  function NewTriangle(a: PointM, b: PointM, c: PointM): (t: Triangle)
    ensures t.Vertex(0) == a && t.Vertex(1) == b && t.Vertex(2) == c
    ensures forall k :: 0 <= k < 3 ==> t.nodes.At(k) == 0
  {
    Triangle(a, b, c, NodeNums(0, 0, 0))
  }

  /** Side numbering shared by every source file: side k (1..3) runs from
      `Vertex[k - 1]` to `Vertex[k == 3 ? 0 : k]`, and the remaining vertex is opposite it. */
  function SideFrom(k: int): int
    requires 1 <= k <= 3
  {
    k - 1
  }

  function SideTo(k: int): int
    requires 1 <= k <= 3
  {
    if k == 3 then 0 else k
  }

  function Opposite(k: int): (v: int)
    requires 1 <= k <= 3
    ensures 0 <= v < 3 && v != SideFrom(k) && v != SideTo(k)
  {
    3 - SideFrom(k) - SideTo(k)
  }

  /** The side conventions agree with cyclic order: side k joins vertex k − 1 to vertex k mod 3,
      and the opposite vertex is the one after that. */
  lemma SideNumbering(k: int)
    requires 1 <= k <= 3
    ensures SideTo(k) == k % 3
    ensures Opposite(k) == (k + 1) % 3
    ensures SideFrom(k) != SideTo(k)
  {
  }

  /** `EdgeTriangleNums`: a triangle index and one of its side numbers. */
  datatype EdgeTriangleNums = EdgeTriangleNums(numTriangle: int, numEdge: int)

  /** `new EdgeTriangleNums()`: both fields zero. */
  const NoEdge: EdgeTriangleNums := EdgeTriangleNums(0, 0)

  /** `GridNode`: a mesh vertex and its number. */
  datatype GridNode = GridNode(node: PointM, numNode: int)

  /** `BorderNodeNums`: a border number and a node number. */
  datatype BorderNodeNums = BorderNodeNums(numBorder: int, numNode: int)

  /** `TemperatureBorder`: a border number and the temperature held on it. The
      temperature is a double and plays no part in the modelled code. */
  datatype TemperatureBorder = TemperatureBorder(numBorder: int, temperature: real)

  /** `List.RemoveAt`. */
  function RemoveAt<T>(s: seq<T>, i: int): (r: seq<T>)
    requires 0 <= i < |s|
    ensures |r| == |s| - 1
    ensures forall k :: 0 <= k < i ==> r[k] == s[k]
    ensures forall k :: i <= k < |r| ==> r[k] == s[k + 1]
  {
    s[..i] + s[i + 1..]
  }
}
