/** NumberNodes.cs: numbering of the mesh nodes. The distinct vertices of the
    triangulation are numbered from 1 column by column: the points of least x first,
    in ascending y, then the next column, and so on; each triangle then records the
    number of each of its vertices. */
module NumberNodes {
  import opened Results
  import opened Points
  import opened Structs

  /** The value the running minimum of `NumberingNodes` starts from. */
  const MinXStart: real := 100000.0

  /** p is a vertex of some triangle. */
  predicate IsVertex(tris: seq<Triangle>, p: PointM)
  {
    exists i :: 0 <= i < |tris| && tris[i].HasVertex(p)
  }

  /** No point occurs twice. */
  predicate NoDups(s: seq<PointM>)
  {
    forall i, j :: 0 <= i < j < |s| ==> s[i] != s[j]
  }

  // ---------------------------------------------------------------------------
  // The set of vertices
  // ---------------------------------------------------------------------------

  /** The vertices in the order `DeterminingNodeNumbers` adds them to its hash set:
      triangle by triangle, vertex 0 to 2. */
  function Vertices(tris: seq<Triangle>): (r: seq<PointM>)
    ensures |r| == 3 * |tris|
  {
    seq(3 * |tris|, k requires 0 <= k < 3 * |tris| => tris[k / 3].Vertex(k % 3))
  }

  /** The listed vertices are exactly the vertices of the triangles. */
  lemma VerticesAreVertices(tris: seq<Triangle>, p: PointM)
    ensures p in Vertices(tris) <==> IsVertex(tris, p)
  {
    var vs := Vertices(tris);
    if p in vs {
      var k :| 0 <= k < |vs| && vs[k] == p;
      assert tris[k / 3].HasVertex(p);
    }
    if IsVertex(tris, p) {
      var i :| 0 <= i < |tris| && tris[i].HasVertex(p);
      var j := if p == tris[i].v0 then 0 else if p == tris[i].v1 then 1 else 2;
      assert vs[3 * i + j] == p;
    }
  }

  /** A hash set filled from s[i..] on top of the list acc, read back in insertion
      order: each point is kept at its first occurrence. */
  function DedupFrom(s: seq<PointM>, i: int, acc: seq<PointM>): (r: seq<PointM>)
    requires 0 <= i <= |s| && NoDups(acc)
    ensures NoDups(r)
    ensures forall p :: p in r <==> p in acc || p in s[i..]
    decreases |s| - i
  {
    if i == |s| then acc
    else if s[i] in acc then DedupFrom(s, i + 1, acc)
    else DedupFrom(s, i + 1, acc + [s[i]])
  }

  /** `new HashSet<PointM>` filled with s, then `ToList`. */
  function Dedup(s: seq<PointM>): (r: seq<PointM>)
    ensures NoDups(r)
    ensures forall p :: p in r <==> p in s
  {
    DedupFrom(s, 0, [])
  }

  // ---------------------------------------------------------------------------
  // One round: `NumberingNodes`
  // ---------------------------------------------------------------------------

  /** The first loop of `NumberingNodes` from i on: the running minimum of x, replaced
      only by a strictly smaller x. */
  function MinXFrom(points: seq<PointM>, i: int, minX: real): (r: real)
    requires 0 <= i <= |points|
    ensures r <= minX
    ensures forall k :: i <= k < |points| ==> r <= points[k].x
    decreases |points| - i
  {
    if i == |points| then minX
    else MinXFrom(points, i + 1, if points[i].x < minX then points[i].x else minX)
  }

  /** The running minimum is where it started or the x of some later point. */
  lemma {:induction false} MinXFromAttained(points: seq<PointM>, i: int, minX: real)
    requires 0 <= i <= |points|
    ensures var r := MinXFrom(points, i, minX);
      r == minX || exists k :: i <= k < |points| && points[k].x == r
    decreases |points| - i
  {
    if i < |points| {
      MinXFromAttained(points, i + 1, if points[i].x < minX then points[i].x else minX);
    }
  }

  /** The points with x equal to m, in order: `leftPoints` before sorting. */
  function WithX(points: seq<PointM>, m: real): seq<PointM>
  {
    if |points| == 0 then []
    else
      var q, z := points[..|points| - 1], points[|points| - 1];
      if z.x == m then WithX(q, m) + [z] else WithX(q, m)
  }

  /** The column keeps exactly the points with x equal to m, and repeats none. */
  lemma {:induction false} WithXSpec(points: seq<PointM>, m: real)
    ensures forall p :: p in WithX(points, m) <==> p in points && p.x == m
    ensures NoDups(points) ==> NoDups(WithX(points, m))
  {
    if |points| > 0 {
      var q, z := points[..|points| - 1], points[|points| - 1];
      assert points == q + [z];
      assert NoDups(points) ==> NoDups(q) && z !in q;
      WithXSpec(q, m);
    }
  }

  /** The indices of the points with x equal to m, ascending: `indexesPoint`. */
  function IndexesWithX(points: seq<PointM>, m: real): (r: seq<int>)
    ensures forall k :: 0 <= k < |r| ==> 0 <= r[k] < |points| - (|r| - 1 - k)
  {
    if |points| == 0 then []
    else
      var q := points[..|points| - 1];
      if points[|points| - 1].x == m then IndexesWithX(q, m) + [|points| - 1] else IndexesWithX(q, m)
  }

  /** The last loop of `NumberingNodes`: remove the given indices, highest first. The
      indices are ascending, so the last is the highest. */
  function RemoveDescending(points: seq<PointM>, indexes: seq<int>): (r: seq<PointM>)
    requires forall k :: 0 <= k < |indexes| ==> 0 <= indexes[k] < |points| - (|indexes| - 1 - k)
    decreases |indexes|
  {
    if |indexes| == 0 then points
    else
      var last := |indexes| - 1;
      RemoveDescending(RemoveAt(points, indexes[last]), indexes[..last])
  }

  /** Removing indices inside q from q + [z] keeps z at the end. */
  lemma {:induction false} RemoveDescendingAppend(q: seq<PointM>, z: PointM, indexes: seq<int>)
    requires forall k :: 0 <= k < |indexes| ==> 0 <= indexes[k] < |q| - (|indexes| - 1 - k)
    ensures RemoveDescending(q + [z], indexes) == RemoveDescending(q, indexes) + [z]
    decreases |indexes|
  {
    if |indexes| > 0 {
      var last := |indexes| - 1;
      assert RemoveAt(q + [z], indexes[last]) == RemoveAt(q, indexes[last]) + [z];
      RemoveDescendingAppend(RemoveAt(q, indexes[last]), z, indexes[..last]);
    }
  }

  /** Removing the last entry first, then indices inside q, leaves what removing
      those indices from q leaves. */
  lemma RemoveLastIndex(q: seq<PointM>, z: PointM, indexes: seq<int>)
    requires forall k :: 0 <= k < |indexes| ==> 0 <= indexes[k] < |q| - (|indexes| - 1 - k)
    ensures RemoveDescending(q + [z], indexes + [|q|]) == RemoveDescending(q, indexes)
  {
    assert (indexes + [|q|])[..|indexes|] == indexes;
    assert RemoveAt(q + [z], |q|) == q;
  }

  /** The points with x different from m, in order. */
  function WithoutX(points: seq<PointM>, m: real): seq<PointM>
  {
    if |points| == 0 then []
    else
      var q, z := points[..|points| - 1], points[|points| - 1];
      if z.x == m then WithoutX(q, m) else WithoutX(q, m) + [z]
  }

  /** The rest keeps exactly the points with x different from m, and repeats none. */
  lemma {:induction false} WithoutXSpec(points: seq<PointM>, m: real)
    ensures forall p :: p in WithoutX(points, m) <==> p in points && p.x != m
    ensures NoDups(points) ==> NoDups(WithoutX(points, m))
  {
    if |points| > 0 {
      var q, z := points[..|points| - 1], points[|points| - 1];
      assert points == q + [z];
      assert NoDups(points) ==> NoDups(q) && z !in q;
      WithoutXSpec(q, m);
    }
  }

  /** Removing the indices of the points with x equal to m, highest first, leaves the
      other points in their order. */
  lemma {:induction false} RemoveIndexesWithX(points: seq<PointM>, m: real)
    ensures RemoveDescending(points, IndexesWithX(points, m)) == WithoutX(points, m)
  {
    if |points| > 0 {
      var q, z := points[..|points| - 1], points[|points| - 1];
      assert points == q + [z];
      RemoveIndexesWithX(q, m);
      var idx := IndexesWithX(q, m);
      if z.x == m {
        assert IndexesWithX(points, m) == idx + [|q|];
        RemoveLastIndex(q, z, idx);
        assert WithoutX(points, m) == WithoutX(q, m);
      } else {
        assert IndexesWithX(points, m) == idx;
        RemoveDescendingAppend(q, z, idx);
        assert WithoutX(points, m) == WithoutX(q, m) + [z];
      }
    }
  }

  /** `ComparisonPointsY`: −1 when the first point's y is at most the second's, else 1. */
  function ComparisonPointsY(first: PointM, second: PointM): int
  {
    if first.y <= second.y then -1 else 1
  }

  /** s is in ascending y. */
  predicate SortedByY(s: seq<PointM>)
  {
    forall i, j :: 0 <= i < j < |s| ==> s[i].y <= s[j].y
  }

  /** Insert p in front of the first entry it compares at most equal to. */
  function InsertByY(p: PointM, s: seq<PointM>): (r: seq<PointM>)
    ensures multiset(r) == multiset(s) + multiset{p}
  {
    if |s| == 0 then [p]
    else if ComparisonPointsY(p, s[0]) == -1 then [p] + s
    else
      assert s == [s[0]] + s[1..];
      [s[0]] + InsertByY(p, s[1..])
  }

  /** Inserting into a list in ascending y keeps it in ascending y. */
  lemma {:induction false} InsertByYSorted(p: PointM, s: seq<PointM>)
    requires SortedByY(s)
    ensures SortedByY(InsertByY(p, s))
  {
    if |s| > 0 && ComparisonPointsY(p, s[0]) != -1 {
      assert s == [s[0]] + s[1..];
      InsertByYSorted(p, s[1..]);
      var rest := InsertByY(p, s[1..]);
      forall k | 0 <= k < |rest|
        ensures s[0].y <= rest[k].y
      {
        var x := rest[k];
        assert x in multiset(rest);
        if x != p {
          assert x in multiset(s[1..]);
          var i :| 0 <= i < |s[1..]| && s[1..][i] == x;
          assert s[i + 1] == x;
        }
      }
      assert InsertByY(p, s) == [s[0]] + rest;
    }
  }

  /** Inserting a new point into a list without repetitions keeps it so. */
  lemma {:induction false} InsertByYNoDups(p: PointM, s: seq<PointM>)
    requires NoDups(s) && p !in s
    ensures NoDups(InsertByY(p, s))
  {
    if |s| > 0 && ComparisonPointsY(p, s[0]) != -1 {
      assert s == [s[0]] + s[1..];
      InsertByYNoDups(p, s[1..]);
      var rest := InsertByY(p, s[1..]);
      assert s[0] !in s[1..];
      assert s[0] !in multiset(rest);
      assert InsertByY(p, s) == [s[0]] + rest;
    }
  }

  /** `leftPoints.Sort(ComparisonPointsY)`: the points in ascending y. */
  function SortByY(s: seq<PointM>): (r: seq<PointM>)
    ensures SortedByY(r)
    ensures multiset(r) == multiset(s)
    ensures NoDups(s) ==> NoDups(r)
  {
    if |s| == 0 then []
    else
      var q, z := s[..|s| - 1], s[|s| - 1];
      assert s == q + [z];
      assert NoDups(s) ==> NoDups(q) && z !in q;
      var sorted := SortByY(q);
      assert z in multiset(sorted) <==> z in multiset(q);
      InsertByYSorted(z, sorted);
      assert NoDups(s) ==> NoDups(InsertByY(z, sorted)) by {
        if NoDups(s) {
          InsertByYNoDups(z, sorted);
        }
      }
      InsertByY(z, sorted)
  }

  /** The result of one `NumberingNodes` call: the new grid nodes, the points left,
      and the next node number. */
  datatype Round = Round(nodes: seq<GridNode>, rest: seq<PointM>, count: int)

  /** The points numbered in order from countNodes on. */
  function Numbered(ps: seq<PointM>, countNodes: int): (r: seq<GridNode>)
    ensures |r| == |ps|
  {
    seq(|ps|, k requires 0 <= k < |ps| => GridNode(ps[k], countNodes + k))
  }

  /** The least x of a round, found from 100000 on. */
  function MinX(points: seq<PointM>): real
  {
    MinXFrom(points, 0, MinXStart)
  }

  /** The points a round numbers: those of least x, in ascending y. */
  function Column(points: seq<PointM>): seq<PointM>
  {
    SortByY(WithX(points, MinX(points)))
  }

  /** `NumberingNodes`: number the points of least x (that x found from 100000 on) in
      ascending y and remove them. */
  function NumberingNodes(points: seq<PointM>, countNodes: int): Round
  {
    var minX := MinXFrom(points, 0, MinXStart);
    var leftPoints := SortByY(WithX(points, minX));
    var rest := RemoveDescending(points, IndexesWithX(points, minX));
    Round(Numbered(leftPoints, countNodes), rest, countNodes + |leftPoints|)
  }

  /** Strict lexicographic order by x then y: the order of the node numbers. */
  predicate LexLess(a: PointM, b: PointM)
  {
    a.x < b.x || (a.x == b.x && a.y < b.y)
  }

  /** Some point lies at or left of the line x = 100000. */
  predicate SomeWithinStart(points: seq<PointM>)
  {
    exists k :: 0 <= k < |points| && points[k].x <= MinXStart
  }

  /** Sorted by y among points of one x and without repetitions means strictly
      ascending in y. */
  lemma SortedColumnStrict(s: seq<PointM>, m: real)
    requires SortedByY(s) && NoDups(s) && forall k :: 0 <= k < |s| ==> s[k].x == m
    ensures forall i, j :: 0 <= i < j < |s| ==> LexLess(s[i], s[j])
  {
    forall i, j | 0 <= i < j < |s|
      ensures LexLess(s[i], s[j])
    {
      assert s[i] != s[j];
    }
  }

  /** The column holds exactly the points of least x, without repetitions, in
      strictly ascending y. */
  lemma ColumnSpec(points: seq<PointM>)
    requires NoDups(points)
    ensures var c, m := Column(points), MinX(points);
      && (forall p :: p in c <==> p in points && p.x == m)
      && (forall k :: 0 <= k < |c| ==> c[k].x == m)
      && (forall i, j :: 0 <= i < j < |c| ==> LexLess(c[i], c[j]))
  {
    var m := MinX(points);
    var column := WithX(points, m);
    WithXSpec(points, m);
    var c := SortByY(column);
    forall p
      ensures p in c <==> p in column
    {
      assert p in c <==> p in multiset(c);
      assert p in column <==> p in multiset(column);
    }
    forall k | 0 <= k < |c|
      ensures c[k].x == m
    {
      assert c[k] in c;
    }
    SortedColumnStrict(c, m);
  }

  /** The numbered nodes of a round are the column, numbered from countNodes on. */
  lemma RoundNodes(points: seq<PointM>, countNodes: int)
    ensures var r, c := NumberingNodes(points, countNodes), Column(points);
      && |r.nodes| == |c| && r.count == countNodes + |c|
      && forall k :: 0 <= k < |c| ==> r.nodes[k] == GridNode(c[k], countNodes + k)
  {
  }

  /** The points a round keeps are those of larger x, in their order. */
  lemma RoundRest(points: seq<PointM>, countNodes: int)
    requires NoDups(points)
    ensures var r, m := NumberingNodes(points, countNodes), MinX(points);
      && r.rest == WithoutX(points, m)
      && NoDups(r.rest)
      && (forall p :: p in r.rest <==> p in points && p.x != m)
      && (forall j :: 0 <= j < |r.rest| ==> m < r.rest[j].x)
  {
    RemoveIndexesWithX(points, MinX(points));
    WithoutXSpec(points, MinX(points));
    var r := NumberingNodes(points, countNodes);
    forall j | 0 <= j < |r.rest|
      ensures MinX(points) < r.rest[j].x
    {
      assert r.rest[j] in r.rest;
    }
  }

  /** A round numbers and removes at least one point when some point lies within
      x <= 100000. */
  lemma RoundProgress(points: seq<PointM>, countNodes: int)
    requires NoDups(points) && SomeWithinStart(points)
    ensures var r := NumberingNodes(points, countNodes);
      |r.rest| < |points| && 0 < |r.nodes|
  {
    var m := MinX(points);
    MinXFromAttained(points, 0, MinXStart);
    RoundRest(points, countNodes);
    RoundNodes(points, countNodes);
    ColumnSpec(points);
    var k :| 0 <= k < |points| && points[k].x <= MinXStart;
    var w :| 0 <= w < |points| && points[w].x == m;
    assert points[w] in Column(points);
    WithoutXShorter(points, m, w);
  }

  /** A round numbers nothing and keeps every point when all points lie right of
      x = 100000. */
  lemma RoundStalls(points: seq<PointM>, countNodes: int)
    requires NoDups(points) && !SomeWithinStart(points)
    ensures var r := NumberingNodes(points, countNodes);
      r.nodes == [] && r.rest == points
  {
    var m := MinX(points);
    RoundRest(points, countNodes);
    RoundNodes(points, countNodes);
    ColumnSpec(points);
    MinXFromAttained(points, 0, MinXStart);
    assert m == MinXStart;
    assert Column(points) == [];
    WithoutXAll(points, m);
  }

  /** The points before a round are those it numbers and those it keeps. */
  lemma RoundCovers(points: seq<PointM>, countNodes: int)
    requires NoDups(points)
    ensures var r := NumberingNodes(points, countNodes);
      && (forall p :: p in points <==> p in r.rest || exists k :: 0 <= k < |r.nodes| && r.nodes[k].node == p)
      && (forall p :: p in r.rest ==> p in points)
  {
    RoundNodes(points, countNodes);
    RoundRest(points, countNodes);
    ColumnSpec(points);
    var r := NumberingNodes(points, countNodes);
    var c := Column(points);
    forall p
      ensures p in points <==> p in r.rest || exists k :: 0 <= k < |r.nodes| && r.nodes[k].node == p
    {
      if p in points && p !in r.rest {
        var k :| 0 <= k < |c| && c[k] == p;
        assert r.nodes[k].node == p;
      }
      if exists k :: 0 <= k < |r.nodes| && r.nodes[k].node == p {
        var k :| 0 <= k < |r.nodes| && r.nodes[k].node == p;
        assert c[k] in c;
      }
    }
  }

  /** The numbered points have the least x of the round. */
  lemma RoundLeast(points: seq<PointM>, countNodes: int)
    requires NoDups(points)
    ensures var r := NumberingNodes(points, countNodes);
      forall k, j :: 0 <= k < |r.nodes| && 0 <= j < |points| ==> r.nodes[k].node.x <= points[j].x
  {
    RoundNodes(points, countNodes);
    ColumnSpec(points);
  }

  /** A round on points without repetitions. When some point lies within x <= 100000
      the round numbers exactly the points of least x, in strictly ascending y, from
      countNodes on, and keeps the others, all of larger x; otherwise it numbers
      nothing and keeps every point. */
  lemma NumberingNodesSpec(points: seq<PointM>, countNodes: int)
    requires NoDups(points)
    ensures var r := NumberingNodes(points, countNodes);
      && r.count == countNodes + |r.nodes|
      && NoDups(r.rest)
      && (forall k :: 0 <= k < |r.nodes| ==> r.nodes[k].numNode == countNodes + k)
      && (forall i, j :: 0 <= i < j < |r.nodes| ==> LexLess(r.nodes[i].node, r.nodes[j].node))
      && (forall i, j :: 0 <= i < |r.nodes| && 0 <= j < |r.rest| ==> r.nodes[i].node.x < r.rest[j].x)
      && (forall p :: p in points <==> p in r.rest || exists k :: 0 <= k < |r.nodes| && r.nodes[k].node == p)
      && (forall p :: p in r.rest ==> p in points)
      && (forall k, j :: 0 <= k < |r.nodes| && 0 <= j < |points| ==> r.nodes[k].node.x <= points[j].x)
      && (SomeWithinStart(points) ==> |r.rest| < |points| && 0 < |r.nodes|)
      && (!SomeWithinStart(points) ==> r.nodes == [] && r.rest == points)
  {
    RoundNodes(points, countNodes);
    RoundRest(points, countNodes);
    ColumnSpec(points);
    RoundCovers(points, countNodes);
    RoundLeast(points, countNodes);
    if SomeWithinStart(points) {
      RoundProgress(points, countNodes);
    } else {
      RoundStalls(points, countNodes);
    }
  }

  /** Dropping a point that is there makes the list shorter. */
  lemma {:induction false} WithoutXShorter(points: seq<PointM>, m: real, w: int)
    requires 0 <= w < |points| && points[w].x == m
    ensures |WithoutX(points, m)| < |points|
  {
    var q := points[..|points| - 1];
    if w < |points| - 1 {
      assert q[w] == points[w];
      WithoutXShorter(q, m, w);
    } else {
      WithoutXAtMost(q, m);
    }
  }

  /** Filtering never lengthens. */
  lemma {:induction false} WithoutXAtMost(points: seq<PointM>, m: real)
    ensures |WithoutX(points, m)| <= |points|
  {
    if |points| > 0 {
      WithoutXAtMost(points[..|points| - 1], m);
    }
  }

  /** When no point has x equal to m, every point stays. */
  lemma {:induction false} WithoutXAll(points: seq<PointM>, m: real)
    requires forall k :: 0 <= k < |points| ==> points[k].x != m
    ensures WithoutX(points, m) == points
  {
    if |points| > 0 {
      var q := points[..|points| - 1];
      WithoutXAll(q, m);
      assert points == q + [points[|points| - 1]];
    }
  }

  // ---------------------------------------------------------------------------
  // The rounds and the mapping
  // ---------------------------------------------------------------------------

  /** The `while` loop of `DeterminingNodeNumbers`: rounds until no point is left. A
      round that numbers nothing leaves the state as it was, so the loop never ends. */
  function NumberFrom(points: seq<PointM>, countNodes: int): (r: Result<seq<GridNode>>)
    decreases |points|
  {
    if |points| == 0 then Ok([])
    else
      var round := NumberingNodes(points, countNodes);
      if |round.rest| >= |points| then Err(NonTermination)
      else
        var later :- NumberFrom(round.rest, round.count);
        Ok(round.nodes + later)
  }

  /** Every point lies within x <= 100000. */
  predicate AllWithinStart(points: seq<PointM>)
  {
    forall k :: 0 <= k < |points| ==> points[k].x <= MinXStart
  }

  /** The loop ends exactly when every point lies within x <= 100000. */
  lemma {:induction false} NumberFromTerminates(points: seq<PointM>, countNodes: int)
    requires NoDups(points)
    ensures NumberFrom(points, countNodes).Ok? <==> AllWithinStart(points)
    decreases |points|
  {
    if |points| > 0 {
      var round := NumberingNodes(points, countNodes);
      NumberingNodesSpec(points, countNodes);
      if SomeWithinStart(points) {
        NumberFromTerminates(round.rest, round.count);
        RestWithinStart(points, round);
      } else {
        assert points[0].x > MinXStart;
      }
    }
  }

  /** When some point lies within x <= 100000, the rest of the round is within exactly
      when all the points are. */
  lemma RestWithinStart(points: seq<PointM>, round: Round)
    requires SomeWithinStart(points)
    requires forall p :: p in points <==> p in round.rest || exists k :: 0 <= k < |round.nodes| && round.nodes[k].node == p
    requires forall k, j :: 0 <= k < |round.nodes| && 0 <= j < |points| ==> round.nodes[k].node.x <= points[j].x
    ensures AllWithinStart(round.rest) <==> AllWithinStart(points)
  {
    if AllWithinStart(points) {
      forall k | 0 <= k < |round.rest|
        ensures round.rest[k].x <= MinXStart
      {
        assert round.rest[k] in points;
      }
    } else {
      var w :| 0 <= w < |points| && points[w].x > MinXStart;
      assert points[w] in round.rest;
      var j :| 0 <= j < |round.rest| && round.rest[j] == points[w];
    }
  }

  /** The nodes a run produces: numbered in order from countNodes, strictly ascending
      by x then y, and exactly the given points. */
  ghost predicate NumberingOf(nodes: seq<GridNode>, points: seq<PointM>, countNodes: int)
  {
    && (forall k :: 0 <= k < |nodes| ==> nodes[k].numNode == countNodes + k)
    && (forall i, j :: 0 <= i < j < |nodes| ==> LexLess(nodes[i].node, nodes[j].node))
    && (forall p :: p in points <==> exists k :: 0 <= k < |nodes| && nodes[k].node == p)
  }

  /** A finished loop numbers the points column by column from countNodes on. */
  lemma {:induction false} NumberFromSpec(points: seq<PointM>, countNodes: int)
    requires NoDups(points)
    ensures NumberFrom(points, countNodes).Ok? ==> NumberingOf(NumberFrom(points, countNodes).value, points, countNodes)
    decreases |points|
  {
    if |points| > 0 {
      var round := NumberingNodes(points, countNodes);
      if |round.rest| < |points| {
        NumberingNodesSpec(points, countNodes);
        NumberFromSpec(round.rest, round.count);
        var rest := NumberFrom(round.rest, round.count);
        if rest.Ok? {
          NumberFromJoin(round, rest.value, points, countNodes);
        }
      }
    }
  }

  /** A round followed by the rest of the run numbers all the points. */
  lemma NumberFromJoin(round: Round, later: seq<GridNode>, points: seq<PointM>, countNodes: int)
    requires round.count == countNodes + |round.nodes|
    requires forall k :: 0 <= k < |round.nodes| ==> round.nodes[k].numNode == countNodes + k
    requires forall i, j :: 0 <= i < j < |round.nodes| ==> LexLess(round.nodes[i].node, round.nodes[j].node)
    requires forall i, j :: 0 <= i < |round.nodes| && 0 <= j < |round.rest| ==> round.nodes[i].node.x < round.rest[j].x
    requires forall p :: p in points <==> p in round.rest || exists k :: 0 <= k < |round.nodes| && round.nodes[k].node == p
    requires NumberingOf(later, round.rest, round.count)
    ensures NumberingOf(round.nodes + later, points, countNodes)
  {
    var all := round.nodes + later;
    var n := |round.nodes|;
    forall i, j | 0 <= i < j < |all|
      ensures LexLess(all[i].node, all[j].node)
    {
      if i < n && n <= j {
        assert later[j - n].node in round.rest;
      }
    }
    forall p
      ensures p in points <==> exists k :: 0 <= k < |all| && all[k].node == p
    {
      if p in round.rest {
        var k :| 0 <= k < |later| && later[k].node == p;
        assert all[n + k].node == p;
      }
      if exists k :: 0 <= k < |round.nodes| && round.nodes[k].node == p {
        var k :| 0 <= k < |round.nodes| && round.nodes[k].node == p;
        assert all[k].node == p;
      }
      if exists k :: 0 <= k < |all| && all[k].node == p {
        var k :| 0 <= k < |all| && all[k].node == p;
        if k >= n {
          assert later[k - n].node == p;
        }
      }
    }
  }

  /** `NumberNodeIsVertex` from i on: the number of the first grid node at the vertex,
      or −1. */
  function NodeFrom(nodes: seq<GridNode>, vertex: PointM, i: int): (r: int)
    requires 0 <= i <= |nodes|
    ensures (forall k :: i <= k < |nodes| ==> nodes[k].node != vertex) ==> r == -1
    ensures (exists k :: i <= k < |nodes| && nodes[k].node == vertex) ==>
      exists k :: i <= k < |nodes| && nodes[k].node == vertex && r == nodes[k].numNode
        && forall j :: i <= j < k ==> nodes[j].node != vertex
    decreases |nodes| - i
  {
    if i == |nodes| then -1
    else if vertex == nodes[i].node then nodes[i].numNode
    else NodeFrom(nodes, vertex, i + 1)
  }

  /** `NumberNodeIsVertex`: the number of the first grid node at the vertex, or −1 when
      there is none. */
  function NumberNodeIsVertex(nodes: seq<GridNode>, vertex: PointM): (r: int)
    ensures (forall k :: 0 <= k < |nodes| ==> nodes[k].node != vertex) ==> r == -1
    ensures (exists k :: 0 <= k < |nodes| && nodes[k].node == vertex) ==>
      exists k :: 0 <= k < |nodes| && nodes[k].node == vertex && r == nodes[k].numNode
        && forall j :: 0 <= j < k ==> nodes[j].node != vertex
  {
    NodeFrom(nodes, vertex, 0)
  }

  /** One step of `MappingNodesVertex`: record the number of vertex j when it has one. */
  function MapVertex(t: Triangle, nodes: seq<GridNode>, j: int): (r: Triangle)
    requires 0 <= j < 3
    ensures r.v0 == t.v0 && r.v1 == t.v1 && r.v2 == t.v2
    ensures forall k :: 0 <= k < 3 && k != j ==> r.nodes.At(k) == t.nodes.At(k)
  {
    var numNode := NumberNodeIsVertex(nodes, t.Vertex(j));
    if numNode != -1 then t.(nodes := SetNode(t.nodes, j, numNode)) else t
  }

  /** The inner loop of `MappingNodesVertex` for one triangle. */
  function MapTriangle(t: Triangle, nodes: seq<GridNode>): (r: Triangle)
  {
    MapVertex(MapVertex(MapVertex(t, nodes, 0), nodes, 1), nodes, 2)
  }

  /** Each vertex gets the number of its grid node, or keeps its old number when no
      grid node sits there; the vertices do not move. */
  lemma MapTriangleSpec(t: Triangle, nodes: seq<GridNode>)
    ensures var r := MapTriangle(t, nodes);
      && r.v0 == t.v0 && r.v1 == t.v1 && r.v2 == t.v2
      && forall j :: 0 <= j < 3 ==>
           var n := NumberNodeIsVertex(nodes, t.Vertex(j));
           r.nodes.At(j) == if n != -1 then n else t.nodes.At(j)
  {
    var t0 := MapVertex(t, nodes, 0);
    var t1 := MapVertex(t0, nodes, 1);
    assert t0.Vertex(1) == t.Vertex(1) && t1.Vertex(2) == t.Vertex(2);
  }

  /** `MappingNodesVertex`: every triangle records the numbers of its vertices. */
  function MappingNodesVertex(tris: seq<Triangle>, nodes: seq<GridNode>): (r: seq<Triangle>)
    ensures |r| == |tris|
  {
    seq(|tris|, i requires 0 <= i < |tris| => MapTriangle(tris[i], nodes))
  }

  /** With nodes numbered 1, 2, … in order, looking up a point that has a node gives
      the number of a node at that point. */
  lemma NumberedLookup(nodes: seq<GridNode>, v: PointM)
    requires forall k :: 0 <= k < |nodes| ==> nodes[k].numNode == k + 1
    requires exists k :: 0 <= k < |nodes| && nodes[k].node == v
    ensures var n := NumberNodeIsVertex(nodes, v);
      1 <= n <= |nodes| && nodes[n - 1].node == v
  {
    var n := NumberNodeIsVertex(nodes, v);
    var k :| 0 <= k < |nodes| && nodes[k].node == v && n == nodes[k].numNode;
    assert n == k + 1;
  }

  /** `r` is `t` with each vertex numbered by a grid node at that vertex: the
      vertices stay and entry j is the number of a node sitting at vertex j. */
  predicate NumberedFrom(r: Triangle, t: Triangle, nodes: seq<GridNode>)
  {
    forall j :: 0 <= j < 3 ==>
      && r.Vertex(j) == t.Vertex(j)
      && 1 <= r.nodes.At(j) <= |nodes|
      && nodes[r.nodes.At(j) - 1].node == t.Vertex(j)
  }

  /** With nodes numbered 1, 2, … in order, a triangle whose vertices all have a node
      records at each vertex the number of the node there. */
  lemma MapTriangleNumbered(t: Triangle, nodes: seq<GridNode>)
    requires forall k :: 0 <= k < |nodes| ==> nodes[k].numNode == k + 1
    requires forall j :: 0 <= j < 3 ==> exists k :: 0 <= k < |nodes| && nodes[k].node == t.Vertex(j)
    ensures NumberedFrom(MapTriangle(t, nodes), t, nodes)
  {
    MapTriangleSpec(t, nodes);
    forall j | 0 <= j < 3
      ensures var n := NumberNodeIsVertex(nodes, t.Vertex(j));
        1 <= n <= |nodes| && nodes[n - 1].node == t.Vertex(j)
    {
      NumberedLookup(nodes, t.Vertex(j));
    }
  }

  /** With nodes numbered 1, 2, … in order, every triangle whose vertices all have a
      node records at each vertex the number of the node there. */
  lemma MappingNodesVertexSpec(tris: seq<Triangle>, nodes: seq<GridNode>)
    requires forall k :: 0 <= k < |nodes| ==> nodes[k].numNode == k + 1
    requires forall i, j :: 0 <= i < |tris| && 0 <= j < 3 ==> exists k :: 0 <= k < |nodes| && nodes[k].node == tris[i].Vertex(j)
    ensures var r := MappingNodesVertex(tris, nodes);
      forall i :: 0 <= i < |tris| ==> NumberedFrom(r[i], tris[i], nodes)
  {
    var r := MappingNodesVertex(tris, nodes);
    forall i | 0 <= i < |tris|
      ensures NumberedFrom(r[i], tris[i], nodes)
    {
      assert r[i] == MapTriangle(tris[i], nodes);
      MapTriangleNumbered(tris[i], nodes);
    }
  }

  /** The outcome of `DeterminingNodeNumbers`: the grid nodes and the triangles with
      their node numbers filled in. */
  datatype Numbering = Numbering(gridNodes: seq<GridNode>, triangles: seq<Triangle>)

  /** `DeterminingNodeNumbers`: collect the distinct vertices, number them column by
      column from 1, then record the numbers in the triangles. */
  function DeterminingNodeNumbers(tris: seq<Triangle>): Result<Numbering>
  {
    var uniquePoints := Dedup(Vertices(tris));
    var gridNodes :- NumberFrom(uniquePoints, 1);
    Ok(Numbering(gridNodes, MappingNodesVertex(tris, gridNodes)))
  }

  /** The numbering ends exactly when no vertex lies right of x = 100000. */
  lemma DeterminingNodeNumbersTerminates(tris: seq<Triangle>)
    ensures DeterminingNodeNumbers(tris).Ok? <==> forall p :: IsVertex(tris, p) ==> p.x <= MinXStart
  {
    var uniquePoints := Dedup(Vertices(tris));
    NumberFromTerminates(uniquePoints, 1);
    forall p
      ensures IsVertex(tris, p) <==> p in uniquePoints
    {
      VerticesAreVertices(tris, p);
    }
    if AllWithinStart(uniquePoints) {
      forall p | IsVertex(tris, p)
        ensures p.x <= MinXStart
      {
        var k :| 0 <= k < |uniquePoints| && uniquePoints[k] == p;
      }
    }
  }

  /** A finished numbering gives the distinct vertices the numbers 1, 2, … in strictly
      ascending order of x then y, and every triangle keeps its vertices and records
      at each vertex the number of the grid node there. */
  lemma DeterminingNodeNumbersSpec(tris: seq<Triangle>)
    requires DeterminingNodeNumbers(tris).Ok?
    ensures var r := DeterminingNodeNumbers(tris).value;
      var nodes := r.gridNodes;
      && NumberingOf(nodes, Vertices(tris), 1)
      && |r.triangles| == |tris|
      && forall i, j :: 0 <= i < |tris| && 0 <= j < 3 ==>
           && r.triangles[i].Vertex(j) == tris[i].Vertex(j)
           && 1 <= r.triangles[i].nodes.At(j) <= |nodes|
           && nodes[r.triangles[i].nodes.At(j) - 1].node == tris[i].Vertex(j)
  {
    var vs := Vertices(tris);
    var uniquePoints := Dedup(vs);
    NumberFromSpec(uniquePoints, 1);
    var nodes := NumberFrom(uniquePoints, 1).value;
    forall i, j | 0 <= i < |tris| && 0 <= j < 3
      ensures exists k :: 0 <= k < |nodes| && nodes[k].node == tris[i].Vertex(j)
    {
      VerticesAreVertices(tris, tris[i].Vertex(j));
      assert tris[i].HasVertex(tris[i].Vertex(j));
      assert tris[i].Vertex(j) in uniquePoints;
    }
    MappingNodesVertexSpec(tris, nodes);
  }
}
