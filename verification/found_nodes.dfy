/** FoundNodes.cs: the grid nodes lying on the borders that carry a set temperature.
    Each grid node is matched to the first border side it lies on (by the exact
    distance test of the source); when that border number is one of the temperature
    borders, the pair (border number, node number − 1) is recorded. */
module FoundNodes {
  import opened Points
  import opened Structs
  import opened Topology

  /** `DeterminingBorderNum` from side i on. */
  function BorderNumFrom(dist: (PointM, PointM) -> real, points: seq<PointM>, node: GridNode, i: int): (r: int)
    requires 0 <= i <= |points|
    ensures r == -1 || i <= r < |points|
    decreases |points| - i
  {
    if i == |points| then -1
    else if OnSegmentExact(dist, points[i], BorderEnd(points, i), node.node) then i
    else BorderNumFrom(dist, points, node, i + 1)
  }

  /** `DeterminingBorderNum`: the number of the first border side the node lies on,
      or −1 when it lies on none. */
  function DeterminingBorderNum(dist: (PointM, PointM) -> real, points: seq<PointM>, node: GridNode): (r: int)
    ensures r == -1 || 0 <= r < |points|
  {
    BorderNumFrom(dist, points, node, 0)
  }

  /** The node lies on border side i by the exact distance test. */
  predicate OnSide(dist: (PointM, PointM) -> real, points: seq<PointM>, node: GridNode, i: int)
    requires 0 <= i < |points|
  {
    OnSegmentExact(dist, points[i], BorderEnd(points, i), node.node)
  }

  /** The border number is −1 exactly when the node lies on no side; otherwise the
      node lies on that side and on none before it. */
  lemma {:induction false} BorderNumFromSpec(dist: (PointM, PointM) -> real, points: seq<PointM>, node: GridNode, i: int)
    requires 0 <= i <= |points|
    ensures var r := BorderNumFrom(dist, points, node, i);
      && (r == -1 <==> forall k :: i <= k < |points| ==> !OnSide(dist, points, node, k))
      && (r != -1 ==> OnSide(dist, points, node, r) && forall k :: i <= k < r ==> !OnSide(dist, points, node, k))
    decreases |points| - i
  {
    if i < |points| && !OnSide(dist, points, node, i) {
      BorderNumFromSpec(dist, points, node, i + 1);
    }
  }

  /** `DeterminingBorderNum` finds the first side the node lies on, and −1 exactly
      when there is none. */
  lemma DeterminingBorderNumSpec(dist: (PointM, PointM) -> real, points: seq<PointM>, node: GridNode)
    ensures var r := DeterminingBorderNum(dist, points, node);
      && (r == -1 <==> forall k :: 0 <= k < |points| ==> !OnSide(dist, points, node, k))
      && (r != -1 ==> OnSide(dist, points, node, r) && forall k :: 0 <= k < r ==> !OnSide(dist, points, node, k))
  {
    BorderNumFromSpec(dist, points, node, 0);
  }

  /** `BorderIsTempBorder` from entry i on. */
  function TempBorderFrom(temps: seq<TemperatureBorder>, numBorder: int, i: int): (r: bool)
    requires 0 <= i <= |temps|
    ensures r <==> exists k :: i <= k < |temps| && temps[k].numBorder == numBorder
    decreases |temps| - i
  {
    if i == |temps| then false
    else if temps[i].numBorder == numBorder then true
    else TempBorderFrom(temps, numBorder, i + 1)
  }

  /** `BorderIsTempBorder`: some temperature border has the given number. */
  function BorderIsTempBorder(temps: seq<TemperatureBorder>, numBorder: int): (r: bool)
    ensures r <==> exists k :: 0 <= k < |temps| && temps[k].numBorder == numBorder
  {
    TempBorderFrom(temps, numBorder, 0)
  }

  /** The grid node is recorded: its border number is a temperature border. */
  predicate Recorded(dist: (PointM, PointM) -> real, points: seq<PointM>, temps: seq<TemperatureBorder>, node: GridNode)
  {
    BorderIsTempBorder(temps, DeterminingBorderNum(dist, points, node))
  }

  /** The pair recorded for a grid node. */
  function Entry(dist: (PointM, PointM) -> real, points: seq<PointM>, node: GridNode): BorderNodeNums
  {
    BorderNodeNums(DeterminingBorderNum(dist, points, node), node.numNode - 1)
  }

  /** `FoundNodesNumber`: for each grid node in turn, record (border number, node
      number − 1) when its border is a temperature border. */
  function FoundNodesNumber(dist: (PointM, PointM) -> real, gridNodes: seq<GridNode>, points: seq<PointM>, temps: seq<TemperatureBorder>): (r: seq<BorderNodeNums>)
    ensures |r| <= |gridNodes|
  {
    if |gridNodes| == 0 then []
    else
      var before := FoundNodesNumber(dist, gridNodes[..|gridNodes| - 1], points, temps);
      var node := gridNodes[|gridNodes| - 1];
      if Recorded(dist, points, temps, node) then before + [Entry(dist, points, node)] else before
  }

  /** The recorded pairs are exactly those of the recorded grid nodes, in the order of
      the grid nodes: origins[k] is the grid node behind entry k. */
  lemma {:induction false} FoundNodesNumberOrigins(dist: (PointM, PointM) -> real, gridNodes: seq<GridNode>, points: seq<PointM>, temps: seq<TemperatureBorder>)
    returns (origins: seq<int>)
    ensures var r := FoundNodesNumber(dist, gridNodes, points, temps);
      && |origins| == |r|
      && (forall k :: 0 <= k < |origins| ==> 0 <= origins[k] < |gridNodes|)
      && (forall k, l :: 0 <= k < l < |origins| ==> origins[k] < origins[l])
      && (forall k :: 0 <= k < |origins| ==>
            Recorded(dist, points, temps, gridNodes[origins[k]]) && r[k] == Entry(dist, points, gridNodes[origins[k]]))
      && (forall i :: 0 <= i < |gridNodes| && Recorded(dist, points, temps, gridNodes[i]) ==> i in origins)
  {
    if |gridNodes| == 0 {
      origins := [];
    } else {
      var n := |gridNodes| - 1;
      var prefix := gridNodes[..n];
      var before := FoundNodesNumberOrigins(dist, prefix, points, temps);
      var rb := FoundNodesNumber(dist, prefix, points, temps);
      assert forall i :: 0 <= i < n ==> prefix[i] == gridNodes[i];
      if Recorded(dist, points, temps, gridNodes[n]) {
        assert FoundNodesNumber(dist, gridNodes, points, temps) == rb + [Entry(dist, points, gridNodes[n])];
        origins := before + [n];
      } else {
        assert FoundNodesNumber(dist, gridNodes, points, temps) == rb;
        origins := before;
      }
      forall i | 0 <= i < |gridNodes| && Recorded(dist, points, temps, gridNodes[i])
        ensures i in origins
      {
        if i < n {
          assert Recorded(dist, points, temps, prefix[i]);
          assert i in before;
        }
      }
    }
  }

  /** When no temperature border has the number −1, every recorded node lies on the
      border side recorded with it, and on no side before it. */
  lemma FoundNodesOnBorder(dist: (PointM, PointM) -> real, gridNodes: seq<GridNode>, points: seq<PointM>, temps: seq<TemperatureBorder>)
    requires forall k :: 0 <= k < |temps| ==> temps[k].numBorder != -1
    ensures var r := FoundNodesNumber(dist, gridNodes, points, temps);
      forall k :: 0 <= k < |r| ==>
        && 0 <= r[k].numBorder < |points|
        && (exists i :: 0 <= i < |gridNodes| && r[k].numNode == gridNodes[i].numNode - 1
              && OnSide(dist, points, gridNodes[i], r[k].numBorder)
              && forall s :: 0 <= s < r[k].numBorder ==> !OnSide(dist, points, gridNodes[i], s))
  {
    var r := FoundNodesNumber(dist, gridNodes, points, temps);
    var origins := FoundNodesNumberOrigins(dist, gridNodes, points, temps);
    forall k | 0 <= k < |r|
      ensures && 0 <= r[k].numBorder < |points|
              && (exists i :: 0 <= i < |gridNodes| && r[k].numNode == gridNodes[i].numNode - 1
                    && OnSide(dist, points, gridNodes[i], r[k].numBorder)
                    && forall s :: 0 <= s < r[k].numBorder ==> !OnSide(dist, points, gridNodes[i], s))
    {
      var i := origins[k];
      DeterminingBorderNumSpec(dist, points, gridNodes[i]);
      assert r[k].numBorder != -1;
    }
  }

  /** The quirk of the −1 border: when some temperature border has the number −1,
      every grid node that lies on no border side is recorded, with border −1. */
  lemma FoundNodesOffBorder(dist: (PointM, PointM) -> real, gridNodes: seq<GridNode>, points: seq<PointM>, temps: seq<TemperatureBorder>, i: int)
    requires exists k :: 0 <= k < |temps| && temps[k].numBorder == -1
    requires 0 <= i < |gridNodes| && forall s :: 0 <= s < |points| ==> !OnSide(dist, points, gridNodes[i], s)
    ensures BorderNodeNums(-1, gridNodes[i].numNode - 1) in FoundNodesNumber(dist, gridNodes, points, temps)
  {
    DeterminingBorderNumSpec(dist, points, gridNodes[i]);
    var origins := FoundNodesNumberOrigins(dist, gridNodes, points, temps);
    var k :| 0 <= k < |origins| && origins[k] == i;
  }
}
