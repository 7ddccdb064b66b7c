// The envelope graph widget's node store: the table of nodes, its capacity,
// the index of the node being dragged and the display mapping parameters.

module Envelope {
  import opened Geometry
  import opened NodeTable

  class EnvelopeGraph {
    /** Maximum quantity of nodes. */
    const maxNodes: nat
    /** Half-side of a node's hit square. */
    const nodeRadius: nat
    /** Display units per data unit, per axis. */
    const scaleX: int
    const scaleY: int
    /** Vertical bounds of every node's value. */
    const minimumY: int
    const maximumY: int
    /** Display position of the first node of a new or cleared graph, whose
        value is (0, 0); the display offset of every node. */
    const origin: Point
    /** Value of the second node of a new or cleared graph. */
    const endNode: Point

    /** Index of the node being dragged; -1 for none. */
    var dragNode: int
    /** Table of nodes. */
    var nodes: seq<Point>

    ghost predicate Valid()
      reads this
    {
      2 <= |nodes| <= maxNodes &&
      Sorted(nodes) &&
      WithinY(nodes, minimumY, maximumY) &&
      (dragNode == -1 || 0 <= dragNode < |nodes|) &&
      0 < scaleX && 0 < scaleY &&
      0 <= endNode.x && minimumY <= 0 <= maximumY && minimumY <= endNode.y <= maximumY
    }

    /** The display position of a node (GetNodeCentre); reading the node back
        from it gives the node. */
    function GetNodeCentre(ptNode: Point): (c: Point)
      requires 0 < scaleX && 0 < scaleY
      ensures GetNodeFromCentre(c) == ptNode
    {
      NodeFromCentreInverse(ptNode, origin, scaleX, scaleY);
      NodeCentre(ptNode, origin, scaleX, scaleY)
    }

    /** The node value shown at a display position (GetNodeFromCentre): its
        centre lies less than one scale step from the position, toward the
        origin. */
    function GetNodeFromCentre(ptPos: Point): (n: Point)
      requires 0 < scaleX && 0 < scaleY
      ensures var c := NodeCentre(n, origin, scaleX, scaleY);
        Abs(ptPos.x - c.x) < scaleX && Abs(ptPos.y - c.y) < scaleY &&
        Abs(c.x - origin.x) <= Abs(ptPos.x - origin.x) && Abs(c.y - origin.y) <= Abs(ptPos.y - origin.y)
    {
      CentreOfNodeFromCentre(ptPos, origin, scaleX, scaleY);
      NodeFromCentre(ptPos, origin, scaleX, scaleY)
    }

    /** With nodes spaced wider than their hit squares, a display position hits
        at most one node value. */
    lemma NodeHitsDisjoint(a: Point, b: Point, pos: Point)
      requires 2 * nodeRadius < scaleX && 2 * nodeRadius < scaleY
      requires a != b
      ensures !(IsPointInRegion(pos, GetNodeCentre(a), nodeRadius) &&
                IsPointInRegion(pos, GetNodeCentre(b), nodeRadius))
    {
      HitRegionsDisjoint(a, b, pos, origin, scaleX, scaleY, nodeRadius);
    }

    /** The first node of a new or cleared graph, (0, 0), is drawn at `origin`. */
    lemma FirstDefaultNodeAtOrigin()
      requires 0 < scaleX && 0 < scaleY
      ensures GetNodeCentre(Point(0, 0)) == origin
    {
    }

    /** A graph holding its two default nodes, with no drag in progress. */
    constructor (maxNodes: nat, nodeRadius: nat, scaleX: int, scaleY: int,
                 minimumY: int, maximumY: int, origin: Point, endNode: Point)
      requires 2 <= maxNodes && 0 < scaleX && 0 < scaleY && 0 <= endNode.x
      requires minimumY <= 0 <= maximumY && minimumY <= endNode.y <= maximumY
      ensures Valid()
      ensures nodes == [Point(0, 0), endNode] && dragNode == -1
      ensures this.maxNodes == maxNodes && this.nodeRadius == nodeRadius
      ensures this.scaleX == scaleX && this.scaleY == scaleY
      ensures this.minimumY == minimumY && this.maximumY == maximumY
      ensures this.origin == origin && this.endNode == endNode
    {
      this.maxNodes, this.nodeRadius := maxNodes, nodeRadius;
      this.scaleX, this.scaleY := scaleX, scaleY;
      this.minimumY, this.maximumY := minimumY, maximumY;
      this.origin, this.endNode := origin, endNode;
      nodes := [Point(0, 0), endNode];
      dragNode := -1;
    }

    /** Adds `node`, its vertical value brought within the bounds, at its
        horizontal position; fails, changing nothing, when the table is full,
        and succeeds when it is not and no node has the same x.
        The dragged node, if any, stays the dragged node. `refresh` only asks
        for a repaint. */
    method AddNode(node: Point, refresh: bool := true) returns (ok: bool)
      requires Valid()
      modifies this
      ensures Valid()
      ensures |old(nodes)| >= maxNodes ==> !ok
      ensures |old(nodes)| < maxNodes && (forall k :: 0 <= k < |old(nodes)| ==> old(nodes)[k].x != node.x) ==> ok
      ensures !ok ==> nodes == old(nodes) && dragNode == old(dragNode)
      ensures ok ==> var stored := Point(node.x, ClampY(node.y, minimumY, maximumY));
                     exists i :: IsInsertionPoint(old(nodes), i, stored) &&
                                 nodes == Insert(old(nodes), i, stored) &&
                                 dragNode == ShiftOnInsert(old(dragNode), i)
    {
      if |nodes| >= maxNodes {
        return false;
      }
      var stored := Point(node.x, ClampY(node.y, minimumY, maximumY));
      var i := FindInsertIndex(nodes, stored.x);
      InsertionIndexIsInsertionPoint(nodes, stored);
      InsertKeepsSorted(nodes, i, stored);
      ShiftOnInsertTracks(nodes, i, stored, dragNode);
      forall k | 0 <= k < |nodes| + 1
        ensures minimumY <= Insert(nodes, i, stored)[k].y <= maximumY
      {
        InsertAt(nodes, i, stored, k);
      }
      nodes := Insert(nodes, i, stored);
      dragNode := ShiftOnInsert(dragNode, i);
      ok := true;
    }

    /** Removes the node at `index`; fails, changing nothing, when `index` is
        out of range or only two nodes remain. A drag of the removed node ends;
        a drag of another node follows that node. */
    method RemoveNode(index: nat, refresh: bool := true) returns (ok: bool)
      requires Valid()
      modifies this
      ensures Valid()
      ensures ok <==> index < |old(nodes)| && 2 < |old(nodes)|
      ensures !ok ==> nodes == old(nodes) && dragNode == old(dragNode)
      ensures ok ==> nodes == Remove(old(nodes), index) &&
                     dragNode == ShiftOnRemove(old(dragNode), index)
    {
      if |nodes| <= 2 || |nodes| <= index {
        return false;
      }
      RemoveKeepsSorted(nodes, index);
      ShiftOnRemoveTracks(nodes, index, dragNode);
      forall k | 0 <= k < |nodes| - 1
        ensures minimumY <= Remove(nodes, index)[k].y <= maximumY
      {
        RemoveAt(nodes, index, k);
      }
      nodes := Remove(nodes, index);
      dragNode := ShiftOnRemove(dragNode, index);
      ok := true;
    }

    /** Clears the graph back to its two default nodes and ends any drag. */
    method Clear(refresh: bool := true)
      requires Valid()
      modifies this
      ensures Valid()
      ensures nodes == [Point(0, 0), endNode] && dragNode == -1
    {
      nodes := [Point(0, 0), endNode];
      dragNode := -1;
    }
  }

  /** The documented rules on a small graph of capacity three: a node is placed
      between the default nodes by its x, the full table refuses another node,
      removing the new node restores the defaults, and the last two nodes stay. */
  method CapacityAndFloorScenario() returns (added: bool, refused: bool, removed: bool, removedAtFloor: bool, afterAdd: seq<Point>, afterRemove: seq<Point>)
    ensures added && !refused && removed && !removedAtFloor
    ensures afterAdd == [Point(0, 0), Point(50, 20), Point(100, 0)]
    ensures afterRemove == [Point(0, 0), Point(100, 0)]
  {
    var g := new EnvelopeGraph(3, 4, 1, 1, 0, 100, Point(10, 10), Point(100, 0));
    var defaults := g.nodes;
    assert ClampY(20, g.minimumY, g.maximumY) == 20;
    added := g.AddNode(Point(50, 20));
    var i :| IsInsertionPoint(defaults, i, Point(50, 20)) && g.nodes == Insert(defaults, i, Point(50, 20));
    InsertionPointUnique(defaults, i, 1, Point(50, 20));
    afterAdd := g.nodes;
    refused := g.AddNode(Point(70, 5));
    removed := g.RemoveNode(1);
    afterRemove := g.nodes;
    removedAtFloor := g.RemoveNode(0);
  }

  /** A node added above the vertical bound is stored at the bound. */
  method ClampScenario() returns (added: bool, afterAdd: seq<Point>)
    ensures added
    ensures afterAdd == [Point(0, 0), Point(50, 100), Point(100, 0)]
  {
    var g := new EnvelopeGraph(5, 4, 2, 2, -100, 100, Point(0, 0), Point(100, 0));
    var defaults := g.nodes;
    assert ClampY(1000, g.minimumY, g.maximumY) == 100;
    added := g.AddNode(Point(50, 1000));
    var i :| IsInsertionPoint(defaults, i, Point(50, 100)) && g.nodes == Insert(defaults, i, Point(50, 100));
    InsertionPointUnique(defaults, i, 1, Point(50, 100));
    afterAdd := g.nodes;
  }
}
