# Envelope graph node store, in Dafny

This project models the core of `EnvelopeGraph`, a wxWidgets control that shows
draggable nodes joined by straight lines, as used for an audio envelope. The
model covers three parts:

- the **node table**: an ordered list of integer points, capped at a maximum
  count, with `AddNode`, `RemoveNode` and `Clear`;
- the **index of the node being dragged**, which is -1 or a valid index;
- the **geometry helpers**: the square hit-test `IsPointInRegion`, and the
  mapping between a node's value and its display position
  (`GetNodeCentre` / `GetNodeFromCentre`).

The model follows the class declaration in `include/envelopegraph.h` and its
doc comments. The method bodies in the implementation file are not modelled.

Modules:

- `Geometry` (`geometry.dfy`) holds `Point` (a `wxPoint`), the hit-test and
  the display mapping. The mapping divides with C++ truncation toward zero
  (`TruncDiv`).
- `NodeTable` (`node_table.dfy`) holds the node table as a value. It defines
  ordering by x, insertion at a position, removal at an index, and how an
  index into the table follows those edits. `FindInsertIndex` is the
  left-to-right scan that finds where a new node goes.
- `Envelope` (`envelope_graph.dfy`) holds the class `EnvelopeGraph`. Its
  fields `nodes` and `dragNode` change in place. `Valid()` is the object
  invariant:
  - the table holds between 2 and `maxNodes` nodes;
  - the table is ordered by x;
  - every node's y lies within `minimumY`..`maximumY`;
  - `dragNode` is -1 or an index into the table;
  - both scales are positive, and the two default nodes satisfy the bounds.

  `RemoveNode` and `Clear` keep `Valid()` and state the new table exactly.
  `AddNode` keeps `Valid()` and states the new table up to the side of
  equal-x nodes on which the new node lands. The class also carries
  `GetNodeCentre` and `GetNodeFromCentre` over its own origin and scales,
  and a hit-test lemma over its own node radius. The configuration
  (`maxNodes`, the scales, the origin, the Y bounds, the node radius) is
  `const`, because nothing modelled changes it.

Modelling choices where the declaration leaves the behaviour open:

- `AddNode` fails when the table is full. Its contract promises success
  below capacity only for a node whose x is not yet in the table; whether a
  node with an x already present is accepted is left open. The method body
  accepts it. Its contract places the new node at some position that keeps
  the table ordered. Among nodes with the
  same x, which side the new node lands on is left open. The method body
  (`FindInsertIndex`) puts it before the first node whose x is not smaller.
- `AddNode` brings the new node's y within `minimumY`..`maximumY`
  (`ClampY`) before storing it. The declaration names the bounds of a node's
  y (lines 67-68) but not who enforces them or how; clamping, rather than
  refusing, is this model's choice, so that the only documented failure,
  a full table, stays the only one. The method body has no duplicate-x
  rejection, because the declaration documents none.
- "Cannot remove last two nodes" is read as a floor on the count.
  `RemoveNode` fails when the index is out of range or only two nodes remain.
- `m_ptOrigin` ("position of first node") is read as the display position
  of the first node, which is also the display offset of every node. The
  first default node therefore has the value (0, 0), which is drawn at
  `origin`.
- `Clear` ("clear all nodes") returns the graph to the two nodes it is
  created with: (0, 0) and `endNode`. It also ends any drag. The
  constructor takes both points as parameters, because the real defaults are
  fixed in the implementation file, which is not part of this model.
- When a node is inserted at or before the dragged node, `dragNode` moves
  up by one. When the dragged node is removed, `dragNode` becomes -1. When a
  node before it is removed, `dragNode` moves down by one. In every case the
  index keeps pointing at the same node.
- `GetNodeCentre` is modelled as `origin + node * scale`, per axis.
  `GetNodeFromCentre` is `(position - origin) / scale`, using C++ integer
  division.
- The hit-test counts the border of the square as inside.

## Model

| member | source | states |
|---|---|---|
| Envelope.EnvelopeGraph.constructor | include/envelopegraph.h:14-17 | a new graph holds its two default nodes, (0, 0) and the end node, in order, with no drag in progress, and satisfies the object invariant |
| Envelope.EnvelopeGraph.AddNode | include/envelopegraph.h:22-29 | fails when the count has reached the maximum, and succeeds when it has not and no node has the same x; on failure nothing changes; on success the node, its y clamped to the bounds, is inserted at a position fitting its x, so the count grows by one and the table stays ordered; the dragged node stays the dragged node |
| Envelope.EnvelopeGraph.RemoveNode | include/envelopegraph.h:31-37 | succeeds exactly when the index is in range and more than two nodes remain; on failure nothing changes; on success exactly the node at the index is removed; a drag of it ends and a drag of another node follows that node |
| Envelope.EnvelopeGraph.Clear | include/envelopegraph.h:39-42 | the table is back to its two default nodes, no drag is in progress, and the invariant holds again |
| Envelope.EnvelopeGraph.GetNodeCentre | include/envelopegraph.h:57 | the display position of a node, from the graph's own origin and scales; reading the node back from it gives the node |
| Envelope.EnvelopeGraph.GetNodeFromCentre | include/envelopegraph.h:58 | the node value at a display position; its centre is less than one scale step from the position and no farther from the origin |
| Envelope.EnvelopeGraph.FirstDefaultNodeAtOrigin | include/envelopegraph.h:69 | the first default node, (0, 0), is drawn at the origin, the position of the first node |
| Envelope.EnvelopeGraph.NodeHitsDisjoint | include/envelopegraph.h:56-60 | with the graph's node radius smaller than half a scale step, no display position hits two different node values |
| Envelope.ClampScenario | include/envelopegraph.h:22-29 | adding (50, 1000) to a graph with Y bounds -100..100 stores (50, 100) between the default nodes |
| NodeTable.ClampY | include/envelopegraph.h:67-68 | the clamped value lies within the bounds, and equals the input when the input already does |
| NodeTable.ClampYNearest | include/envelopegraph.h:67-68 | no value within the bounds is closer to the input than its clamp |
| Envelope.CapacityAndFloorScenario | include/envelopegraph.h:22-37 | with capacity three and defaults (0,0),(100,0): adding (50,20) places it in the middle; adding to the full table fails; removing index 1 restores the defaults; removing from two nodes fails |
| NodeTable.InsertionIndex | include/envelopegraph.h:27 | the insertion index lies within the table, every node before it is strictly left of the new x, and the node at it is not |
| NodeTable.FindInsertIndex | include/envelopegraph.h:27 | the left-to-right scan returns the insertion index |
| NodeTable.InsertionIndexUnique | include/envelopegraph.h:27 | any index with the insertion index's defining property is the insertion index |
| NodeTable.InsertionIndexIsInsertionPoint | include/envelopegraph.h:27 | in an ordered table the insertion index has no node to the right of x before it and none to the left from it on |
| NodeTable.InsertKeepsSorted | include/envelopegraph.h:27 | inserting at such a position keeps the table ordered by x |
| NodeTable.InsertionPointUnique | include/envelopegraph.h:27 | when no node shares the new x, only one position fits it, so the horizontal position decides where the node goes |
| NodeTable.InsertAt | include/envelopegraph.h:25-27 | after insertion, the table is one longer, the new node is at its index, earlier nodes are unchanged and later ones move up by one |
| NodeTable.RemoveAt | include/envelopegraph.h:31-37 | after removal, the table is one shorter, and every other node keeps its value and relative order |
| NodeTable.RemoveKeepsSorted | include/envelopegraph.h:31-37 | removing a node keeps the table ordered by x |
| NodeTable.InsertRemoveInverse | include/envelopegraph.h:22-37 | removing the node just inserted restores the table; putting a removed node back at its index restores the table |
| NodeTable.ShiftOnInsertTracks | include/envelopegraph.h:65 | after an insertion, -1 stays -1 and a valid drag index still names the same node |
| NodeTable.ShiftOnRemoveTracks | include/envelopegraph.h:65 | after a removal, the drag index is -1 exactly when there was no drag or its node was removed; otherwise it is valid and names the same node |
| Geometry.IsPointInRegion | include/envelopegraph.h:56 | the point is in the region exactly when both its horizontal and vertical distances from the centre are at most the radius |
| Geometry.DiscInsideRegion | include/envelopegraph.h:56 | every point within Euclidean distance `radius` of the centre is in the region |
| Geometry.RegionCornerOutsideDisc | include/envelopegraph.h:56 | for a positive radius, the corner of the square is in the region but outside the disc, so the region is a square and not a circle |
| Geometry.TruncDiv | include/envelopegraph.h:58 | division truncates toward zero, as C++ `int` division does: the quotient times the divisor lies between zero and the dividend, less than one divisor away from it |
| Geometry.TruncDivMultiple | include/envelopegraph.h:58 | a multiple of the divisor divides exactly, whatever its sign |
| Geometry.NodeFromCentreInverse | include/envelopegraph.h:57-58 | with positive scales, reading the node back from its display centre gives the node |
| Geometry.CentreOfNodeFromCentre | include/envelopegraph.h:57-58 | the centre of the node read back from any display position is less than one scale step from that position, and no farther from the origin |
| Geometry.NodeCentreOrder | include/envelopegraph.h:57 | with a positive horizontal scale, display centres have the same left-to-right order as the node values |
| Geometry.HitRegionsDisjoint | include/envelopegraph.h:56-57 | when a scale step is wider than a node's square, no display position hits two different nodes |

## Left out

- Drawing (`DrawGraph`, `OnPaint`), the colours and the text label: these are rendering through wxWidgets device contexts.
- The event table and the mouse, size and enter handlers (`OnMouseLeftDown`, `OnMotion`, `OnRightDown` and the rest): wx event dispatch, not modelled. The model keeps only the invariant on their state: `dragNode` is -1 or a valid index. Hit-testing across the table, the click offset `m_pointClickOffset` and any drag constraints are not modelled.
- The first node is not anchored at `origin` once the graph is edited: `AddNode` may place a node left of (0, 0), and `RemoveNode(0)` succeeds when more than two nodes remain. The declaration says where the first node is drawn, not that it is fixed.
- Scrolling (`SCROLL_RATE`, pixels per scroll unit) and the `wxScrolledWindow` base: this is toolkit state. The mapping has no scroll offset.
- The drag region (`wxRegion*`) and the parent window pointer: toolkit-owned objects.
- The `refresh` parameters are kept but ignored. They only ask for a repaint.
- Envelope.EnvelopeGraph.constructor: the real constructor takes only the parent window. The maximum count, scales, radius, Y bounds, origin and the second default node are parameters here, because their values are fixed in the implementation file, which is not part of this model. It requires the default nodes to lie within the Y bounds and in x order, so that a new graph satisfies the invariant.
- Envelope.EnvelopeGraph.AddNode: the contract does not say whether a node whose x is already in the table is accepted, nor on which side of equal-x nodes it lands, because the declaration does not say; the method body accepts it and places it before them.
- The C++ widths of `int` and `unsigned int` are not modelled. Counts, indices and coordinates are unbounded, so `GetNodeCentre` has no overflow.
- Sustain markers, change notifications and update inhibition are not modelled. Nothing in the class declaration provides them.
