// The node table of the envelope graph as a value: an ordered sequence of
// points, the insertion and removal that the graph performs on it, and how an
// index into the table (the dragged node) follows those edits.

module NodeTable {
  import opened Geometry

  /** Ordered by horizontal position, left to right (equal x allowed). */
  predicate Sorted(s: seq<Point>)
  {
    forall i, j :: 0 <= i < j < |s| ==> s[i].x <= s[j].x
  }

  /** `i` is a place where `p` may go by its horizontal position: no node
      before it lies to the right of `p`, no node from it on lies to the left. */
  predicate IsInsertionPoint(s: seq<Point>, i: int, p: Point)
  {
    0 <= i <= |s| &&
    (forall k :: 0 <= k < i ==> s[k].x <= p.x) &&
    (forall k :: i <= k < |s| ==> p.x <= s[k].x)
  }

  /** Every node's vertical value lies within [lo, hi]. */
  predicate WithinY(s: seq<Point>, lo: int, hi: int)
  {
    forall k :: 0 <= k < |s| ==> lo <= s[k].y <= hi
  }

  /** A vertical value brought into [lo, hi]: unchanged when already inside,
      otherwise the nearer bound. */
  function ClampY(y: int, lo: int, hi: int): (r: int)
    requires lo <= hi
    ensures lo <= r <= hi
    ensures lo <= y <= hi ==> r == y
  {
    if y < lo then lo else if hi < y then hi else y
  }

  /** No value of the range is closer to `y` than its clamp. */
  lemma ClampYNearest(y: int, lo: int, hi: int, w: int)
    requires lo <= hi && lo <= w <= hi
    ensures Abs(ClampY(y, lo, hi) - y) <= Abs(w - y)
  {
  }

  /** The table with `p` placed at index `i`. */
  function Insert(s: seq<Point>, i: nat, p: Point): seq<Point>
    requires i <= |s|
  {
    s[..i] + [p] + s[i..]
  }

  /** The table without the node at index `i`. */
  function Remove(s: seq<Point>, i: nat): seq<Point>
    requires i < |s|
  {
    s[..i] + s[i + 1..]
  }

  /** The index a node has after an insertion at `i` (-1, no node, stays -1). */
  function ShiftOnInsert(d: int, i: nat): int
  {
    if i <= d then d + 1 else d
  }

  /** The index a node has after the node at `i` is removed: -1 when it was
      the removed node itself. */
  function ShiftOnRemove(d: int, i: nat): int
  {
    if d == i then -1 else if i < d then d - 1 else d
  }

  /** Where a new node at horizontal position `x` goes: before the first node
      that is not to its left. */
  function InsertionIndex(s: seq<Point>, x: int): (i: nat)
    ensures i <= |s|
    ensures forall k :: 0 <= k < i ==> s[k].x < x
    ensures i < |s| ==> x <= s[i].x
  {
    if s == [] || x <= s[0].x then 0 else 1 + InsertionIndex(s[1..], x)
  }

  /** The scan that finds the insertion index, from the left. */
  method FindInsertIndex(s: seq<Point>, x: int) returns (i: nat)
    ensures i == InsertionIndex(s, x)
  {
    i := 0;
    while i < |s| && s[i].x < x
      invariant i <= |s|
      invariant forall k :: 0 <= k < i ==> s[k].x < x
    {
      i := i + 1;
    }
    InsertionIndexUnique(s, x, i);
  }

  /** The insertion index is the only index with its defining property. */
  lemma InsertionIndexUnique(s: seq<Point>, x: int, i: nat)
    requires i <= |s|
    requires forall k :: 0 <= k < i ==> s[k].x < x
    requires i < |s| ==> x <= s[i].x
    ensures i == InsertionIndex(s, x)
  {
  }

  /** In an ordered table the insertion index is an insertion point. */
  lemma InsertionIndexIsInsertionPoint(s: seq<Point>, p: Point)
    requires Sorted(s)
    ensures IsInsertionPoint(s, InsertionIndex(s, p.x), p)
  {
  }

  /** Placing a node at an insertion point keeps the table ordered. */
  lemma InsertKeepsSorted(s: seq<Point>, i: nat, p: Point)
    requires Sorted(s) && IsInsertionPoint(s, i, p)
    ensures Sorted(Insert(s, i, p))
  {
  }

  /** What the table holds after an insertion: the nodes before `i`, then `p`,
      then the rest shifted by one. */
  lemma InsertAt(s: seq<Point>, i: nat, p: Point, k: nat)
    requires i <= |s| && k <= |s|
    ensures |Insert(s, i, p)| == |s| + 1
    ensures Insert(s, i, p)[k] == if k < i then s[k] else if k == i then p else s[k - 1]
  {
  }

  /** When no node shares `p`'s horizontal position, the ordered table admits
      exactly one place for `p`. */
  lemma InsertionPointUnique(s: seq<Point>, i: int, j: int, p: Point)
    requires Sorted(s)
    requires IsInsertionPoint(s, i, p) && IsInsertionPoint(s, j, p)
    requires forall k :: 0 <= k < |s| ==> s[k].x != p.x
    ensures i == j
  {
    var m := if i < j then i else j;
    if m < |s| {
      assert s[m].x < p.x || p.x < s[m].x;
    }
  }

  /** Removing a node keeps the table ordered. */
  lemma RemoveKeepsSorted(s: seq<Point>, i: nat)
    requires Sorted(s) && i < |s|
    ensures Sorted(Remove(s, i))
  {
  }

  /** What the table holds after a removal: every other node keeps its value
      and relative order. */
  lemma RemoveAt(s: seq<Point>, i: nat, k: nat)
    requires i < |s| && k < |s| - 1
    ensures |Remove(s, i)| == |s| - 1
    ensures Remove(s, i)[k] == if k < i then s[k] else s[k + 1]
  {
  }

  /** Removing the node just inserted gives the table back, and inserting a
      removed node where it was restores the table. */
  lemma InsertRemoveInverse(s: seq<Point>, i: nat, p: Point)
    requires i <= |s|
    ensures Remove(Insert(s, i, p), i) == s
    ensures i < |s| ==> Insert(Remove(s, i), i, s[i]) == s
  {
  }

  /** An index that tracks a node through an insertion still points at the
      same node, and stays -1 when there was none. */
  lemma ShiftOnInsertTracks(s: seq<Point>, i: nat, p: Point, d: int)
    requires i <= |s| && (d == -1 || 0 <= d < |s|)
    ensures d == -1 ==> ShiftOnInsert(d, i) == -1
    ensures 0 <= d ==> 0 <= ShiftOnInsert(d, i) < |s| + 1 &&
                       Insert(s, i, p)[ShiftOnInsert(d, i)] == s[d]
  {
  }

  /** An index that tracks a node through a removal becomes -1 when its node
      is removed, and otherwise still points at the same node. */
  lemma ShiftOnRemoveTracks(s: seq<Point>, i: nat, d: int)
    requires i < |s| && (d == -1 || 0 <= d < |s|)
    ensures d == -1 || d == i <==> ShiftOnRemove(d, i) == -1
    ensures 0 <= d && d != i ==> 0 <= ShiftOnRemove(d, i) < |s| - 1 &&
                                 Remove(s, i)[ShiftOnRemove(d, i)] == s[d]
  {
  }
}
