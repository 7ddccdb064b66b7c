// Geometry helpers of the envelope graph: the square hit-test around a node
// and the mapping between a node's data value and its position in the display.

module Geometry {

  /** An integer point, as a wxPoint: a node's data value or a display position. */
  datatype Point = Point(x: int, y: int)

  function Abs(n: int): nat
  {
    if n < 0 then -n else n
  }

  /** The hit-test. Although the parameter is called `radius`, the region is the
      axis-aligned square of half-side `radius` around `centre`, borders included. */
  function IsPointInRegion(point: Point, centre: Point, radius: nat): (inside: bool)
    ensures inside <==> Abs(point.x - centre.x) <= radius && Abs(point.y - centre.y) <= radius
  {
    centre.x - radius <= point.x <= centre.x + radius &&
    centre.y - radius <= point.y <= centre.y + radius
  }

  /** The disc that "within radius of centre" would describe; the reference the
      square hit-test is compared with. */
  predicate InDisc(point: Point, centre: Point, radius: nat)
  {
    var dx, dy := point.x - centre.x, point.y - centre.y;
    dx * dx + dy * dy <= radius * radius
  }

  lemma SquareExceeds(d: int, r: nat)
    requires r < Abs(d)
    ensures r * r < d * d
  {
    var a := Abs(d);
    assert d * d == a * a;
    assert r * r <= r * a;
    assert r * a < a * a;
  }

  /** Every point of the disc is in the hit region: the square never misses a
      click that the circle drawn around the node would catch. */
  lemma DiscInsideRegion(point: Point, centre: Point, radius: nat)
    requires InDisc(point, centre, radius)
    ensures IsPointInRegion(point, centre, radius)
  {
    var dx, dy := point.x - centre.x, point.y - centre.y;
    assert 0 <= dx * dx && 0 <= dy * dy;
    if radius < Abs(dx) {
      SquareExceeds(dx, radius);
    }
    if radius < Abs(dy) {
      SquareExceeds(dy, radius);
    }
  }

  /** The converse fails: a corner of the square is in the region but outside
      the disc, so the region is genuinely a square and not a circle. */
  lemma RegionCornerOutsideDisc(centre: Point, radius: nat)
    requires 0 < radius
    ensures IsPointInRegion(Point(centre.x + radius, centre.y + radius), centre, radius)
    ensures !InDisc(Point(centre.x + radius, centre.y + radius), centre, radius)
  {
  }

  /** Products with a positive factor keep the sign of the other factor. */
  lemma MulSign(k: int, b: int)
    requires 0 < b
    ensures 0 < k ==> b <= k * b
    ensures k == 0 ==> k * b == 0
    ensures k < 0 ==> k * b <= -b
    decreases Abs(k)
  {
    if 0 < k {
      MulSign(k - 1, b);
      assert k * b == (k - 1) * b + b;
    } else if k < 0 {
      MulSign(k + 1, b);
      assert k * b == (k + 1) * b - b;
    }
  }

  /** Euclidean division of a non-negative dividend, with the bounds spelt out. */
  lemma DivBounds(a: nat, b: int)
    requires 0 < b
    ensures 0 <= (a / b) * b <= a < (a / b) * b + b
  {
    var q, r := a / b, a % b;
    assert a == q * b + r && 0 <= r < b;
    MulSign(q, b);
  }

  /** Integer division as C++ performs it on `int`: the quotient is truncated
      toward zero (Dafny's own `/` rounds toward minus infinity for a negative
      dividend). */
  function TruncDiv(a: int, b: int): (q: int)
    requires 0 < b
    ensures 0 <= a ==> 0 <= q * b <= a < q * b + b
    ensures a < 0 ==> q * b - b < a <= q * b <= 0
  {
    if 0 <= a then
      DivBounds(a, b);
      a / b
    else
      DivBounds(-a, b);
      assert -((-a) / b) * b == -(((-a) / b) * b);
      -((-a) / b)
  }

  /** A multiple of the divisor is divided exactly. */
  lemma TruncDivMultiple(n: int, b: int)
    requires 0 < b
    ensures TruncDiv(n * b, b) == n
  {
    var q := TruncDiv(n * b, b);
    assert n * b - q * b == (n - q) * b;
    if q != n {
      MulSign(n - q, b);
    }
  }

  /** The display position of a node: the origin plus the node's value scaled
      per axis (GetNodeCentre). */
  function NodeCentre(node: Point, origin: Point, scaleX: int, scaleY: int): Point
  {
    Point(origin.x + node.x * scaleX, origin.y + node.y * scaleY)
  }

  /** The node value shown at a display position (GetNodeFromCentre): the
      offset from the origin divided by the scale, truncated as in C++. */
  function NodeFromCentre(pos: Point, origin: Point, scaleX: int, scaleY: int): Point
    requires 0 < scaleX && 0 < scaleY
  {
    Point(TruncDiv(pos.x - origin.x, scaleX), TruncDiv(pos.y - origin.y, scaleY))
  }

  /** Recovering a node from its own centre gives the node back. */
  lemma NodeFromCentreInverse(node: Point, origin: Point, scaleX: int, scaleY: int)
    requires 0 < scaleX && 0 < scaleY
    ensures NodeFromCentre(NodeCentre(node, origin, scaleX, scaleY), origin, scaleX, scaleY) == node
  {
    TruncDivMultiple(node.x, scaleX);
    TruncDivMultiple(node.y, scaleY);
  }

  /** The other direction: the centre of the node read back from any display
      position lies less than one scale step from that position, toward the
      origin, and equals it when the position is a node centre. */
  lemma CentreOfNodeFromCentre(pos: Point, origin: Point, scaleX: int, scaleY: int)
    requires 0 < scaleX && 0 < scaleY
    ensures var c := NodeCentre(NodeFromCentre(pos, origin, scaleX, scaleY), origin, scaleX, scaleY);
      Abs(pos.x - c.x) < scaleX && Abs(pos.y - c.y) < scaleY &&
      Abs(c.x - origin.x) <= Abs(pos.x - origin.x) && Abs(c.y - origin.y) <= Abs(pos.y - origin.y)
  {
  }

  /** The mapping keeps the horizontal order of nodes, so a table ordered by x
      is drawn left to right. */
  lemma NodeCentreOrder(a: Point, b: Point, origin: Point, scaleX: int, scaleY: int)
    requires 0 < scaleX
    ensures a.x <= b.x <==> NodeCentre(a, origin, scaleX, scaleY).x <= NodeCentre(b, origin, scaleX, scaleY).x
  {
    assert NodeCentre(b, origin, scaleX, scaleY).x - NodeCentre(a, origin, scaleX, scaleY).x == (b.x - a.x) * scaleX;
    MulSign(b.x - a.x, scaleX);
  }

  /** When a scale step is wider than a node's square, no display position hits
      two different nodes. */
  lemma HitRegionsDisjoint(a: Point, b: Point, pos: Point, origin: Point, scaleX: int, scaleY: int, radius: nat)
    requires 2 * radius < scaleX && 2 * radius < scaleY
    requires a != b
    ensures !(IsPointInRegion(pos, NodeCentre(a, origin, scaleX, scaleY), radius) &&
              IsPointInRegion(pos, NodeCentre(b, origin, scaleX, scaleY), radius))
  {
    var ca, cb := NodeCentre(a, origin, scaleX, scaleY), NodeCentre(b, origin, scaleX, scaleY);
    if a.x != b.x {
      StepApart(a.x, b.x, scaleX);
      assert scaleX <= Abs(ca.x - cb.x);
    } else {
      StepApart(a.y, b.y, scaleY);
      assert scaleY <= Abs(ca.y - cb.y);
    }
  }

  lemma StepApart(m: int, n: int, s: int)
    requires m != n && 0 < s
    ensures s <= Abs(m * s - n * s)
  {
    assert m * s - n * s == (m - n) * s;
    MulSign(m - n, s);
  }
}
