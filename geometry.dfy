/**
 * Rectangles on the map, used to describe rooms (the `Rect` class).
 */
module Geometry {

  /** A rectangle given by its two corners; `x2 = x1 + w` and `y2 = y1 + h`. */
  datatype Rect = Rect(x1: int, y1: int, x2: int, y2: int)

  /** `Rect(x, y, w, h)`: the rectangle whose top-left corner is (x, y), w wide and h high. */
  function NewRect(x: int, y: int, w: int, h: int): (r: Rect)
    ensures r.x1 == x && r.y1 == y
    ensures r.x2 - r.x1 == w && r.y2 - r.y1 == h
  {
    Rect(x, y, x + w, y + h)
  }

  /** The closed rectangle contains (x, y), corners and edges included. */
  predicate Contains(r: Rect, x: int, y: int)
  {
    r.x1 <= x <= r.x2 && r.y1 <= y <= r.y2
  }

  /** (x, y) lies strictly inside the rectangle, off its edges: the tiles a room carves. */
  predicate InInterior(r: Rect, x: int, y: int)
  {
    r.x1 < x < r.x2 && r.y1 < y < r.y2
  }

  /**
   * `center`: the midpoint of each axis, rounded down (Python's `//` by 2; Dafny's
   * `/` by a positive divisor rounds down as well, negative operands included).
   */
  function Center(r: Rect): (c: (int, int))
    ensures r.x1 + r.x2 - 1 <= 2 * c.0 <= r.x1 + r.x2
    ensures r.y1 + r.y2 - 1 <= 2 * c.1 <= r.y1 + r.y2
    ensures r.x1 + 2 <= r.x2 && r.y1 + 2 <= r.y2 ==> InInterior(r, c.0, c.1)
  {
    ((r.x1 + r.x2) / 2, (r.y1 + r.y2) / 2)
  }

  /** `intersect`: the closed intervals overlap on both axes, so touching rectangles intersect. */
  predicate Intersect(a: Rect, b: Rect)
  {
    a.x1 <= b.x2 && a.x2 >= b.x1 && a.y1 <= b.y2 && a.y2 >= b.y1
  }

  /** Neither corner lies past the other: what every `Rect(x, y, w, h)` with w, h >= 0 is. */
  predicate Proper(r: Rect)
  {
    r.x1 <= r.x2 && r.y1 <= r.y2
  }

  lemma IntersectSymmetric(a: Rect, b: Rect)
    ensures Intersect(a, b) <==> Intersect(b, a)
  {
  }

  /**
   * The inclusive test means exactly that the two closed rectangles share a tile.
   */
  lemma IntersectIffSharedTile(a: Rect, b: Rect)
    requires Proper(a) && Proper(b)
    ensures Intersect(a, b) <==> exists x, y :: Contains(a, x, y) && Contains(b, x, y)
  {
    if Intersect(a, b) {
      var x := if a.x1 <= b.x1 then b.x1 else a.x1;
      var y := if a.y1 <= b.y1 then b.y1 else a.y1;
      assert Contains(a, x, y) && Contains(b, x, y);
    }
  }

  /**
   * Two rooms that do not intersect keep their carved interiors apart: between any
   * interior tile of one and any interior tile of the other lie at least two wall
   * tiles along some axis.
   */
  lemma SeparatedInteriors(a: Rect, b: Rect, p: (int, int), q: (int, int))
    requires !Intersect(a, b)
    requires InInterior(a, p.0, p.1) && InInterior(b, q.0, q.1)
    ensures p.0 - q.0 >= 3 || q.0 - p.0 >= 3 || p.1 - q.1 >= 3 || q.1 - p.1 >= 3
  {
  }

  /** Overlapping, edge-touching and distant rooms. */
  lemma IntersectExamples()
    ensures Intersect(NewRect(0, 0, 5, 5), NewRect(4, 4, 5, 5))
    ensures Intersect(NewRect(0, 0, 5, 5), NewRect(5, 0, 5, 5))
    ensures !Intersect(NewRect(0, 0, 5, 5), NewRect(10, 10, 5, 5))
    ensures Center(NewRect(0, 0, 5, 5)) == (2, 2) && Center(NewRect(10, 10, 5, 5)) == (12, 12)
  {
  }
}
