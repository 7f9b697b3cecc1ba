/**
 * Integer 2D geometry of embedded-graphics: `Point`, `Size` and `Rectangle`
 * with the three operations the display and the text renderer rely on
 * (`intersection`, `bottom_right` and `points`).
 */
module Geometry {
  import opened Wrappers

  datatype Point = Point(x: int, y: int) {
    function Add(offset: Point): Point {
      Point(x + offset.x, y + offset.y)
    }
  }

  const Origin := Point(0, 0)

  datatype Size = Size(width: nat, height: nat)

  datatype Rectangle = Rectangle(topLeft: Point, size: Size)

  /** A rectangle that covers no pixel. */
  predicate IsEmpty(r: Rectangle) {
    r.size.width == 0 || r.size.height == 0
  }

  /** `Rectangle::contains`: the half-open box `[x, x + width) x [y, y + height)`. */
  predicate Contains(r: Rectangle, p: Point) {
    && r.topLeft.x <= p.x < r.topLeft.x + r.size.width
    && r.topLeft.y <= p.y < r.topLeft.y + r.size.height
  }

  function Min(a: int, b: int): int { if a <= b then a else b }
  function Max(a: int, b: int): int { if a <= b then b else a }

  /**
   * `Rectangle::bottom_right`: the inclusive bottom-right corner
   * `top_left + size - 1`, absent when either dimension is zero.
   */
  function BottomRight(r: Rectangle): (br: Option<Point>)
    ensures br.Some? <==> !IsEmpty(r)
    ensures br.Some? ==> Contains(r, br.value)
    ensures br.Some? ==> forall p :: Contains(r, p) ==> p.x <= br.value.x && p.y <= br.value.y
  {
    if IsEmpty(r) then None
    else Some(Point(r.topLeft.x + r.size.width - 1, r.topLeft.y + r.size.height - 1))
  }

  /**
   * `Rectangle::intersection`: the largest rectangle inside both; the zero
   * rectangle at the origin when they share no point.
   */
  function Intersection(a: Rectangle, b: Rectangle): (r: Rectangle)
    ensures forall p :: Contains(r, p) <==> Contains(a, p) && Contains(b, p)
    ensures IsEmpty(r) ==> r == Rectangle(Origin, Size(0, 0))
  {
    var left := Max(a.topLeft.x, b.topLeft.x);
    var top := Max(a.topLeft.y, b.topLeft.y);
    var right := Min(a.topLeft.x + a.size.width, b.topLeft.x + b.size.width);
    var bottom := Min(a.topLeft.y + a.size.height, b.topLeft.y + b.size.height);
    if left < right && top < bottom then
      Rectangle(Point(left, top), Size(right - left, bottom - top))
    else
      Rectangle(Origin, Size(0, 0))
  }

  /** The points of one row, left to right. */
  function Row(left: Point, width: nat): seq<Point> {
    seq(width, i => Point(left.x + i, left.y))
  }

  /** The points of `height` rows of `width` points starting at `topLeft`, row by row. */
  function RowsFrom(topLeft: Point, width: nat, height: nat): seq<Point>
    decreases height
  {
    if height == 0 then []
    else Row(topLeft, width) + RowsFrom(Point(topLeft.x, topLeft.y + 1), width, height - 1)
  }

  /** `Rectangle::points`: every point of the rectangle in row-major order. */
  function Points(r: Rectangle): seq<Point> {
    RowsFrom(r.topLeft, r.size.width, r.size.height)
  }

  lemma {:induction false} RowsFromLength(topLeft: Point, width: nat, height: nat)
    ensures |RowsFrom(topLeft, width, height)| == width * height
    decreases height
  {
    if height > 0 {
      RowsFromLength(Point(topLeft.x, topLeft.y + 1), width, height - 1);
      assert width * height == width + width * (height - 1);
    }
  }

  /** The row-major position of column `x` of row `y` in a raster `width` points wide. */
  function RasterIndex(width: nat, x: nat, y: nat): nat {
    y * width + x
  }

  lemma {:induction false} RowsFromAt(topLeft: Point, width: nat, height: nat, x: nat, y: nat)
    requires x < width && y < height
    ensures |RowsFrom(topLeft, width, height)| == width * height
    ensures RasterIndex(width, x, y) < width * height
    ensures RowsFrom(topLeft, width, height)[RasterIndex(width, x, y)] == Point(topLeft.x + x, topLeft.y + y)
    decreases height
  {
    RowsFromLength(topLeft, width, height);
    var next := Point(topLeft.x, topLeft.y + 1);
    RowsFromLength(next, width, height - 1);
    if y > 0 {
      RowsFromAt(next, width, height - 1, x, y - 1);
      assert RasterIndex(width, x, y) == width + RasterIndex(width, x, y - 1);
      assert width * height == width + width * (height - 1);
    }
  }

  lemma {:induction false} RowsFromMembers(topLeft: Point, width: nat, height: nat)
    ensures forall k :: 0 <= k < |RowsFrom(topLeft, width, height)| ==>
      Contains(Rectangle(topLeft, Size(width, height)), RowsFrom(topLeft, width, height)[k])
    decreases height
  {
    if height > 0 {
      RowsFromMembers(Point(topLeft.x, topLeft.y + 1), width, height - 1);
    }
  }

  lemma {:induction false} RowsFromDistinct(topLeft: Point, width: nat, height: nat)
    ensures forall i, j :: 0 <= i < j < |RowsFrom(topLeft, width, height)| ==>
      RowsFrom(topLeft, width, height)[i] != RowsFrom(topLeft, width, height)[j]
    decreases height
  {
    if height > 0 {
      var next := Point(topLeft.x, topLeft.y + 1);
      RowsFromDistinct(next, width, height - 1);
      RowsFromMembers(next, width, height - 1);
      var row, rest := Row(topLeft, width), RowsFrom(next, width, height - 1);
      var all := RowsFrom(topLeft, width, height);
      assert all == row + rest;
      forall i, j | 0 <= i < j < |all| ensures all[i] != all[j] {
        if j < |row| {
        } else if i < |row| {
          assert Contains(Rectangle(next, Size(width, height - 1)), rest[j - |row|]);
        } else {
          assert all[i] == rest[i - |row|] && all[j] == rest[j - |row|];
        }
      }
    }
  }

  /** There are `width * height` points. */
  lemma PointsLength(r: Rectangle)
    ensures |Points(r)| == r.size.width * r.size.height
  {
    RowsFromLength(r.topLeft, r.size.width, r.size.height);
  }

  /** The point at column `x` of row `y` comes at raster index `y * width + x`. */
  lemma PointsAt(r: Rectangle, x: nat, y: nat)
    requires x < r.size.width && y < r.size.height
    ensures RasterIndex(r.size.width, x, y) < |Points(r)|
    ensures Points(r)[RasterIndex(r.size.width, x, y)] == Point(r.topLeft.x + x, r.topLeft.y + y)
  {
    RowsFromAt(r.topLeft, r.size.width, r.size.height, x, y);
  }

  /** Every enumerated point lies in the rectangle, and none is enumerated twice. */
  lemma PointsInsideAndDistinct(r: Rectangle)
    ensures forall k :: 0 <= k < |Points(r)| ==> Contains(r, Points(r)[k])
    ensures forall i, j :: 0 <= i < j < |Points(r)| ==> Points(r)[i] != Points(r)[j]
  {
    RowsFromMembers(r.topLeft, r.size.width, r.size.height);
    RowsFromDistinct(r.topLeft, r.size.width, r.size.height);
  }

  /** A point is enumerated by `points` exactly when the rectangle contains it. */
  lemma PointsExactlyContained(r: Rectangle, p: Point)
    ensures p in Points(r) <==> Contains(r, p)
  {
    PointsInsideAndDistinct(r);
    if Contains(r, p) {
      PointsAt(r, p.x - r.topLeft.x, p.y - r.topLeft.y);
    }
  }
}
