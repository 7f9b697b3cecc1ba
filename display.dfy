/**
 * `TinySkiaDisplay`: a draw target over a tiny-skia pixmap, a `width` by
 * `height` buffer of four bytes per pixel stored row by row.
 *
 * Per-pixel writes (`draw_pixel`, `draw_iter`, `fill_contiguous`) are
 * modelled byte for byte. `fill_solid` hands a rectangle to tiny-skia's
 * rasteriser, which is not modelled: the display records each rectangle and
 * paint it hands over in `rectFills`.
 */
module Display {
  import opened Wrappers
  import opened Geometry
  import opened Color

  /** One pixel of an embedded-graphics pixel stream. */
  datatype Pixel = Pixel(pos: Point, color: Rgb888)

  /**
   * When `Pixmap::new` succeeds: both dimensions non-zero and a row of
   * `width * 4` bytes within the `i32` range tiny-skia uses for strides.
   */
  predicate PixmapCreatable(width: U32, height: U32) {
    0 < width && 0 < height && width * 4 <= I32_MAX
  }

  /** `v as i32`: a `u32` reinterpreted as a two's-complement `i32`. */
  function AsI32(v: U32): (r: int)
    ensures v <= I32_MAX ==> r == v
    ensures I32_MAX < v ==> r < 0
  {
    if v <= I32_MAX then v else v - 0x1_0000_0000
  }

  /**
   * The bounds check of `draw_pixel`, which compares against
   * `width as i32` and `height as i32`: a dimension of 2^31 or more wraps
   * to a negative bound and admits no position.
   */
  predicate InBounds(width: U32, height: U32, p: Point) {
    0 <= p.x < AsI32(width) && 0 <= p.y < AsI32(height)
  }

  /** Within `i32` range, the bounds check is exactly the display rectangle. */
  lemma InBoundsIsDisplayRect(width: U32, height: U32, p: Point)
    ensures InBounds(width, height, p) ==> Contains(Rectangle(Origin, Size(width, height)), p)
    ensures width <= I32_MAX && height <= I32_MAX ==>
      (InBounds(width, height, p) <==> Contains(Rectangle(Origin, Size(width, height)), p))
    ensures I32_MAX < height ==> !InBounds(width, height, p)
  {
  }

  /** `(y * width + x) * 4`: the first byte of the pixel at `p`. */
  function ByteIndex(width: nat, p: Point): nat
    requires 0 <= p.x && 0 <= p.y
  {
    RasterIndex(width, p.x, p.y) * 4
  }

  /** The index arithmetic of `draw_pixel` never leaves the buffer. */
  lemma ByteIndexInRange(width: U32, height: U32, p: Point)
    requires InBounds(width, height, p)
    ensures ByteIndex(width, p) + 3 < width * height * 4
  {
    var x: nat, y: nat := p.x, p.y;
    assert RasterIndex(width, x, y) < (y + 1) * width;
    assert (y + 1) * width <= height * width;
  }

  /** Distinct pixels own disjoint groups of four bytes. */
  lemma ByteIndexDisjoint(width: U32, height: U32, p: Point, q: Point)
    requires InBounds(width, height, p) && InBounds(width, height, q) && p != q
    ensures ByteIndex(width, p) + 4 <= ByteIndex(width, q) || ByteIndex(width, q) + 4 <= ByteIndex(width, p)
  {
    var lp, lq := RasterIndex(width, p.x, p.y), RasterIndex(width, q.x, q.y);
    if p.y < q.y {
      assert lp < (p.y + 1) * width;
      MulMono(p.y + 1, q.y, width);
      assert lp < lq;
    } else if q.y < p.y {
      assert lq < (q.y + 1) * width;
      MulMono(q.y + 1, p.y, width);
      assert lq < lp;
    }
    assert lp != lq;
  }

  /** Multiplication by a natural number is monotone. */
  lemma MulMono(a: nat, b: nat, c: nat)
    requires a <= b
    ensures a * c <= b * c
  {
  }

  /** Whether a write at `p` lands on byte `k`. */
  predicate WritesByte(width: U32, height: U32, p: Point, k: int) {
    InBounds(width, height, p) && ByteIndex(width, p) <= k < ByteIndex(width, p) + 4
  }

  /** The four bytes stored for the pixel at `p`. */
  function PixelBytes(buf: seq<byte>, width: U32, height: U32, p: Point): Rgba8
    requires |buf| == width * height * 4 && InBounds(width, height, p)
  {
    ByteIndexInRange(width, height, p);
    var i := ByteIndex(width, p);
    (buf[i], buf[i + 1], buf[i + 2], buf[i + 3])
  }

  /**
   * `draw_pixel` on the buffer: an in-bounds pixel gets the colour's bytes;
   * no other byte changes, and an out-of-bounds pixel changes nothing.
   */
  function DrawPixelSpec(buf: seq<byte>, width: U32, height: U32, target: Target, px: Pixel): (r: seq<byte>)
    requires |buf| == width * height * 4
    ensures |r| == |buf|
    ensures InBounds(width, height, px.pos) ==> PixelBytes(r, width, height, px.pos) == Rgba(px.color, target)
    ensures forall k :: 0 <= k < |buf| && !WritesByte(width, height, px.pos, k) ==> r[k] == buf[k]
  {
    if InBounds(width, height, px.pos) then
      ByteIndexInRange(width, height, px.pos);
      var i := ByteIndex(width, px.pos);
      var q := Rgba(px.color, target);
      buf[i := q.0][i + 1 := q.1][i + 2 := q.2][i + 3 := q.3]
    else
      buf
  }

  /** A pixel write leaves every other pixel's bytes as they were. */
  lemma DrawPixelKeepsOthers(buf: seq<byte>, width: U32, height: U32, target: Target, px: Pixel, p: Point)
    requires |buf| == width * height * 4 && InBounds(width, height, p) && px.pos != p
    ensures PixelBytes(DrawPixelSpec(buf, width, height, target, px), width, height, p) == PixelBytes(buf, width, height, p)
  {
    ByteIndexInRange(width, height, p);
    if InBounds(width, height, px.pos) {
      ByteIndexDisjoint(width, height, px.pos, p);
    }
  }

  /** `draw_iter` on the buffer: `draw_pixel` for each pixel, in order. */
  function DrawIterSpec(buf: seq<byte>, width: U32, height: U32, target: Target, pixels: seq<Pixel>): (r: seq<byte>)
    requires |buf| == width * height * 4
    ensures |r| == |buf|
    decreases |pixels|
  {
    if pixels == [] then buf
    else
      var n := |pixels| - 1;
      DrawPixelSpec(DrawIterSpec(buf, width, height, target, pixels[..n]), width, height, target, pixels[n])
  }

  /**
   * Later pixels win: the last pixel of the stream at an in-bounds position
   * decides that position's bytes.
   */
  lemma {:induction false} DrawIterLastWriteWins(buf: seq<byte>, width: U32, height: U32, target: Target, pixels: seq<Pixel>, k: nat)
    requires |buf| == width * height * 4
    requires k < |pixels| && InBounds(width, height, pixels[k].pos)
    requires forall j :: k < j < |pixels| ==> pixels[j].pos != pixels[k].pos
    ensures PixelBytes(DrawIterSpec(buf, width, height, target, pixels), width, height, pixels[k].pos)
         == Rgba(pixels[k].color, target)
    decreases |pixels|
  {
    var n := |pixels| - 1;
    var before := DrawIterSpec(buf, width, height, target, pixels[..n]);
    if k < n {
      DrawIterLastWriteWins(buf, width, height, target, pixels[..n], k);
      DrawPixelKeepsOthers(before, width, height, target, pixels[n], pixels[k].pos);
    }
  }

  /** A position no pixel of the stream names keeps its bytes. */
  lemma {:induction false} DrawIterUntouched(buf: seq<byte>, width: U32, height: U32, target: Target, pixels: seq<Pixel>, p: Point)
    requires |buf| == width * height * 4 && InBounds(width, height, p)
    requires forall j :: 0 <= j < |pixels| ==> pixels[j].pos != p
    ensures PixelBytes(DrawIterSpec(buf, width, height, target, pixels), width, height, p) == PixelBytes(buf, width, height, p)
    decreases |pixels|
  {
    if pixels != [] {
      var n := |pixels| - 1;
      DrawIterUntouched(buf, width, height, target, pixels[..n], p);
      DrawPixelKeepsOthers(DrawIterSpec(buf, width, height, target, pixels[..n]), width, height, target, pixels[n], p);
    }
  }

  /** A stream of out-of-bounds pixels leaves the buffer as it was. */
  lemma {:induction false} DrawIterOutOfBoundsNoOp(buf: seq<byte>, width: U32, height: U32, target: Target, pixels: seq<Pixel>)
    requires |buf| == width * height * 4
    requires forall j :: 0 <= j < |pixels| ==> !InBounds(width, height, pixels[j].pos)
    ensures DrawIterSpec(buf, width, height, target, pixels) == buf
    decreases |pixels|
  {
    if pixels != [] {
      DrawIterOutOfBoundsNoOp(buf, width, height, target, pixels[..|pixels| - 1]);
    }
  }

  /** A tiny-skia `Rect` given by its left, top, width and height. */
  datatype SkiaRect = SkiaRect(left: int, top: int, width: int, height: int)

  /** `Rect::from_xywh`: no rectangle for a negative width or height. */
  function FromXywh(x: int, y: int, w: int, h: int): Option<SkiaRect> {
    if 0 <= w && 0 <= h then Some(SkiaRect(x, y, w, h)) else None
  }

  /** One `fill_rect` call handed to tiny-skia. */
  datatype RectFill = RectFill(rect: SkiaRect, paint: Paint)

  /**
   * The geometry `fill_solid` computes: the area clipped to the display; no
   * fill when the clipped area is empty; otherwise the rectangle from the
   * clipped top-left to the inclusive bottom-right corner, which is one
   * pixel narrower and one pixel shorter than the clipped area. The error
   * branch is unreachable for integer geometry.
   */
  function FillSolidGeometry(area: Rectangle, size: Size): (r: Result<Option<SkiaRect>, string>)
    ensures r.Ok?
    ensures r.value.None? <==> IsEmpty(Intersection(area, Rectangle(Origin, size)))
    ensures r.value.Some? ==>
      var clip := Intersection(area, Rectangle(Origin, size));
      && r.value.value.left == clip.topLeft.x && r.value.value.top == clip.topLeft.y
      && r.value.value.width == clip.size.width - 1 && r.value.value.height == clip.size.height - 1
  {
    var clip := Intersection(area, Rectangle(Origin, size));
    match BottomRight(clip)
    case None => Ok(None)
    case Some(br) =>
      match FromXywh(clip.topLeft.x, clip.topLeft.y, br.x - clip.topLeft.x, br.y - clip.topLeft.y)
      case Some(rect) => Ok(Some(rect))
      case None => Err("Cannot create tiny-skia rect")
  }

  /** Keeps the pixels of `pixels` that `clip` contains, in order. */
  function FilterContained(clip: Rectangle, pixels: seq<Pixel>): seq<Pixel>
    decreases |pixels|
  {
    if pixels == [] then []
    else
      var rest := FilterContained(clip, pixels[1..]);
      if Contains(clip, pixels[0].pos) then [pixels[0]] + rest else rest
  }

  /** Pairs the k-th point with the k-th colour, up to the shorter of the two. */
  function Zip(points: seq<Point>, colors: seq<Rgb888>): seq<Pixel> {
    seq(Min(|points|, |colors|), k requires 0 <= k < Min(|points|, |colors|) => Pixel(points[k], colors[k]))
  }

  /** The pixel stream of `fill_contiguous`: points of the clip zipped with colours, filtered by the clip. */
  function ClippedPixels(clip: Rectangle, colors: seq<Rgb888>): seq<Pixel> {
    FilterContained(clip, Zip(Points(clip), colors))
  }

  lemma {:induction false} FilterContainedKeepsAll(clip: Rectangle, pixels: seq<Pixel>)
    requires forall k :: 0 <= k < |pixels| ==> Contains(clip, pixels[k].pos)
    ensures FilterContained(clip, pixels) == pixels
    decreases |pixels|
  {
    if pixels != [] {
      FilterContainedKeepsAll(clip, pixels[1..]);
    }
  }

  /**
   * The filter of `fill_contiguous` drops nothing: its stream pairs the k-th
   * row-major point of the clip with the k-th colour.
   */
  lemma ClippedPixelsPairing(clip: Rectangle, colors: seq<Rgb888>)
    ensures |ClippedPixels(clip, colors)| == Min(|Points(clip)|, |colors|)
    ensures forall k :: 0 <= k < |ClippedPixels(clip, colors)| ==>
      ClippedPixels(clip, colors)[k] == Pixel(Points(clip)[k], colors[k])
  {
    PointsInsideAndDistinct(clip);
    FilterContainedKeepsAll(clip, Zip(Points(clip), colors));
  }

  /** `fill_contiguous` on the buffer. */
  function FillContiguousSpec(buf: seq<byte>, width: U32, height: U32, target: Target, area: Rectangle, colors: seq<Rgb888>): (r: seq<byte>)
    requires |buf| == width * height * 4
    ensures |r| == |buf|
  {
    var clip := Intersection(area, Rectangle(Origin, Size(width, height)));
    if clip.size != Size(0, 0) then DrawIterSpec(buf, width, height, target, ClippedPixels(clip, colors))
    else buf
  }

  /**
   * `fill_contiguous` paints the k-th row-major point of the clipped area
   * with the k-th colour.
   */
  lemma FillContiguousPairsInRasterOrder(buf: seq<byte>, width: U32, height: U32, target: Target, area: Rectangle, colors: seq<Rgb888>, k: nat)
    requires |buf| == width * height * 4
    requires k < |colors|
    requires k < |Points(Intersection(area, Rectangle(Origin, Size(width, height))))|
    ensures var p := Points(Intersection(area, Rectangle(Origin, Size(width, height))))[k];
      && Contains(area, p) && Contains(Rectangle(Origin, Size(width, height)), p)
      && (height <= I32_MAX && width <= I32_MAX ==> InBounds(width, height, p))
      && (InBounds(width, height, p) ==>
          PixelBytes(FillContiguousSpec(buf, width, height, target, area, colors), width, height, p) == Rgba(colors[k], target))
  {
    var clip := Intersection(area, Rectangle(Origin, Size(width, height)));
    var pixels := ClippedPixels(clip, colors);
    PointsInsideAndDistinct(clip);
    ClippedPixelsPairing(clip, colors);
    PointsLength(clip);
    var p := Points(clip)[k];
    assert Contains(clip, p);
    if InBounds(width, height, p) {
      DrawIterLastWriteWins(buf, width, height, target, pixels, k);
    }
  }

  /**
   * `fill_contiguous` changes no pixel outside the clipped area, and no pixel
   * of the clipped area beyond the end of the colour sequence.
   */
  lemma FillContiguousUntouched(buf: seq<byte>, width: U32, height: U32, target: Target, area: Rectangle, colors: seq<Rgb888>, p: Point)
    requires |buf| == width * height * 4 && InBounds(width, height, p)
    requires var pts := Points(Intersection(area, Rectangle(Origin, Size(width, height))));
      forall k :: 0 <= k < |pts| && pts[k] == p ==> |colors| <= k
    ensures PixelBytes(FillContiguousSpec(buf, width, height, target, area, colors), width, height, p)
         == PixelBytes(buf, width, height, p)
  {
    var clip := Intersection(area, Rectangle(Origin, Size(width, height)));
    if clip.size != Size(0, 0) {
      ClippedPixelsPairing(clip, colors);
      DrawIterUntouched(buf, width, height, target, ClippedPixels(clip, colors), p);
    }
  }

  /** In particular a pixel outside the area, or a zero-size clip, is never touched. */
  lemma FillContiguousOutsideArea(buf: seq<byte>, width: U32, height: U32, target: Target, area: Rectangle, colors: seq<Rgb888>, p: Point)
    requires |buf| == width * height * 4 && InBounds(width, height, p) && !Contains(area, p)
    ensures PixelBytes(FillContiguousSpec(buf, width, height, target, area, colors), width, height, p)
         == PixelBytes(buf, width, height, p)
  {
    var clip := Intersection(area, Rectangle(Origin, Size(width, height)));
    PointsInsideAndDistinct(clip);
    FillContiguousUntouched(buf, width, height, target, area, colors, p);
  }

  class TinySkiaDisplay {
    const width: U32
    const height: U32
    const target: Target
    /** The pixmap's bytes. */
    const data: array<byte>
    /** The `fill_rect` calls handed to tiny-skia so far, oldest first. */
    var rectFills: seq<RectFill>

    ghost predicate Valid() {
      PixmapCreatable(width, height) && data.Length == width * height * 4
    }

    constructor (width: U32, height: U32, target: Target)
      requires PixmapCreatable(width, height)
      ensures Valid() && fresh(data)
      ensures this.width == width && this.height == height && this.target == target
      ensures forall k :: 0 <= k < data.Length ==> data[k] == 0
      ensures rectFills == []
    {
      this.width, this.height, this.target := width, height, target;
      data := new byte[width * height * 4](_ => 0);
      rectFills := [];
    }

    /** `TinySkiaDisplay::new`: fails exactly when the pixmap cannot be created. */
    static method New(width: U32, height: U32, target: Target) returns (r: Result<TinySkiaDisplay, string>)
      ensures r.Ok? <==> PixmapCreatable(width, height)
      ensures r.Ok? ==> fresh(r.value) && fresh(r.value.data) && r.value.Valid()
      ensures r.Ok? ==> r.value.DisplaySize() == Size(width, height) && r.value.target == target
      ensures r.Ok? ==> r.value.BoundingBox() == Rectangle(Origin, Size(width, height))
      ensures r.Ok? ==> forall k :: 0 <= k < |r.value.Data()| ==> r.value.Data()[k] == 0
      ensures r.Ok? ==> r.value.rectFills == []
    {
      if PixmapCreatable(width, height) {
        var d := new TinySkiaDisplay(width, height, target);
        r := Ok(d);
      } else {
        r := Err("Cannot create tiny-skia Pixmap");
      }
    }

    function DisplaySize(): Size {
      Size(width, height)
    }

    /** `bounding_box`: the rectangle at the origin that holds exactly the drawable positions. */
    function BoundingBox(): (r: Rectangle)
      ensures forall p :: InBounds(width, height, p) ==> Contains(r, p)
      ensures width <= I32_MAX && height <= I32_MAX ==> forall p :: Contains(r, p) <==> InBounds(width, height, p)
    {
      Rectangle(Origin, DisplaySize())
    }

    /** `data`: the pixmap's bytes, `width * height * 4` of them. */
    function Data(): (bytes: seq<byte>)
      requires Valid()
      reads data
      ensures |bytes| == width * height * 4
    {
      data[..]
    }

    /** `draw_pixel`: a bounds-checked write of the colour's four bytes. */
    method DrawPixel(position: Point, color: Rgb888)
      requires Valid()
      modifies data
      ensures data[..] == DrawPixelSpec(old(data[..]), width, height, target, Pixel(position, color))
    {
      var (r, g, b, a) := Rgba(color, target);
      if position.x >= 0 && position.y >= 0 && position.x < AsI32(width) && position.y < AsI32(height) {
        var index := (position.y * width + position.x) * 4;
        ByteIndexInRange(width, height, position);
        data[index] := r;
        data[index + 1] := g;
        data[index + 2] := b;
        data[index + 3] := a;
      }
    }

    /** `draw_iter`: `draw_pixel` for every pixel of the stream, in order; never fails. */
    method DrawIter(pixels: seq<Pixel>) returns (r: Result<(), string>)
      requires Valid()
      modifies data
      ensures r.Ok?
      ensures data[..] == DrawIterSpec(old(data[..]), width, height, target, pixels)
    {
      var i := 0;
      while i < |pixels|
        invariant 0 <= i <= |pixels|
        invariant data[..] == DrawIterSpec(old(data[..]), width, height, target, pixels[..i])
      {
        DrawPixel(pixels[i].pos, pixels[i].color);
        assert pixels[..i + 1][..i] == pixels[..i];
        i := i + 1;
      }
      assert pixels[..i] == pixels;
      r := Ok(());
    }

    /**
     * `fill_solid`: hands tiny-skia the rectangle `FillSolidGeometry` computes,
     * with the colour's paint, unless the clipped area is empty. tiny-skia's
     * `fill_rect` may then write any pixel of the clipped area, so the buffer
     * is in the frame; for an empty clip it is untouched, and pixels outside
     * the clipped area keep their bytes either way.
     */
    method FillSolid(area: Rectangle, color: Rgb888) returns (r: Result<(), string>)
      requires Valid()
      modifies this`rectFills, data
      ensures r.Ok?
      ensures rectFills == old(rectFills) +
        match FillSolidGeometry(area, DisplaySize())
        case Ok(Some(rect)) => [RectFill(rect, ConvertColorToPaint(color, target))]
        case _ => []
      ensures FillSolidGeometry(area, DisplaySize()).value.None? ==> data[..] == old(data[..])
      ensures forall p :: InBounds(width, height, p) && !Contains(Intersection(area, Rectangle(Origin, DisplaySize())), p) ==>
        PixelBytes(data[..], width, height, p) == PixelBytes(old(data[..]), width, height, p)
    {
      var geometry := FillSolidGeometry(area, DisplaySize());
      match geometry {
        case Ok(None) =>
          r := Ok(());
        case Ok(Some(rect)) =>
          rectFills := rectFills + [RectFill(rect, ConvertColorToPaint(color, target))];
          r := Ok(());
        case Err(e) =>
          r := Err(e);
      }
    }

    /**
     * `fill_contiguous`: draws the clipped area's points, row by row, with the
     * colours of the sequence, one each; never fails.
     */
    method FillContiguous(area: Rectangle, colors: seq<Rgb888>) returns (r: Result<(), string>)
      requires Valid()
      modifies data
      ensures r.Ok?
      ensures data[..] == FillContiguousSpec(old(data[..]), width, height, target, area, colors)
    {
      var clip := Intersection(area, BoundingBox());
      if clip.size != Size(0, 0) {
        var pixels := ClippedPixels(clip, colors);
        var i := 0;
        while i < |pixels|
          invariant 0 <= i <= |pixels|
          invariant data[..] == DrawIterSpec(old(data[..]), width, height, target, pixels[..i])
        {
          DrawPixel(pixels[i].pos, pixels[i].color);
          assert pixels[..i + 1][..i] == pixels[..i];
          i := i + 1;
        }
        assert pixels[..i] == pixels;
      }
      r := Ok(());
    }

    /** `flip`: copies the whole buffer into `surface`; the buffer itself is not cleared. */
    method Flip(surface: array<byte>)
      requires Valid() && surface.Length == data.Length && surface != data
      modifies surface
      ensures surface[..] == data[..]
      ensures data[..] == old(data[..])
    {
      var i := 0;
      while i < surface.Length
        invariant 0 <= i <= surface.Length
        invariant surface[..i] == data[..i]
      {
        surface[i] := data[i];
        assert surface[..i + 1] == surface[..i] + [surface[i]];
        assert data[..i + 1] == data[..i] + [data[i]];
        i := i + 1;
      }
      assert surface[..] == surface[..i] && data[..] == data[..i];
    }
  }
}
