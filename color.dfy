/**
 * The colour model: every colour the display draws is an RGB888 triple,
 * stored as four bytes whose channel order depends on the build target.
 */
module Color {

  type byte = x: int | 0 <= x < 256

  /** The alpha byte of every drawn pixel: fully opaque. */
  const OPAQUE: byte := 255

  datatype Rgb888 = Rgb888(r: byte, g: byte, b: byte)

  /**
   * The build target. Native builds store pixels blue-first (BGRA),
   * `wasm32` builds red-first (RGBA).
   */
  datatype Target = Native | Wasm32

  /** The four bytes of one stored pixel, in storage order. */
  type Rgba8 = (byte, byte, byte, byte)

  /** Reads the colour back out of a stored pixel. */
  function ColorOf(q: Rgba8, target: Target): Rgb888 {
    match target
    case Native => Rgb888(q.2, q.1, q.0)
    case Wasm32 => Rgb888(q.0, q.1, q.2)
  }

  /**
   * `rgba`: the bytes a colour is stored as. Alpha is always opaque, green
   * always sits second, and the colour is recovered from the bytes on the
   * same target.
   */
  function Rgba(c: Rgb888, target: Target): (q: Rgba8)
    ensures q.3 == OPAQUE && q.1 == c.g
    ensures ColorOf(q, target) == c
  {
    match target
    case Native => (c.b, c.g, c.r, OPAQUE)
    case Wasm32 => (c.r, c.g, c.b, OPAQUE)
  }

  /** The two targets differ exactly by swapping the first and third byte. */
  lemma RgbaTargetsSwapRedAndBlue(c: Rgb888)
    ensures Rgba(c, Wasm32).0 == c.r && Rgba(c, Native).0 == c.b
    ensures Rgba(c, Native) == (Rgba(c, Wasm32).2, Rgba(c, Wasm32).1, Rgba(c, Wasm32).0, OPAQUE)
  {
  }

  /** Two colours stored alike on one target are the same colour. */
  lemma RgbaInjective(c1: Rgb888, c2: Rgb888, target: Target)
    requires Rgba(c1, target) == Rgba(c2, target)
    ensures c1 == c2
  {
    assert ColorOf(Rgba(c1, target), target) == c1;
  }

  /** The part of a tiny-skia `Paint` the display sets. */
  datatype Paint = Paint(antiAlias: bool, color: Rgba8)

  /**
   * `convert_color_to_paint`: an anti-aliased paint carrying the same four
   * bytes `rgba` gives for the colour.
   */
  function ConvertColorToPaint(c: Rgb888, target: Target): (p: Paint)
    ensures p.antiAlias
    ensures p.color.3 == OPAQUE && ColorOf(p.color, target) == c
  {
    Paint(true, Rgba(c, target))
  }
}
