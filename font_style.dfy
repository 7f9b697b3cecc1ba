/** `FontStyle` and its builder: font family, optional text colour, pixel size. */
module FontStyles {
  import opened Wrappers
  import opened Color

  datatype FontStyle = FontStyle(fontFamily: string, textColor: Option<Rgb888>, pixelSize: U32)

  datatype FontStyleBuilder = FontStyleBuilder(style: FontStyle)

  /** `FontStyle::new`: a style with the given family, colour and size. */
  function NewFontStyle(fontFamily: string, textColor: Rgb888, pixelSize: U32): FontStyle {
    FontStyle(fontFamily, Some(textColor), pixelSize)
  }

  /** `FontStyleBuilder::new`: the family, no colour, size 0. */
  function BuilderNew(fontFamily: string): FontStyleBuilder {
    FontStyleBuilder(FontStyle(fontFamily, None, 0))
  }

  function BuilderTextColor(b: FontStyleBuilder, c: Rgb888): FontStyleBuilder {
    FontStyleBuilder(b.style.(textColor := Some(c)))
  }

  function BuilderPixelSize(b: FontStyleBuilder, pixelSize: U32): FontStyleBuilder {
    FontStyleBuilder(b.style.(pixelSize := pixelSize))
  }

  /** `build`: the accumulated style, unchanged. */
  function Build(b: FontStyleBuilder): FontStyle {
    b.style
  }

  /** A fresh builder builds the family with no colour and size 0. */
  lemma BuilderDefault(fontFamily: string)
    ensures Build(BuilderNew(fontFamily)) == FontStyle(fontFamily, None, 0)
  {
  }

  /** `text_color` sets the colour and keeps the family and the size. */
  lemma BuilderTextColorOnly(b: FontStyleBuilder, c: Rgb888)
    ensures Build(BuilderTextColor(b, c)).textColor == Some(c)
    ensures Build(BuilderTextColor(b, c)).fontFamily == Build(b).fontFamily
    ensures Build(BuilderTextColor(b, c)).pixelSize == Build(b).pixelSize
  {
  }

  /** `pixel_size` sets the size and keeps the family and the colour. */
  lemma BuilderPixelSizeOnly(b: FontStyleBuilder, n: U32)
    ensures Build(BuilderPixelSize(b, n)).pixelSize == n
    ensures Build(BuilderPixelSize(b, n)).fontFamily == Build(b).fontFamily
    ensures Build(BuilderPixelSize(b, n)).textColor == Build(b).textColor
  {
  }

  /** `FontStyle::new` is the builder with a colour and a size, in either order. */
  lemma NewMatchesBuilder(fontFamily: string, c: Rgb888, n: U32)
    ensures NewFontStyle(fontFamily, c, n) == Build(BuilderPixelSize(BuilderTextColor(BuilderNew(fontFamily), c), n))
    ensures NewFontStyle(fontFamily, c, n) == Build(BuilderTextColor(BuilderPixelSize(BuilderNew(fontFamily), n), c))
  {
  }
}
