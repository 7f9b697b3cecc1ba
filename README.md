# tiny_skia_display, modelled in Dafny

`tiny_skia_display` is a draw target for the embedded-graphics crate that
renders into a tiny-skia pixmap: a `width` by `height` buffer of four bytes
per pixel, stored row by row. This project models its sequential core:

- `geometry.dfy` — the integer `Point`/`Size`/`Rectangle` geometry the display
  relies on: `intersection`, the inclusive `bottom_right`, row-major `points`.
- `color.dfy` — `rgba`, the byte order of a stored pixel (blue first on native
  builds, red first on `wasm32`; the build target is a parameter), and the
  colour part of `convert_color_to_paint`.
- `display.dfy` — `TinySkiaDisplay` as a class over a byte array: `new`,
  `data`, `bounding_box`, `draw_pixel`, `draw_iter`, `fill_solid`,
  `fill_contiguous`, `flip`. `draw_pixel`, `draw_iter` and `fill_contiguous`
  are proved against functions on the byte sequence; the lemmas beside them
  state that writes stay in range, touch only their own four bytes, that the
  last write to a pixel wins, and that `fill_contiguous` pairs the k-th colour
  with the k-th row-major point of the clipped area and touches nothing else.
  `new` succeeds exactly when the pixmap can be created and zeroes the buffer;
  `fill_solid` records the rectangle and paint it hands to tiny-skia, after
  which the pixels of the clipped area are unconstrained (nothing changes for
  an empty clip, and pixels outside the clip keep their bytes); `flip` copies
  the buffer into the surface.
- `font.dfy` — the text style of `src/font/mod.rs`: decoration-colour
  resolution, the style builder and setters, the background / strikethrough /
  underline fills of `draw_string` issued to a recording draw target,
  `draw_string`'s width and returned point, `measure_string`,
  `line_height`, `vertical_offset`, `Font::measure_text` and the single
  path fill of `Font::render_text`.
- `font_style.dfy`, `font_text.dfy` — the `FontStyle` builder and `FontText`
  with `translate` / `translate_mut`.
- `wrappers.dfy` — `Option`, `Result` and the `u32` range.

Behaviour modelled as the code has it, although a reader might expect otherwise:

- `fill_solid` hands tiny-skia the rectangle from the clipped top-left to the
  *inclusive* bottom-right corner, so its width and height are one less than
  the clipped area's (`FillSolidGeometry`); the last column and row of the
  area lie on the rectangle's far edges.
- `draw_string` traces glyph outlines but never fills them: the only calls it
  makes on its target are the background, strikethrough and underline fills.
- `draw_string`'s width counts only glyphs with a pixel bounding box, so
  glyphs without ink (whitespace) add nothing to it; `measure_string` instead
  takes the reach of the last glyph, inked or not.
- `flip` copies the buffer out and does not clear it, whatever its doc comment says.
- `draw_pixel` compares the position with `width as i32` and `height as i32`
  (`InBounds`, `AsI32`). A height of 2^31 or more, which `Pixmap::new` accepts
  for a narrow pixmap, wraps to a negative bound, and then no position is
  drawn at all.
- `fill_contiguous` zips the colours with the points of the *clipped* area,
  not of the requested one (`FillContiguousPairsInRasterOrder`): when the area
  starts off-screen, the colours shift against the area's own row-major
  order, so the first colour lands on the first visible point.
- The `contains` filter in `fill_contiguous` never drops anything, since
  every enumerated point lies in the clipped area (`ClippedPixelsPairing`).

## Model

| member | source | states |
|---|---|---|
| `Geometry.BottomRight` | src/lib.rs:75-82 | absent exactly for a zero-width or zero-height rectangle; otherwise a contained point no contained point lies right of or below |
| `Geometry.Intersection` | src/lib.rs:73 | a point is in the result iff it is in both rectangles; an empty result is the zero rectangle at the origin |
| `Geometry.PointsLength` | src/lib.rs:115-116 | the clipped area enumerates `width * height` points |
| `Geometry.PointsAt` | src/lib.rs:115-116 | column x of row y comes at index `y * width + x`: row-major order |
| `Geometry.PointsInsideAndDistinct` | src/lib.rs:115-118 | every enumerated point is inside the rectangle and no point repeats |
| `Geometry.PointsExactlyContained` | src/lib.rs:115-118 | a point is enumerated iff the rectangle contains it |
| `Color.Rgba` | src/lib.rs:180-192 | alpha is 255, green is second, and the colour is recovered from the bytes on the same target |
| `Color.RgbaTargetsSwapRedAndBlue` | src/lib.rs:180-192 | the native build stores blue first, the wasm32 build red first; they differ by swapping bytes 0 and 2 |
| `Color.RgbaInjective` | src/lib.rs:180-192 | distinct colours are stored as distinct bytes |
| `Color.ConvertColorToPaint` | src/lib.rs:194-204 | the paint is anti-aliased and carries `rgba`'s bytes for the colour |
| `Display.AsI32` | src/lib.rs:162-163 | `u32 as i32`: the value itself up to `i32::MAX`, negative above |
| `Display.InBoundsIsDisplayRect` | src/lib.rs:160-164 | a position passing the bounds check lies in the display rectangle; with both dimensions in `i32` range exactly those do; a height beyond it admits none |
| `Display.ByteIndexInRange` | src/lib.rs:160-165 | for an in-bounds position, `(y*w + x)*4 + 3 < w*h*4` |
| `Display.ByteIndexDisjoint` | src/lib.rs:165-170 | distinct in-bounds positions own disjoint groups of four bytes |
| `Display.DrawPixelSpec` | src/lib.rs:157-172 | a pixel passing the bounds check, with its `as i32` casts, gets the colour's four bytes, no other byte changes; any other pixel changes nothing |
| `Display.DrawPixelKeepsOthers` | src/lib.rs:165-170 | a pixel write leaves every other pixel's bytes unchanged |
| `Display.DrawIterSpec` | src/lib.rs:59-61 | `draw_pixel` applied to each pixel in order keeps the buffer's length |
| `Display.DrawIterLastWriteWins` | src/lib.rs:59-61 | the last pixel of the stream at an in-bounds position decides its bytes |
| `Display.DrawIterUntouched` | src/lib.rs:59-61 | a position no pixel of the stream names keeps its bytes |
| `Display.DrawIterOutOfBoundsNoOp` | src/lib.rs:160-164 | a stream of out-of-bounds pixels leaves the buffer unchanged, without error |
| `Display.FillSolidGeometry` | src/lib.rs:73-98 | never an error; no fill iff the clipped area is empty; otherwise the rect at the clipped top-left, one less wide and high than the clipped area |
| `Display.ClippedPixelsPairing` | src/lib.rs:115-119 | the zip-and-filter stream pairs the k-th row-major point with the k-th colour, as long as the shorter of the two; the filter drops nothing |
| `Display.FillContiguousSpec` | src/lib.rs:112-123 | no-op for a zero-size clip, otherwise `draw_pixel` over the clipped stream; length kept |
| `Display.FillContiguousPairsInRasterOrder` | src/lib.rs:112-123 | the k-th row-major point of the clipped area lies in the area and on the display, passes the bounds check when both dimensions fit in `i32`, and, when it passes, gets the k-th colour |
| `Display.FillContiguousUntouched` | src/lib.rs:112-123 | points of the clip past the end of the colours, and points outside the clip, are unchanged |
| `Display.FillContiguousOutsideArea` | src/lib.rs:112-123 | a pixel outside the requested area never changes |
| `Display.TinySkiaDisplay.constructor` | src/lib.rs:143-150 | a zeroed buffer of `width*height*4` bytes of the given size |
| `Display.TinySkiaDisplay.New` | src/lib.rs:143-150 | fails iff the pixmap cannot be created; on success size, bounding box and zeroed data as given |
| `Display.TinySkiaDisplay.BoundingBox` | src/lib.rs:133-135 | contains every position `draw_pixel` writes, and exactly those when both dimensions fit in `i32` |
| `Display.TinySkiaDisplay.Data` | src/lib.rs:153-155 | the buffer, `width*height*4` bytes |
| `Display.TinySkiaDisplay.DrawPixel` | src/lib.rs:157-172 | the buffer becomes `DrawPixelSpec` of the old buffer |
| `Display.TinySkiaDisplay.DrawIter` | src/lib.rs:53-66 | always `Ok`; the buffer becomes `DrawIterSpec` of the old buffer and the pixels |
| `Display.TinySkiaDisplay.FillSolid` | src/lib.rs:68-103 | always `Ok`; hands tiny-skia the rect of `FillSolidGeometry` with the colour's paint, or nothing for an empty clip; the buffer is unchanged for an empty clip, pixels outside the clip keep their bytes, and pixels inside it are left unconstrained |
| `Display.TinySkiaDisplay.FillContiguous` | src/lib.rs:105-126 | always `Ok`; the buffer becomes `FillContiguousSpec` of the old buffer |
| `Display.TinySkiaDisplay.Flip` | src/lib.rs:174-177 | requires an equally long, distinct surface; afterwards it equals the buffer and the buffer is unchanged |
| `FontRender.BuilderDefaults` | src/font/mod.rs:135-146 | font size 12, no text or background colour, no decorations |
| `FontRender.BuilderSettersTouchOnlyTheirField` | src/font/mod.rs:148-203 | each builder method sets its own field only; `underline`/`strikethrough` take `TextColor`, `*_with_color` take `Custom`; `build` returns the style |
| `FontRender.NewStyleFields` | src/font/mod.rs:36-41 | `FontTextStyle::new` is the defaults with the text colour and size set |
| `FontRender.SettersTouchOnlyTheirField` | src/font/mod.rs:112-126 | each `CharacterStyle` setter stores its argument and leaves the other five fields unchanged |
| `FontRender.SettersCommute` | src/font/mod.rs:112-126 | any two of the four setters, applied in either order, give the same style |
| `FontRender.ResolveDecorationColor` | src/font/mod.rs:44-50 | `None` gives none, `TextColor` gives the text colour (possibly none), `Custom(c)` gives `c` |
| `FontRender.IssuedIsPrefix` | src/font/mod.rs:329-331 | the calls issued are a prefix of the planned ones: all of them when none is refused, otherwise up to and including the first refused call |
| `FontRender.IssuedAppend` | src/font/mod.rs:329-331 | with `?`, a later fill is issued only when every earlier one succeeded |
| `FontRender.IssuedThree` | src/font/mod.rs:329-331 | background, strikethrough, underline: each batch is issued only when the ones before it were all accepted, and the whole succeeds iff all three do |
| `FontRender.BackgroundFills` | src/font/mod.rs:52-73 | one fill of `Rectangle(position, Size(width, font_size))` with the background colour iff width is non-zero and a background is set |
| `FontRender.DecorationFill` | src/font/mod.rs:75-106 | one fill of the same band iff the decoration colour resolves, with no width check |
| `FontRender.DecorationFillsShape` | src/font/mod.rs:329-331 | at most three fills, all over the band; background first, underline last; none without background or decorations |
| `FontRender.DrawBackground` | src/font/mod.rs:52-73 | the target receives `BackgroundFills`; `Ok` iff the target accepted it |
| `FontRender.DrawStrikethrough` | src/font/mod.rs:75-92 | the target receives the strikethrough fill; `Ok` iff accepted |
| `FontRender.DrawUnderline` | src/font/mod.rs:94-106 | the target receives the underline fill; `Ok` iff accepted |
| `FontRender.Ceil` | src/font/mod.rs:325-326 | the least integer not below its argument |
| `FontRender.SaturatingU32` | src/font/mod.rs:325-326 | the float-to-`u32` cast: exact in range, 0 below, `u32::MAX` above |
| `FontRender.InkedOutlinesAreInkedGlyphs` | src/font/mod.rs:312-322 | outlines are traced only for glyphs with a bounding box, at its corner moved by the position; none iff no glyph has ink |
| `FontRender.EveryInkedGlyphIsTraced` | src/font/mod.rs:312-322 | every glyph with a bounding box is traced, at its corner moved by the position |
| `FontRender.NoInkDrawsNothing` | src/font/mod.rs:312-318 | glyphs without a bounding box add no outline and no width, and the position is returned |
| `FontRender.InklessGlyphAddsNothing` | src/font/mod.rs:313-318 | an inkless glyph leaves width and returned point as they were |
| `FontRender.DrawString` | src/font/mod.rs:291-334 | the target receives background, strikethrough, underline fills of width `DrawWidth` in that order up to the first error and no glyph fill; the outlines traced are those of the inked glyphs at their corners; on success returns `StringEnd` |
| `FontRender.MeasureString` | src/font/mod.rs:348-370 | box at the position, last glyph's reach wide, font size high; next position is the box's top-right |
| `FontRender.MeasureEmpty` | src/font/mod.rs:356-369 | an empty layout measures 0 wide and does not advance |
| `FontRender.MeasureUsesLastGlyphOnly` | src/font/mod.rs:356-362 | the measured width depends on the last glyph only |
| `FontRender.LineHeight` | src/font/mod.rs:376-378 | equals the height of every measured box, the font size |
| `FontRender.VerticalOffset` | src/font/mod.rs:372-374 | the position unchanged, whatever the alignment |
| `FontRender.MeasureText` | src/font/mod.rs:224-244 | 0 wide for no glyphs, else the last glyph's reach rounded up; height is the size rounded up |
| `FontRender.RenderText` | src/font/mod.rs:246-285 | one winding-rule fill of all inked glyphs' outlines with the paint iff some glyph has ink, else no fill |
| `FontStyles.BuilderDefault` | src/font/font_style.rs:48-56 | family as given, no colour, pixel size 0 |
| `FontStyles.BuilderTextColorOnly` | src/font/font_style.rs:59-62 | sets `Some(c)` and keeps family and size |
| `FontStyles.BuilderPixelSizeOnly` | src/font/font_style.rs:65-68 | sets the size and keeps family and colour |
| `FontStyles.NewMatchesBuilder` | src/font/font_style.rs:25-31 | `FontStyle::new` equals the builder with colour and size, in either order, then `build` |
| `FontTexts.NewFontText` | src/font/font_text.rs:22-24 | stores text and position verbatim |
| `FontTexts.IntoStyled` | src/font/font_text.rs:27-32 | pairs the unchanged text object with the style |
| `FontTexts.Translate` | src/font/font_text.rs:36-41 | same text, position moved by the offset |
| `FontTexts.TranslateMut` | src/font/font_text.rs:43-47 | the moved object equals `translate`'s result |
| `FontTexts.TranslateZero` | src/font/font_text.rs:36-41 | moving by (0,0) is the identity |
| `FontTexts.TranslateCompose` | src/font/font_text.rs:36-41 | moving by a then b equals moving by a+b |

Functions that compute a value carry no contract of their own; the rows
above about them characterise them:

- `FontStyles.NewFontStyle`, `FontStyles.BuilderNew`, `FontStyles.BuilderTextColor`,
  `FontStyles.BuilderPixelSize`, `FontStyles.Build` — `BuilderDefault`,
  `BuilderTextColorOnly`, `BuilderPixelSizeOnly`, `NewMatchesBuilder`.
- `FontRender.BuilderNew`, `BuilderFontSize`, `BuilderUnderline`,
  `BuilderStrikethrough`, `BuilderTextColor`, `BuilderBackgroundColor`,
  `BuilderUnderlineWithColor`, `BuilderStrikethroughWithColor`, `Build` —
  `BuilderDefaults`, `BuilderSettersTouchOnlyTheirField`; `FontRender.NewStyle` —
  `NewStyleFields`.
- `FontRender.SetTextColor`, `SetBackgroundColor`, `SetUnderlineColor`,
  `SetStrikethroughColor` — `SettersTouchOnlyTheirField`, `SettersCommute`.
- `Geometry.Points` (with `Row`, `RowsFrom`) — `PointsLength`, `PointsAt`,
  `PointsInsideAndDistinct`, `PointsExactlyContained`.
- `Display.InBounds` — `InBoundsIsDisplayRect`, `ByteIndexInRange`,
  `ByteIndexDisjoint`.
- `FontRender.Issued` — `IssuedIsPrefix`, `IssuedAppend`, `IssuedThree`.
- `FontRender.DrawWidth`, `StringEnd`, `InkedOutlines` — `NoInkDrawsNothing`,
  `InklessGlyphAddsNothing`, `InkedOutlinesAreInkedGlyphs`, `EveryInkedGlyphIsTraced`, and `DrawString`'s
  own postconditions.

## Left out

- tiny-skia's rasterisation (`Pixmap::fill_rect`, `fill_path`, anti-aliasing, `Transform`) is not modelled: `FillSolid` records the rectangle and paint it hands over in `rectFills` and leaves the pixels of the clipped area unconstrained after a non-empty fill (which bytes tiny-skia paints there is not modelled); `RenderText` returns the path fill it would issue.
- `Rect::from_xywh` is modelled as failing only for a negative width or height, so `fill_solid`'s error branch is unreachable in the model; f32 rounding of coordinates is ignored.
- `Pixmap::new` is modelled as succeeding iff both dimensions are non-zero and a row of `width*4` bytes fits in `i32` (tiny-skia's stride limit); allocation failure is not modelled.
- The font library's parsing, layout, metrics and outlines are inputs: a string arrives as its laid-out glyphs (position, advance, optional bounding-box corner). `Font::from_bytes` is not modelled.
- src/font/glyph_tracer.rs is not part of this model: a traced outline is the glyph and its origin, and the path builder is taken to yield a path iff at least one glyph was traced.
- FontRender.DrawString: does not model `u32` overflow of the running width (`width +=` would panic or wrap); the width is unbounded.
- FontTexts.Translate: does not model `i32` overflow of point coordinates.
- FontTexts.TranslateMut and the setters `FontRender.SetTextColor`, `SetBackgroundColor`, `SetUnderlineColor`, `SetStrikethroughColor` update a plain value in the source (`&mut self` on a struct); they are modelled as returning the updated value.
- Colours are RGB888 triples; the embedded-graphics conversions from other pixel formats, and tiny-skia's float colour inside `Paint`, are not modelled. Colour streams are finite sequences.
- `draw_whitespace` is `todo!()` and panics; `Drawable::draw` for `FontText` delegates to an iterator that is not part of this model.
- examples/web/minimal/src/lib.rs (window setup and event loop) is not modelled.
