/**
 * Text rendering around the font library: `FontTextStyle`, its builder,
 * `draw_string`, `measure_string` and `Font::render_text`.
 *
 * The font library's layout is an input here: a string arrives as the
 * sequence of its laid-out glyphs, each with its horizontal position, its
 * advance width and, for a glyph that has ink, the top-left corner of its
 * pixel bounding box. Glyph outlines are traced by a module that is not part
 * of this model, so a traced outline is represented by the glyph and the
 * origin it is traced at.
 */
module FontRender {
  import opened Wrappers
  import opened Geometry
  import opened Color

  /** Where an underline or strikethrough takes its colour from. */
  datatype DecorationColor = NoDecoration | TextColor | Custom(color: Rgb888)

  datatype VerticalAlignment = Top | Bottom | Middle | Baseline

  /** A loaded font: the parsed face is opaque; only its pixel size is kept. */
  datatype Font = Font(pixelSize: U32)

  datatype FontTextStyle = FontTextStyle(
    textColor: Option<Rgb888>,
    backgroundColor: Option<Rgb888>,
    underlineColor: DecorationColor,
    strikethroughColor: DecorationColor,
    fontSize: U32,
    font: Font)

  datatype FontTextStyleBuilder = FontTextStyleBuilder(style: FontTextStyle)

  // ---------------------------------------------------------------------
  // The builder and the character-style setters

  /** `FontTextStyleBuilder::new`: size 12, no colours, no decorations. */
  function BuilderNew(font: Font): FontTextStyleBuilder {
    FontTextStyleBuilder(FontTextStyle(None, None, NoDecoration, NoDecoration, 12, font))
  }

  function BuilderFontSize(b: FontTextStyleBuilder, fontSize: U32): FontTextStyleBuilder {
    FontTextStyleBuilder(b.style.(fontSize := fontSize))
  }

  function BuilderUnderline(b: FontTextStyleBuilder): FontTextStyleBuilder {
    FontTextStyleBuilder(b.style.(underlineColor := TextColor))
  }

  function BuilderStrikethrough(b: FontTextStyleBuilder): FontTextStyleBuilder {
    FontTextStyleBuilder(b.style.(strikethroughColor := TextColor))
  }

  function BuilderTextColor(b: FontTextStyleBuilder, c: Rgb888): FontTextStyleBuilder {
    FontTextStyleBuilder(b.style.(textColor := Some(c)))
  }

  function BuilderBackgroundColor(b: FontTextStyleBuilder, c: Rgb888): FontTextStyleBuilder {
    FontTextStyleBuilder(b.style.(backgroundColor := Some(c)))
  }

  function BuilderUnderlineWithColor(b: FontTextStyleBuilder, c: Rgb888): FontTextStyleBuilder {
    FontTextStyleBuilder(b.style.(underlineColor := Custom(c)))
  }

  function BuilderStrikethroughWithColor(b: FontTextStyleBuilder, c: Rgb888): FontTextStyleBuilder {
    FontTextStyleBuilder(b.style.(strikethroughColor := Custom(c)))
  }

  function Build(b: FontTextStyleBuilder): FontTextStyle {
    b.style
  }

  /** `FontTextStyle::new`: the builder with a text colour and a font size. */
  function NewStyle(font: Font, textColor: Rgb888, fontSize: U32): FontTextStyle {
    Build(BuilderFontSize(BuilderTextColor(BuilderNew(font), textColor), fontSize))
  }

  /** The builder's defaults. */
  lemma BuilderDefaults(font: Font)
    ensures var s := Build(BuilderNew(font));
      && s.fontSize == 12 && s.textColor == None && s.backgroundColor == None
      && s.underlineColor == NoDecoration && s.strikethroughColor == NoDecoration && s.font == font
  {
  }

  /**
   * Each builder method sets its own field and leaves every other field as
   * it was; `underline` and `strikethrough` take the text colour, the
   * `_with_color` forms a custom one.
   */
  lemma BuilderSettersTouchOnlyTheirField(b: FontTextStyleBuilder, c: Rgb888, n: U32)
    ensures Build(BuilderFontSize(b, n)) == Build(b).(fontSize := n)
    ensures Build(BuilderUnderline(b)) == Build(b).(underlineColor := TextColor)
    ensures Build(BuilderStrikethrough(b)) == Build(b).(strikethroughColor := TextColor)
    ensures Build(BuilderTextColor(b, c)) == Build(b).(textColor := Some(c))
    ensures Build(BuilderBackgroundColor(b, c)) == Build(b).(backgroundColor := Some(c))
    ensures Build(BuilderUnderlineWithColor(b, c)) == Build(b).(underlineColor := Custom(c))
    ensures Build(BuilderStrikethroughWithColor(b, c)) == Build(b).(strikethroughColor := Custom(c))
  {
  }

  /** `FontTextStyle::new` keeps the builder's defaults for everything it does not set. */
  lemma NewStyleFields(font: Font, c: Rgb888, n: U32)
    ensures NewStyle(font, c, n) == FontTextStyle(Some(c), None, NoDecoration, NoDecoration, n, font)
  {
  }

  /*
   * The `CharacterStyle` setters assign one field of the style in place; the
   * style is a plain value, so each is the style with that field replaced.
   */

  function SetTextColor(s: FontTextStyle, c: Option<Rgb888>): FontTextStyle {
    s.(textColor := c)
  }

  function SetBackgroundColor(s: FontTextStyle, c: Option<Rgb888>): FontTextStyle {
    s.(backgroundColor := c)
  }

  function SetUnderlineColor(s: FontTextStyle, d: DecorationColor): FontTextStyle {
    s.(underlineColor := d)
  }

  function SetStrikethroughColor(s: FontTextStyle, d: DecorationColor): FontTextStyle {
    s.(strikethroughColor := d)
  }

  /** Any two of the four setters applied in either order give the same style. */
  lemma SettersCommute(s: FontTextStyle, t: Option<Rgb888>, bg: Option<Rgb888>, u: DecorationColor, st: DecorationColor)
    ensures SetTextColor(SetBackgroundColor(s, bg), t) == SetBackgroundColor(SetTextColor(s, t), bg)
    ensures SetTextColor(SetUnderlineColor(s, u), t) == SetUnderlineColor(SetTextColor(s, t), u)
    ensures SetTextColor(SetStrikethroughColor(s, st), t) == SetStrikethroughColor(SetTextColor(s, t), st)
    ensures SetBackgroundColor(SetUnderlineColor(s, u), bg) == SetUnderlineColor(SetBackgroundColor(s, bg), u)
    ensures SetBackgroundColor(SetStrikethroughColor(s, st), bg) == SetStrikethroughColor(SetBackgroundColor(s, bg), st)
    ensures SetUnderlineColor(SetStrikethroughColor(s, st), u) == SetStrikethroughColor(SetUnderlineColor(s, u), st)
  {
  }

  /** Each setter stores its argument and leaves the other five fields as they were. */
  lemma SettersTouchOnlyTheirField(s: FontTextStyle, t: Option<Rgb888>, bg: Option<Rgb888>, u: DecorationColor, st: DecorationColor)
    ensures var r := SetTextColor(s, t);
      r.textColor == t && r.backgroundColor == s.backgroundColor && r.underlineColor == s.underlineColor
      && r.strikethroughColor == s.strikethroughColor && r.fontSize == s.fontSize && r.font == s.font
    ensures var r := SetBackgroundColor(s, bg);
      r.backgroundColor == bg && r.textColor == s.textColor && r.underlineColor == s.underlineColor
      && r.strikethroughColor == s.strikethroughColor && r.fontSize == s.fontSize && r.font == s.font
    ensures var r := SetUnderlineColor(s, u);
      r.underlineColor == u && r.textColor == s.textColor && r.backgroundColor == s.backgroundColor
      && r.strikethroughColor == s.strikethroughColor && r.fontSize == s.fontSize && r.font == s.font
    ensures var r := SetStrikethroughColor(s, st);
      r.strikethroughColor == st && r.textColor == s.textColor && r.backgroundColor == s.backgroundColor
      && r.underlineColor == s.underlineColor && r.fontSize == s.fontSize && r.font == s.font
  {
  }

  /**
   * `resolve_decoration_color`: no colour for no decoration, the text colour
   * (which may itself be absent) for `TextColor`, the given colour for `Custom`.
   */
  function ResolveDecorationColor(s: FontTextStyle, d: DecorationColor): (r: Option<Rgb888>)
    ensures r.None? <==> d.NoDecoration? || (d.TextColor? && s.textColor.None?)
    ensures d.Custom? ==> r == Some(d.color)
    ensures d.TextColor? ==> r == s.textColor
  {
    match d
    case NoDecoration => None
    case TextColor => s.textColor
    case Custom(c) => Some(c)
  }

  // ---------------------------------------------------------------------
  // A draw target that records its `fill_solid` calls

  datatype FillCall = FillCall(area: Rectangle, color: Rgb888)

  /**
   * A draw target that records every `fill_solid` call it receives and
   * answers with an error the calls in `refused`.
   */
  class RecordingTarget {
    var calls: seq<FillCall>
    const refused: set<FillCall>

    constructor (refused: set<FillCall>)
      ensures calls == [] && this.refused == refused
    {
      calls := [];
      this.refused := refused;
    }

    method FillSolid(area: Rectangle, color: Rgb888) returns (r: Result<(), string>)
      modifies this
      ensures calls == old(calls) + [FillCall(area, color)]
      ensures r.Err? <==> FillCall(area, color) in refused
    {
      calls := calls + [FillCall(area, color)];
      r := if FillCall(area, color) in refused then Err("fill refused") else Ok(());
    }
  }

  /** No call of `planned` is refused. */
  predicate AllAccepted(planned: seq<FillCall>, refused: set<FillCall>) {
    forall k :: 0 <= k < |planned| ==> planned[k] !in refused
  }

  /**
   * The calls a target receives when `planned` is issued in order and the
   * first error stops the rest: everything up to and including the first
   * refused call.
   */
  function Issued(planned: seq<FillCall>, refused: set<FillCall>): seq<FillCall>
    decreases |planned|
  {
    if planned == [] then []
    else if planned[0] in refused then [planned[0]]
    else [planned[0]] + Issued(planned[1..], refused)
  }

  /**
   * The calls issued are a prefix of the plan: all of it when no call is
   * refused, otherwise up to and including the first refused call.
   */
  lemma {:induction false} IssuedIsPrefix(planned: seq<FillCall>, refused: set<FillCall>)
    ensures var r := Issued(planned, refused);
      |r| <= |planned| && r == planned[..|r|]
    ensures AllAccepted(planned, refused) ==> Issued(planned, refused) == planned
    ensures !AllAccepted(planned, refused) ==>
      var r := Issued(planned, refused);
      0 < |r| && r[|r| - 1] in refused && AllAccepted(r[..|r| - 1], refused)
    decreases |planned|
  {
    if planned != [] {
      assert planned == [planned[0]] + planned[1..];
      assert AllAccepted(planned, refused) <==> planned[0] !in refused && AllAccepted(planned[1..], refused);
      if planned[0] !in refused {
        IssuedIsPrefix(planned[1..], refused);
      }
    }
  }

  lemma ConcatAssoc(a: seq<FillCall>, b: seq<FillCall>, c: seq<FillCall>)
    ensures (a + b) + c == a + (b + c)
  {
  }

  /** Issuing three batches in turn, each only if the ones before it succeeded. */
  lemma IssuedThree(a: seq<FillCall>, b: seq<FillCall>, c: seq<FillCall>, refused: set<FillCall>)
    ensures !AllAccepted(a, refused) ==> Issued(a + b + c, refused) == Issued(a, refused)
    ensures AllAccepted(a, refused) && !AllAccepted(b, refused) ==>
      Issued(a + b + c, refused) == Issued(a, refused) + Issued(b, refused)
    ensures AllAccepted(a, refused) && AllAccepted(b, refused) ==>
      Issued(a + b + c, refused) == Issued(a, refused) + Issued(b, refused) + Issued(c, refused)
    ensures AllAccepted(a + b + c, refused) <==> AllAccepted(a, refused) && AllAccepted(b, refused) && AllAccepted(c, refused)
  {
    IssuedAppend(a, b, refused);
    IssuedAppend(a + b, c, refused);
  }

  /** Issuing two batches one after the other, the second only if the first succeeded. */
  lemma {:induction false} IssuedAppend(a: seq<FillCall>, b: seq<FillCall>, refused: set<FillCall>)
    ensures Issued(a + b, refused) == Issued(a, refused) + (if AllAccepted(a, refused) then Issued(b, refused) else [])
    ensures AllAccepted(a + b, refused) <==> AllAccepted(a, refused) && AllAccepted(b, refused)
    decreases |a|
  {
    if a != [] {
      assert (a + b)[1..] == a[1..] + b;
      IssuedAppend(a[1..], b, refused);
      assert AllAccepted(a, refused) <==> a[0] !in refused && AllAccepted(a[1..], refused);
      assert AllAccepted(a + b, refused) <==> a[0] !in refused && AllAccepted(a[1..] + b, refused);
    } else {
      assert a + b == b;
    }
  }

  // ---------------------------------------------------------------------
  // Background and decorations

  /** The band every background and decoration fill covers. */
  function Band(s: FontTextStyle, width: nat, position: Point): Rectangle {
    Rectangle(position, Size(width, s.fontSize))
  }

  /** The fills of `draw_background`: none for zero width or no background colour. */
  function BackgroundFills(s: FontTextStyle, width: nat, position: Point): (r: seq<FillCall>)
    ensures |r| <= 1
    ensures |r| == 1 <==> width != 0 && s.backgroundColor.Some?
    ensures |r| == 1 ==> r[0] == FillCall(Band(s, width, position), s.backgroundColor.value)
  {
    if width == 0 then []
    else match s.backgroundColor
      case Some(c) => [FillCall(Band(s, width, position), c)]
      case None => []
  }

  /** The fill of one decoration: one call exactly when its colour resolves. */
  function DecorationFill(s: FontTextStyle, d: DecorationColor, width: nat, position: Point): (r: seq<FillCall>)
    ensures |r| <= 1
    ensures |r| == 1 <==> ResolveDecorationColor(s, d).Some?
    ensures |r| == 1 ==> r[0] == FillCall(Band(s, width, position), ResolveDecorationColor(s, d).value)
  {
    match ResolveDecorationColor(s, d)
    case Some(c) => [FillCall(Band(s, width, position), c)]
    case None => []
  }

  /** Background, then strikethrough, then underline. */
  function DecorationFills(s: FontTextStyle, width: nat, position: Point): seq<FillCall> {
    BackgroundFills(s, width, position)
      + DecorationFill(s, s.strikethroughColor, width, position)
      + DecorationFill(s, s.underlineColor, width, position)
  }

  /**
   * At most three fills, all over the same band, the background first when
   * present and the underline last when present; with neither background
   * nor decorations nothing is filled.
   */
  lemma DecorationFillsShape(s: FontTextStyle, width: nat, position: Point)
    ensures |DecorationFills(s, width, position)| <= 3
    ensures forall k :: 0 <= k < |DecorationFills(s, width, position)| ==>
      DecorationFills(s, width, position)[k].area == Band(s, width, position)
    ensures width != 0 && s.backgroundColor.Some? ==>
      DecorationFills(s, width, position)[0].color == s.backgroundColor.value
    ensures ResolveDecorationColor(s, s.underlineColor).Some? ==>
      var fills := DecorationFills(s, width, position);
      fills[|fills| - 1].color == ResolveDecorationColor(s, s.underlineColor).value
    ensures (width == 0 || s.backgroundColor.None?) && s.strikethroughColor.NoDecoration? && s.underlineColor.NoDecoration? ==>
      DecorationFills(s, width, position) == []
  {
    var fills := DecorationFills(s, width, position);
    var bg, st, ul := BackgroundFills(s, width, position),
      DecorationFill(s, s.strikethroughColor, width, position), DecorationFill(s, s.underlineColor, width, position);
    assert fills == bg + st + ul;
    forall k | 0 <= k < |fills| ensures fills[k].area == Band(s, width, position) {
      if k < |bg| { } else if k < |bg| + |st| { assert fills[k] == st[k - |bg|]; } else { assert fills[k] == ul[k - |bg| - |st|]; }
    }
  }

  /** `draw_background`. */
  method DrawBackground(s: FontTextStyle, width: nat, position: Point, target: RecordingTarget) returns (r: Result<(), string>)
    modifies target
    ensures target.calls == old(target.calls) + Issued(BackgroundFills(s, width, position), target.refused)
    ensures r.Ok? <==> AllAccepted(BackgroundFills(s, width, position), target.refused)
  {
    if width == 0 {
      return Ok(());
    }
    match s.backgroundColor {
      case Some(c) =>
        r := target.FillSolid(Rectangle(position, Size(width, s.fontSize)), c);
        if r.Err? {
          return r;
        }
      case None =>
    }
    r := Ok(());
  }

  /** `draw_strikethrough`: no width check, a fill exactly when the colour resolves. */
  method DrawStrikethrough(s: FontTextStyle, width: nat, position: Point, target: RecordingTarget) returns (r: Result<(), string>)
    modifies target
    ensures target.calls == old(target.calls) + Issued(DecorationFill(s, s.strikethroughColor, width, position), target.refused)
    ensures r.Ok? <==> AllAccepted(DecorationFill(s, s.strikethroughColor, width, position), target.refused)
  {
    match ResolveDecorationColor(s, s.strikethroughColor) {
      case Some(c) =>
        var topLeft := position.Add(Point(0, 0));
        r := target.FillSolid(Rectangle(topLeft, Size(width, s.fontSize)), c);
        if r.Err? {
          return r;
        }
      case None =>
    }
    r := Ok(());
  }

  /** `draw_underline`: no width check, a fill exactly when the colour resolves. */
  method DrawUnderline(s: FontTextStyle, width: nat, position: Point, target: RecordingTarget) returns (r: Result<(), string>)
    modifies target
    ensures target.calls == old(target.calls) + Issued(DecorationFill(s, s.underlineColor, width, position), target.refused)
    ensures r.Ok? <==> AllAccepted(DecorationFill(s, s.underlineColor, width, position), target.refused)
  {
    match ResolveDecorationColor(s, s.underlineColor) {
      case Some(c) =>
        var topLeft := position.Add(Point(0, 0));
        r := target.FillSolid(Rectangle(topLeft, Size(width, s.fontSize)), c);
        if r.Err? {
          return r;
        }
      case None =>
    }
    r := Ok(());
  }

  // ---------------------------------------------------------------------
  // Laid-out glyphs

  /**
   * One glyph as the layout places it: its horizontal position, its advance
   * width, and the top-left corner of its pixel bounding box when it has ink.
   */
  datatype LaidOutGlyph = LaidOutGlyph(x: real, advance: real, bboxMin: Option<Point>)

  /** A glyph outline traced into the path builder at the given origin. */
  datatype TracedGlyph = TracedGlyph(glyph: LaidOutGlyph, originX: real, originY: real)

  /** `ceil`: the least integer not below `v`. */
  function Ceil(v: real): (c: int)
    ensures v <= c as real < v + 1.0
  {
    -((-v).Floor)
  }

  /** A float-to-`u32` cast: Rust saturates at both ends. */
  function SaturatingU32(v: int): (u: U32)
    ensures 0 <= v <= U32_MAX ==> u == v
    ensures v < 0 ==> u == 0
    ensures U32_MAX < v ==> u == U32_MAX
  {
    if v < 0 then 0 else if v > U32_MAX then U32_MAX else v
  }

  /** `ceil(x + advance) as u32`: the width a glyph reaches. */
  function GlyphExtent(g: LaidOutGlyph): U32 {
    SaturatingU32(Ceil(g.x + g.advance))
  }

  /** The running width of `draw_string`: the extents of the glyphs that have ink, added up. */
  function DrawWidth(glyphs: seq<LaidOutGlyph>): nat
    decreases |glyphs|
  {
    if glyphs == [] then 0
    else
      var n := |glyphs| - 1;
      DrawWidth(glyphs[..n]) + (if glyphs[n].bboxMin.Some? then GlyphExtent(glyphs[n]) else 0)
  }

  /**
   * The point `draw_string` returns: the x of the last inked glyph's bounding
   * box moved by the position, at the position's y; the position itself when
   * no glyph has ink.
   */
  function StringEnd(glyphs: seq<LaidOutGlyph>, position: Point): Point
    decreases |glyphs|
  {
    if glyphs == [] then position
    else
      var n := |glyphs| - 1;
      match glyphs[n].bboxMin
      case Some(min) => Point(min.x + position.x, position.y)
      case None => StringEnd(glyphs[..n], position)
  }

  /** The outlines traced for a string: the inked glyphs, in order, at their bounding-box corner moved by `(ox, oy)`. */
  function InkedOutlines(glyphs: seq<LaidOutGlyph>, ox: real, oy: real): seq<TracedGlyph>
    decreases |glyphs|
  {
    if glyphs == [] then []
    else
      var n := |glyphs| - 1;
      var g := glyphs[n];
      InkedOutlines(glyphs[..n], ox, oy) +
        match g.bboxMin
        case Some(min) => [TracedGlyph(g, min.x as real + ox, min.y as real + oy)]
        case None => []
  }

  predicate HasInk(glyphs: seq<LaidOutGlyph>) {
    exists k :: 0 <= k < |glyphs| && glyphs[k].bboxMin.Some?
  }

  /**
   * Every traced outline is an inked glyph: never more outlines than glyphs,
   * each outline a glyph with ink placed at its bounding-box corner, and
   * none at all exactly when no glyph has ink. `EveryInkedGlyphIsTraced`
   * gives the converse.
   */
  lemma {:induction false} InkedOutlinesAreInkedGlyphs(glyphs: seq<LaidOutGlyph>, ox: real, oy: real)
    ensures |InkedOutlines(glyphs, ox, oy)| <= |glyphs|
    ensures forall k :: 0 <= k < |InkedOutlines(glyphs, ox, oy)| ==>
      var t := InkedOutlines(glyphs, ox, oy)[k];
      t.glyph in glyphs && t.glyph.bboxMin.Some? &&
      t.originX == t.glyph.bboxMin.value.x as real + ox && t.originY == t.glyph.bboxMin.value.y as real + oy
    ensures InkedOutlines(glyphs, ox, oy) == [] <==> !HasInk(glyphs)
    decreases |glyphs|
  {
    if glyphs != [] {
      var n := |glyphs| - 1;
      InkedOutlinesAreInkedGlyphs(glyphs[..n], ox, oy);
      assert glyphs == glyphs[..n] + [glyphs[n]];

      assert HasInk(glyphs) <==> HasInk(glyphs[..n]) || glyphs[n].bboxMin.Some? by {
        if HasInk(glyphs[..n]) {
          var k :| 0 <= k < n && glyphs[..n][k].bboxMin.Some?;
          assert glyphs[k] == glyphs[..n][k];
        }
        if HasInk(glyphs) && glyphs[n].bboxMin.None? {
          var k :| 0 <= k < |glyphs| && glyphs[k].bboxMin.Some?;
          assert k < n && glyphs[..n][k] == glyphs[k];
        }
      }
    }
  }

  /** Every glyph with ink is traced, at its bounding-box corner moved by `(ox, oy)`. */
  lemma {:induction false} EveryInkedGlyphIsTraced(glyphs: seq<LaidOutGlyph>, ox: real, oy: real)
    ensures forall k :: 0 <= k < |glyphs| && glyphs[k].bboxMin.Some? ==>
      TracedGlyph(glyphs[k], glyphs[k].bboxMin.value.x as real + ox, glyphs[k].bboxMin.value.y as real + oy)
        in InkedOutlines(glyphs, ox, oy)
    decreases |glyphs|
  {
    if glyphs != [] {
      var n := |glyphs| - 1;
      EveryInkedGlyphIsTraced(glyphs[..n], ox, oy);
      var prefix := InkedOutlines(glyphs[..n], ox, oy);
      var g := glyphs[n];
      var last := if g.bboxMin.Some? then [TracedGlyph(g, g.bboxMin.value.x as real + ox, g.bboxMin.value.y as real + oy)] else [];
      assert InkedOutlines(glyphs, ox, oy) == prefix + last;
      forall k | 0 <= k < n && glyphs[k].bboxMin.Some?
        ensures TracedGlyph(glyphs[k], glyphs[k].bboxMin.value.x as real + ox, glyphs[k].bboxMin.value.y as real + oy)
          in InkedOutlines(glyphs, ox, oy)
      {
        assert glyphs[..n][k] == glyphs[k];
      }
    }
  }

  /**
   * A string whose glyphs have no ink (only whitespace, say) traces nothing,
   * adds no width and returns the position it started at.
   */
  lemma {:induction false} NoInkDrawsNothing(glyphs: seq<LaidOutGlyph>, position: Point)
    requires forall k :: 0 <= k < |glyphs| ==> glyphs[k].bboxMin.None?
    ensures DrawWidth(glyphs) == 0
    ensures StringEnd(glyphs, position) == position
    ensures InkedOutlines(glyphs, position.x as real, position.y as real) == []
    decreases |glyphs|
  {
    if glyphs != [] {
      NoInkDrawsNothing(glyphs[..|glyphs| - 1], position);
    }
  }

  /** Appending a glyph without ink changes neither the width nor the returned point. */
  lemma InklessGlyphAddsNothing(glyphs: seq<LaidOutGlyph>, g: LaidOutGlyph, position: Point)
    requires g.bboxMin.None?
    ensures DrawWidth(glyphs + [g]) == DrawWidth(glyphs)
    ensures StringEnd(glyphs + [g], position) == StringEnd(glyphs, position)
  {
    assert (glyphs + [g])[..|glyphs|] == glyphs;
  }

  // ---------------------------------------------------------------------
  // draw_string, measure_string, render_text

  /** One step of the `draw_string` loop: how the width, end point and outlines grow by glyph `i`. */
  lemma TraceStep(glyphs: seq<LaidOutGlyph>, i: nat, position: Point)
    requires i < |glyphs|
    ensures var g := glyphs[i];
      DrawWidth(glyphs[..i + 1]) == DrawWidth(glyphs[..i]) + (if g.bboxMin.Some? then GlyphExtent(g) else 0)
    ensures var g := glyphs[i];
      StringEnd(glyphs[..i + 1], position) ==
        if g.bboxMin.Some? then Point(g.bboxMin.value.x + position.x, position.y) else StringEnd(glyphs[..i], position)
    ensures var g := glyphs[i];
      InkedOutlines(glyphs[..i + 1], position.x as real, position.y as real) ==
        InkedOutlines(glyphs[..i], position.x as real, position.y as real) +
        if g.bboxMin.Some? then [TracedGlyph(g, (g.bboxMin.value.x + position.x) as real, (g.bboxMin.value.y + position.y) as real)] else []
  {
    assert glyphs[..i + 1][..i] == glyphs[..i];
  }

  /**
   * `draw_string`: traces the inked glyphs (the outline is never filled, so
   * no glyph ink reaches the target), sums their extents into the width, then
   * issues the background, strikethrough and underline fills in that order,
   * stopping at the first error. On success it returns `StringEnd`.
   */
  method DrawString(s: FontTextStyle, glyphs: seq<LaidOutGlyph>, position: Point, target: RecordingTarget)
    returns (r: Result<Point, string>, ghost outlines: seq<TracedGlyph>)
    modifies target
    ensures outlines == InkedOutlines(glyphs, position.x as real, position.y as real)
    ensures target.calls == old(target.calls) + Issued(DecorationFills(s, DrawWidth(glyphs), position), target.refused)
    ensures r.Ok? <==> AllAccepted(DecorationFills(s, DrawWidth(glyphs), position), target.refused)
    ensures r.Ok? ==> r.value == StringEnd(glyphs, position)
  {
    var p := position;
    outlines := [];
    var width := 0;
    var i := 0;
    while i < |glyphs|
      invariant 0 <= i <= |glyphs|
      invariant width == DrawWidth(glyphs[..i])
      invariant p == StringEnd(glyphs[..i], position) && p.y == position.y
      invariant outlines == InkedOutlines(glyphs[..i], position.x as real, position.y as real)
      invariant target.calls == old(target.calls)
    {
      var g := glyphs[i];
      TraceStep(glyphs, i, position);
      match g.bboxMin {
        case None =>
        case Some(min) =>
          var gx, gy := min.x + position.x, min.y + position.y;
          outlines := outlines + [TracedGlyph(g, gx as real, gy as real)];
          p := Point(gx, p.y);
          width := width + GlyphExtent(g);
      }
      i := i + 1;
    }
    assert glyphs[..i] == glyphs;

    ghost var bg, st, ul := BackgroundFills(s, width, position),
      DecorationFill(s, s.strikethroughColor, width, position), DecorationFill(s, s.underlineColor, width, position);
    ghost var calls0 := target.calls;
    IssuedThree(bg, st, ul, target.refused);
    assert DecorationFills(s, width, position) == bg + st + ul;

    var res := DrawBackground(s, width, position, target);
    if res.Err? {
      r := Err(res.error);
      return;
    }
    ConcatAssoc(calls0, Issued(bg, target.refused), Issued(st, target.refused));
    res := DrawStrikethrough(s, width, position, target);
    if res.Err? {
      r := Err(res.error);
      return;
    }
    ConcatAssoc(calls0, Issued(bg, target.refused) + Issued(st, target.refused), Issued(ul, target.refused));
    res := DrawUnderline(s, width, position, target);
    if res.Err? {
      r := Err(res.error);
      return;
    }
    r := Ok(p);
  }

  datatype TextMetrics = TextMetrics(boundingBox: Rectangle, nextPosition: Point)

  /** The width `measure_string` reports: the extent of the last glyph, inked or not; 0 for no glyphs. */
  function MeasuredWidth(glyphs: seq<LaidOutGlyph>): U32 {
    if glyphs == [] then SaturatingU32(Ceil(0.0)) else GlyphExtent(glyphs[|glyphs| - 1])
  }

  /**
   * `measure_string`: a box at the position, as wide as the measured width
   * and as tall as the font size; the next position is the box's top-right,
   * on the same line.
   */
  function MeasureString(s: FontTextStyle, glyphs: seq<LaidOutGlyph>, position: Point): (m: TextMetrics)
    ensures m.boundingBox.topLeft == position && m.boundingBox.size == Size(MeasuredWidth(glyphs), s.fontSize)
    ensures m.nextPosition == Point(position.x + m.boundingBox.size.width, position.y)
  {
    var size := Size(MeasuredWidth(glyphs), s.fontSize);
    TextMetrics(Rectangle(position, size), position.Add(Point(size.width, 0)))
  }

  /** An empty string measures zero wide and does not advance. */
  lemma MeasureEmpty(s: FontTextStyle, position: Point)
    ensures MeasureString(s, [], position).boundingBox.size.width == 0
    ensures MeasureString(s, [], position).nextPosition == position
  {
  }

  /** Only the last glyph matters to `measure_string`. */
  lemma MeasureUsesLastGlyphOnly(s: FontTextStyle, glyphs: seq<LaidOutGlyph>, g: LaidOutGlyph, position: Point)
    ensures MeasureString(s, glyphs + [g], position) == MeasureString(s, [g], position)
  {
  }

  /** `line_height`: the font size. */
  function LineHeight(s: FontTextStyle): (h: U32)
    ensures forall glyphs, position :: h == MeasureString(s, glyphs, position).boundingBox.size.height
  {
    s.fontSize
  }

  /** `vertical_offset`: the position, whatever the alignment. */
  function VerticalOffset(s: FontTextStyle, position: Point, alignment: VerticalAlignment): (p: Point)
    ensures p == position
    ensures p == MeasureString(s, [], position).boundingBox.topLeft
  {
    position
  }

  /**
   * `Font::measure_text`: the rounded-up reach of the last glyph (0 for an
   * empty string) and the rounded-up size.
   */
  function MeasureText(glyphs: seq<LaidOutGlyph>, size: real): (wh: (int, int))
    ensures glyphs == [] ==> wh.0 == 0
    ensures glyphs != [] ==>
      var last := glyphs[|glyphs| - 1].x + glyphs[|glyphs| - 1].advance;
      last <= wh.0 as real < last + 1.0
    ensures size <= wh.1 as real < size + 1.0
  {
    var last := if glyphs == [] then 0.0 else glyphs[|glyphs| - 1].x + glyphs[|glyphs| - 1].advance;
    (Ceil(last), Ceil(size))
  }

  datatype FillRule = Winding | EvenOdd

  /** One `fill_path` call: the outlines of the path, the paint and the fill rule. */
  datatype PathFill = PathFill(outlines: seq<TracedGlyph>, paint: Paint, rule: FillRule)

  /**
   * `Font::render_text`: traces every inked glyph at its bounding-box corner
   * moved by `position` into one path and fills that path once, with the
   * winding rule, when at least one glyph was traced.
   */
  method RenderText(glyphs: seq<LaidOutGlyph>, paint: Paint, position: (real, real)) returns (fill: Option<PathFill>)
    ensures fill.Some? <==> HasInk(glyphs)
    ensures fill.Some? ==> fill.value == PathFill(InkedOutlines(glyphs, position.0, position.1), paint, Winding)
  {
    var traced: seq<TracedGlyph> := [];
    var i := 0;
    while i < |glyphs|
      invariant 0 <= i <= |glyphs|
      invariant traced == InkedOutlines(glyphs[..i], position.0, position.1)
    {
      var g := glyphs[i];
      assert glyphs[..i + 1][..i] == glyphs[..i];
      match g.bboxMin {
        case None =>
        case Some(min) =>
          traced := traced + [TracedGlyph(g, min.x as real + position.0, min.y as real + position.1)];
      }
      i := i + 1;
    }
    assert glyphs[..i] == glyphs;
    InkedOutlinesAreInkedGlyphs(glyphs, position.0, position.1);
    if traced != [] {
      fill := Some(PathFill(traced, paint, Winding));
    } else {
      fill := None;
    }
  }
}
