/** `FontText`: a string and the top-left position it is drawn at. */
module FontTexts {
  import opened Geometry
  import opened FontStyles

  datatype FontText = FontText(text: string, position: Point)

  /** `Styled`: a drawable paired with its style. */
  datatype Styled = Styled(primitive: FontText, style: FontStyle)

  /** `FontText::new`: stores the text and the position as given. */
  function NewFontText(text: string, position: Point): (t: FontText)
    ensures t.text == text && t.position == position
  {
    FontText(text, position)
  }

  /** `into_styled`: the unchanged text object with the given style. */
  function IntoStyled(t: FontText, style: FontStyle): (s: Styled)
    ensures s.primitive == t && s.style == style
  {
    Styled(t, style)
  }

  /** `translate`: a copy moved by `offset`, with the same text. */
  function Translate(t: FontText, offset: Point): (r: FontText)
    ensures r.text == t.text
    ensures r.position.x - t.position.x == offset.x && r.position.y - t.position.y == offset.y
  {
    t.(position := t.position.Add(offset))
  }

  /**
   * `translate_mut`: moves the text object itself by `offset`. The object is
   * a plain value, so the moved object is returned; it is what `translate`
   * gives.
   */
  method TranslateMut(t: FontText, offset: Point) returns (moved: FontText)
    ensures moved == Translate(t, offset)
  {
    moved := t;
    moved := moved.(position := moved.position.Add(offset));
  }

  /** Moving by nothing is the identity. */
  lemma TranslateZero(t: FontText)
    ensures Translate(t, Origin) == t
  {
  }

  /** Two moves are one move by the sum. */
  lemma TranslateCompose(t: FontText, a: Point, b: Point)
    ensures Translate(Translate(t, a), b) == Translate(t, a.Add(b))
  {
  }
}
