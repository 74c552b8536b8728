/** Styled text as the engine sees an `NSAttributedString`: a sequence of units,
    each a character or an attachment, each with the two attributes the engine
    reads (font and paragraph style). */
module Attributed {
  import opened Wrappers
  import opened Catalog

  /** The font metrics the engine reads. */
  datatype Font = Font(name: string, pointSize: real, capHeight: real)

  /** An opaque paragraph style, passed through unchanged. */
  datatype ParagraphStyle = ParagraphStyle(id: nat)

  /** The attributes of one unit that the engine consumes. */
  datatype Style = Style(font: Option<Font>, paragraphStyle: Option<ParagraphStyle>)

  const NoStyle: Style := Style(None, None)

  datatype Rect = Rect(x: real, y: real, width: real, height: real)

  /** An inline attachment: the emoji data it carries (the resolved catalog entry,
      standing for its JSON encoding) and its layout bounds. */
  datatype EmojiAttachment = EmojiAttachment(emojiData: EmojiSource, bounds: Rect)

  /** One unit of text. An attachment occupies exactly one unit. */
  datatype Unit =
    | Ch(c: char, style: Style)
    | Attached(attachment: EmojiAttachment, style: Style)

  /** The character Foundation shows for an attachment in `string`. */
  const ObjectReplacement: char := '￼'

  function CharOf(u: Unit): char
  {
    match u
    case Ch(c, _) => c
    case Attached(_, _) => ObjectReplacement
  }

  /** The plain `string` of a styled text. */
  function Plain(units: seq<Unit>): (s: string)
    ensures |s| == |units|
    ensures forall i :: 0 <= i < |units| ==> s[i] == CharOf(units[i])
    decreases |units|
  {
    if units == [] then [] else [CharOf(units[0])] + Plain(units[1..])
  }
}
