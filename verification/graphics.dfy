/**
 What the layouts draw, as values: colours (by role), icon glyphs, icon
 boxes and connecting lines, with the colour rules both layouts share.
 */
module Graphics {
  import opened Numeric
  import opened Steps

  /** Colours by role; the concrete values come from the host's resources. */
  datatype Colour = TitleColour | BlackColour | DoneColour | UndoColour

  /** The four vector icons shipped as resources. */
  datatype IconRes = UndoRes | DoingRes | DoneRes | WarnRes

  /** A numbered circle (its number and fill), or a resource icon with its tint. */
  datatype Glyph = NumberCircle(number: int, tint: Colour) | Resource(res: IconRes, tint: Colour)

  datatype Rect = Rect(left: int, top: int, right: int, bottom: int)

  datatype Icon = Icon(bounds: Rect, glyph: Glyph)

  datatype Line = Line(x0: real, y0: real, x1: real, y1: real, colour: Colour)

  /**
   `s` is the real coordinate `e` rounded toward zero: the largest integer
   not above a non-negative `e`, the least integer not below a negative one.
   */
  predicate TruncatedFrom(s: int, e: real) {
    (0.0 <= e ==> s as real <= e < s as real + 1.0) && (e < 0.0 ==> s as real - 1.0 < e <= s as real)
  }

  /**
   The icon's integer box around the centre (cx, cy): each side is the
   matching edge of the circle of radius r truncated toward zero, so the
   box is never inverted for a non-negative radius.
   */
  function IconBounds(cx: real, cy: real, r: real): (b: Rect)
    ensures TruncatedFrom(b.left, cx - r) && TruncatedFrom(b.right, cx + r)
    ensures TruncatedFrom(b.top, cy - r) && TruncatedFrom(b.bottom, cy + r)
    ensures 0.0 <= r ==> b.left <= b.right && b.top <= b.bottom
  {
    Rect(Trunc(cx - r), Trunc(cy - r), Trunc(cx + r), Trunc(cy + r))
  }

  /**
   The line from node i to node i + 1 shows completion only when node i is
   done and node i + 1 has at least been reached.
   */
  function ConnectorColour(cur: State, next: State): (c: Colour)
    ensures c == DoneColour || c == UndoColour
    ensures c == DoneColour <==> cur == Done && next != Undo
  {
    if cur == Done && next != Undo then DoneColour else UndoColour
  }

  /** A pending step's title is greyed; every other title is black. */
  function TitleColourFor(s: State): (c: Colour)
    ensures c == TitleColour <==> s == Undo
    ensures c == TitleColour || c == BlackColour
  {
    if s == Undo then TitleColour else BlackColour
  }

  /** The state a glyph stands for, read back from its shape and tint. */
  function GlyphState(g: Glyph): State
  {
    match g
    case NumberCircle(_, tint) => if tint == UndoColour then Undo else Doing
    case Resource(res, _) =>
      match res
      case UndoRes => Undo
      case DoingRes => Doing
      case DoneRes => Done
      case WarnRes => Warn
  }
}
