/**
 The step record and the closed enumerations that drive the widget: node
 state, drawing direction and orientation, and the outcome of a click.
 */
module Steps {

  datatype Option<+T> = None | Some(value: T)

  /** Progress of one step; it alone selects icon, tint and title colour. */
  datatype State = Undo | Doing | Done | Warn

  /** The edge from which node 0 is drawn. */
  datatype Direction = FromLeft | FromRight | FromTop | FromBottom

  datatype Orientation = Horizontal | Vertical

  /**
   One step. `detail` is `None` when the step has no subtitle; `isFinished`
   is a reserved flag that no drawing or hit-test code reads.
   */
  datatype StepModel = StepModel(title: string, detail: Option<string>, state: State, isFinished: bool)

  /** A step built from a title alone takes the declared defaults. */
  function NewStep(title: string): (m: StepModel)
    ensures m.title == title
    ensures m.detail.None? && m.state == Undo && !m.isFinished
  {
    StepModel(title, None, Undo, false)
  }

  /** The documented but unchecked requirement that a title is not empty. */
  predicate HasTitle(m: StepModel) {
    |m.title| > 0
  }

  /**
   Kotlin's `Char.isWhitespace()`: the JVM's whitespace controls and the
   Unicode space, line and paragraph separators.
   */
  predicate IsWhitespace(c: char) {
    var u := c as int;
    || 0x09 <= u <= 0x0D
    || 0x1C <= u <= 0x20
    || u == 0xA0
    || u == 0x1680
    || 0x2000 <= u <= 0x200A
    || u == 0x2028 || u == 0x2029
    || u == 0x202F || u == 0x205F
    || u == 0x3000
  }

  /** A printable ASCII character other than the space. */
  predicate IsVisibleAscii(c: char) {
    0x21 <= c as int <= 0x7E
  }

  /**
   Kotlin's `isBlank()`: every character is whitespace. The empty string
   is blank; a string holding any visible ASCII character is not.
   */
  function IsBlank(s: string): (b: bool)
    ensures |s| == 0 ==> b
    ensures (exists i :: 0 <= i < |s| && IsVisibleAscii(s[i])) ==> !b
  {
    forall i :: 0 <= i < |s| ==> IsWhitespace(s[i])
  }

  /**
   `!detail.isNullOrBlank()`: the step has a visible subtitle. A missing
   or empty detail never counts; one with a visible character always does.
   */
  function HasDetail(m: StepModel): (b: bool)
    ensures b ==> m.detail.Some? && |m.detail.value| > 0
    ensures m.detail.Some? && (exists i :: 0 <= i < |m.detail.value| && IsVisibleAscii(m.detail.value[i])) ==> b
  {
    m.detail.Some? && !IsBlank(m.detail.value)
  }

  /** The same step with another state; nothing else changes. */
  function WithState(m: StepModel, s: State): (r: StepModel)
    ensures r.state == s
    ensures r.title == m.title && r.detail == m.detail && r.isFinished == m.isFinished
  {
    m.(state := s)
  }

  /**
   What a press hands to the click listener: the logical index with its
   node, nothing, or the exception that indexing the node list raises.
   */
  datatype Click = Clicked(index: int, node: StepModel) | NoClick | IndexOutOfBounds
}
