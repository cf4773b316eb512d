/**
 Text helpers shared by both layouts: the font line height and the
 multi-line text splitter that wraps a string into at most `maxLine` rows
 of at most `maxWidth` pixels, dropping whatever does not fit.
 */
module Extension {
  import opened Numeric

  /** A paint's font metrics: `top` lies above the baseline, `bottom` below it. */
  datatype FontMetrics = FontMetrics(top: real, bottom: real, leading: real)

  predicate SaneMetrics(fm: FontMetrics) {
    fm.top < 0.0 < fm.bottom && 0.0 <= fm.leading
  }

  /** Distance between the baselines of two consecutive rows. */
  function FontLineHeight(fm: FontMetrics): (h: real)
    ensures SaneMetrics(fm) ==> fm.bottom - fm.top <= h && 0.0 < h
  {
    fm.bottom - fm.top + fm.leading
  }

  /**
   The text-measuring capabilities of a platform paint, which this model
   cannot see: `measureText(s)` is the drawn width of `s`, and
   `breakText(text, start, maxWidth)` is how many characters from `start`
   fit in `maxWidth` (measured forwards up to the end of the text).
   */
  datatype Paint = Paint(measureText: string -> real, breakText: (string, int, real) -> int, metrics: FontMetrics)

  /**
   The contract the model assumes of the platform paint: widths are
   non-negative, the empty string has none, and `breakText` consumes between
   nothing and the rest of the text, never more than fits.
   */
  ghost predicate MeasuresSoundly(p: Paint) {
    && (forall s :: 0.0 <= p.measureText(s))
    && p.measureText([]) == 0.0
    && (forall t, start, w :: BreakFits(p, t, start, w))
  }

  /** `breakText` from `start` consumes at most the rest of `t`, and what it consumes fits `w`. */
  ghost predicate BreakFits(p: Paint, t: string, start: int, w: real) {
    0 <= start <= |t| ==>
      && 0 <= p.breakText(t, start, w) <= |t| - start
      && (0.0 <= w ==> p.measureText(t[start..start + p.breakText(t, start, w)]) <= w)
  }

  lemma BreakTextContract(p: Paint, t: string, start: int, w: real)
    requires MeasuresSoundly(p)
    requires 0 <= start <= |t|
    ensures 0 <= p.breakText(t, start, w) <= |t| - start
    ensures 0.0 <= w ==> p.measureText(t[start..start + p.breakText(t, start, w)]) <= w
  {
    assert BreakFits(p, t, start, w);
  }

  /**
   How many rows are drawn for text of measured width `textW`: the text's
   width over the row width rounded up, or `maxLine` when that is more.
   A zero row width sends visible text to `maxLine` rows (the quotient is
   +infinity) and empty text to none (NaN); a negative one draws nothing.
   */
  function LineCount(textW: real, maxWidth: real, maxLine: nat): (n: nat)
    requires 0.0 <= textW
    ensures n <= maxLine
    ensures textW == 0.0 ==> n == 0
    ensures maxWidth == 0.0 && 0.0 < textW ==> n == maxLine
    ensures maxWidth < 0.0 ==> n == 0
  {
    var exceeds :=
      if maxWidth > 0.0 then textW / maxWidth > maxLine as real
      else maxWidth == 0.0 && textW > 0.0;
    if exceeds then maxLine
    else
      var c := CeilQuotient(textW, maxWidth);
      if c < 0 then 0 else c
  }

  /**
   With a positive row width the count is the fewest rows whose combined
   width covers the text, unless that is more than `maxLine`.
   */
  lemma LineCountCovers(textW: real, maxWidth: real, maxLine: nat)
    requires 0.0 <= textW && 0.0 < maxWidth
    ensures var n := LineCount(textW, maxWidth, maxLine);
            && n as real - 1.0 < textW / maxWidth
            && (n < maxLine ==> textW / maxWidth <= n as real)
  {
  }

  /**
   End offset of the first `k` rows: each row starts where the previous one
   ended and takes as many characters as `breakText` says fit.
   */
  function Cut(p: Paint, text: string, maxWidth: real, k: nat): (e: nat)
    requires MeasuresSoundly(p)
    ensures e <= |text|
  {
    if k == 0 then 0
    else
      var s := Cut(p, text, maxWidth, k - 1);
      BreakTextContract(p, text, s, maxWidth);
      s + p.breakText(text, s, maxWidth)
  }

  /** One `drawText` call: a string drawn with its baseline at (x, y). */
  datatype TextRun = TextRun(text: string, x: real, y: real)

  /** Row k: the k-th consecutive slice of the text, k line heights below y. */
  function Row(x: real, y: real, p: Paint, text: string, maxWidth: real, k: nat): (r: TextRun)
    requires MeasuresSoundly(p)
    ensures 0.0 <= maxWidth ==> p.measureText(r.text) <= maxWidth
  {
    var a := Cut(p, text, maxWidth, k);
    BreakTextContract(p, text, a, maxWidth);
    TextRun(text[a..Cut(p, text, maxWidth, k + 1)], x, y + k as real * FontLineHeight(p.metrics))
  }

  /**
   The rows `drawMultilineText` draws: as many as `LineCount` says, each a
   consecutive slice of the text, all at the same x and one line height apart.
   */
  function MultilineText(x: real, y: real, p: Paint, text: string, maxLine: nat, maxWidth: real): (runs: seq<TextRun>)
    requires MeasuresSoundly(p)
    ensures |runs| == LineCount(p.measureText(text), maxWidth, maxLine) <= maxLine
    ensures forall k :: 0 <= k < |runs| ==>
              runs[k].x == x && runs[k].y == y + k as real * FontLineHeight(p.metrics)
    ensures 0.0 <= maxWidth ==>
              forall k :: 0 <= k < |runs| ==> p.measureText(runs[k].text) <= maxWidth
  {
    var n := LineCount(p.measureText(text), maxWidth, maxLine);
    seq(n, k requires 0 <= k < n => Row(x, y, p, text, maxWidth, k))
  }

  /**
   The splitting loop as written: `start = end; end += breakText(...)`,
   repeated `line` times, drawing `text.substring(start, end)` each time.
   */
  method DrawMultilineText(x: real, y: real, p: Paint, text: string, maxLine: nat, maxWidth: real)
    returns (runs: seq<TextRun>)
    requires MeasuresSoundly(p)
    ensures runs == MultilineText(x, y, p, text, maxLine, maxWidth)
  {
    var line := LineCount(p.measureText(text), maxWidth, maxLine);
    var lh := FontLineHeight(p.metrics);
    var start, end := 0, 0;
    runs := [];
    var k := 0;
    while k < line
      invariant 0 <= k <= line
      invariant end == Cut(p, text, maxWidth, k)
      invariant |runs| == k
      invariant forall j :: 0 <= j < k ==> runs[j] == Row(x, y, p, text, maxWidth, j)
    {
      start := end;
      BreakTextContract(p, text, start, maxWidth);
      end := end + p.breakText(text, start, maxWidth);
      runs := runs + [TextRun(text[start..end], x, y + k as real * lh)];
      k := k + 1;
    }
  }

  /** The characters a sequence of rows shows, in order. */
  function Joined(runs: seq<TextRun>): string
  {
    if |runs| == 0 then [] else Joined(runs[..|runs| - 1]) + runs[|runs| - 1].text
  }

  /** Row ends never move backwards. */
  lemma {:induction false} CutMonotone(p: Paint, text: string, maxWidth: real, i: nat, j: nat)
    requires MeasuresSoundly(p)
    requires i <= j
    ensures Cut(p, text, maxWidth, i) <= Cut(p, text, maxWidth, j)
    decreases j - i
  {
    if i < j {
      CutMonotone(p, text, maxWidth, i, j - 1);
      BreakTextContract(p, text, Cut(p, text, maxWidth, j - 1), maxWidth);
    }
  }

  /**
   The drawn rows, read in order, are exactly the first `Cut(n)` characters
   of the text: consecutive, non-overlapping, nothing skipped; the rest of
   the text is dropped without a marker.
   */
  lemma {:induction false} RowsSpellTextPrefix(x: real, y: real, p: Paint, text: string, maxLine: nat, maxWidth: real)
    requires MeasuresSoundly(p)
    ensures var runs := MultilineText(x, y, p, text, maxLine, maxWidth);
            Joined(runs) == text[..Cut(p, text, maxWidth, |runs|)]
  {
    var runs := MultilineText(x, y, p, text, maxLine, maxWidth);
    JoinedPrefix(x, y, p, text, maxLine, maxWidth, |runs|);
    assert runs[..|runs|] == runs;
  }

  lemma {:induction false} JoinedPrefix(x: real, y: real, p: Paint, text: string, maxLine: nat, maxWidth: real, k: nat)
    requires MeasuresSoundly(p)
    requires k <= |MultilineText(x, y, p, text, maxLine, maxWidth)|
    ensures Joined(MultilineText(x, y, p, text, maxLine, maxWidth)[..k]) == text[..Cut(p, text, maxWidth, k)]
  {
    var runs := MultilineText(x, y, p, text, maxLine, maxWidth);
    if k > 0 {
      JoinedPrefix(x, y, p, text, maxLine, maxWidth, k - 1);
      assert runs[..k][..k - 1] == runs[..k - 1];
      var a := Cut(p, text, maxWidth, k - 1);
      var b := Cut(p, text, maxWidth, k);
      CutMonotone(p, text, maxWidth, k - 1, k);
      assert runs[k - 1] == Row(x, y, p, text, maxWidth, k - 1);
      assert runs[k - 1].text == text[a..b];
      assert text[..a] + text[a..b] == text[..b];
    }
  }

  /**
   The splitter does not stop when the text runs out: once a row ends at
   the end of the text, every later row is drawn and is empty.
   */
  lemma {:induction false} ExhaustedTextGivesEmptyRows(x: real, y: real, p: Paint, text: string, maxLine: nat, maxWidth: real, k: nat)
    requires MeasuresSoundly(p)
    requires Cut(p, text, maxWidth, k) == |text|
    ensures var runs := MultilineText(x, y, p, text, maxLine, maxWidth);
            forall j :: k <= j < |runs| ==> runs[j].text == []
  {
    var runs := MultilineText(x, y, p, text, maxLine, maxWidth);
    forall j | k <= j < |runs|
      ensures runs[j].text == []
    {
      CutMonotone(p, text, maxWidth, k, j);
      CutMonotone(p, text, maxWidth, k, j + 1);
      assert runs[j] == Row(x, y, p, text, maxWidth, j);
    }
  }
}
