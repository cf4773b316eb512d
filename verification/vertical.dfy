/**
 The vertical layout: one row per node, stacked from the top (`FromTop`)
 or from the bottom (`FromBottom`). A row is a share of the free height
 plus the extra height its wrapped title and detail need; those extras are
 measured once per measure pass and kept in a per-index cache that drawing
 and hit testing read back.
 */
module Vertical {
  import opened Numeric
  import opened Steps
  import opened Extension
  import opened Graphics
  import opened Host

  /** Base height of a row, in dp. */
  const NodeHeightDp: real := 66.0
  const TitleMaxLines: nat := 2
  const DetailMaxLines: nat := 2
  /** Offset from a row's top to its icon centre, beyond the icon diameter, in dp. */
  const IconTopGapDp: real := 5.0
  /** Gap between the title block and the detail, in dp. */
  const DetailGapDp: real := 6.0

  /**
   The measurement cache: extra height per node index (cleared at the start
   of every measure pass) and title row count per node index (never cleared).
   */
  datatype Cache = Cache(textHeightAdded: map<int, real>, titleLine: map<int, int>)

  const EmptyCache: Cache := Cache(map[], map[])

  /** The cache holds an extra height for exactly the indices of `n` nodes. */
  predicate CacheCovers(cache: Cache, n: nat) {
    && (forall k :: 0 <= k < n ==> k in cache.textHeightAdded)
    && (forall k :: k in cache.textHeightAdded ==> 0 <= k < n)
  }

  // ---------------------------------------------------------------- measure

  /** `ceil(needW / availW).toInt()`, lowered to `cap` when above it (never raised). */
  function CappedLines(needW: real, availW: real, cap: int): (n: int)
    requires 0.0 <= needW
    ensures n <= cap
    ensures needW == 0.0 ==> n == Min(0, cap)
    ensures 0.0 < availW && 0.0 < needW && 1 <= cap ==> 1 <= n
  {
    var n := CeilQuotient(needW, availW);
    if n > cap then cap else n
  }

  /** Width left for text in a row: the measured width less paddings, icon diameter and gap. */
  function AvailTextWidth(widthSize: real, f: Frame, style: Style): real {
    widthSize - f.paddingLeft as real - f.paddingRight as real - style.iconRadius * 2.0 - style.icon2TextPadding
  }

  function TitleLines(node: StepModel, style: Style, avail: real): int
    requires ValidStyle(style)
  {
    CappedLines(style.titlePaint.measureText(node.title), avail, TitleMaxLines)
  }

  function DetailLines(detail: string, style: Style, avail: real): int
    requires ValidStyle(style)
  {
    CappedLines(style.detailPaint.measureText(detail), avail, DetailMaxLines)
  }

  /** Height of the title rows beyond the first. */
  function TitlePart(node: StepModel, style: Style, avail: real): real
    requires ValidStyle(style)
  {
    (TitleLines(node, style, avail) - 1) as real * FontLineHeight(style.titlePaint.metrics)
  }

  /** Height of the detail rows beyond the first. */
  function DetailPart(detail: string, style: Style, avail: real): real
    requires ValidStyle(style)
  {
    (DetailLines(detail, style, avail) - 1) as real * FontLineHeight(style.detailPaint.metrics)
  }

  /**
   Height a node needs beyond the base row: its second title row and
   second detail row, if any. Whatever the width, it never exceeds one
   title row plus one detail row (one title row without a detail).
   */
  function ExtraHeight(node: StepModel, style: Style, avail: real): (e: real)
    requires ValidStyle(style)
    ensures SaneMetrics(style.titlePaint.metrics) && !HasDetail(node) ==>
              e <= FontLineHeight(style.titlePaint.metrics)
    ensures SaneMetrics(style.titlePaint.metrics) && SaneMetrics(style.detailPaint.metrics) ==>
              e <= FontLineHeight(style.titlePaint.metrics) + FontLineHeight(style.detailPaint.metrics)
  {
    RowsBeyondFirstAtMostOne(TitleLines(node, style, avail), FontLineHeight(style.titlePaint.metrics));
    if HasDetail(node) then
      RowsBeyondFirstAtMostOne(DetailLines(node.detail.value, style, avail), FontLineHeight(style.detailPaint.metrics));
      TitlePart(node, style, avail) + DetailPart(node.detail.value, style, avail)
    else TitlePart(node, style, avail)
  }

  /** With at most two rows, the rows beyond the first take at most one row height. */
  lemma RowsBeyondFirstAtMostOne(lines: int, lh: real)
    requires lines <= 2
    ensures 0.0 < lh ==> (lines - 1) as real * lh <= lh
  {
    if 0.0 < lh {
      assert (1.0 - (lines - 1) as real) * lh >= 0.0;
    }
  }

  /** The extra heights of all nodes, in index order. */
  function Extras(nodes: seq<StepModel>, style: Style, avail: real): (e: seq<real>)
    requires ValidStyle(style)
    ensures |e| == |nodes|
    ensures forall i :: 0 <= i < |nodes| ==> e[i] == ExtraHeight(nodes[i], style, avail)
  {
    seq(|nodes|, i requires 0 <= i < |nodes| => ExtraHeight(nodes[i], style, avail))
  }

  /**
   The `forEachIndexed` loop of the measure pass from index `i` on: each
   node's title row count and extra height are put under its index.
   */
  function Fill(nodes: seq<StepModel>, style: Style, avail: real, i: nat, cache: Cache): (r: Cache)
    requires ValidStyle(style)
    requires i <= |nodes|
    ensures forall k :: k in r.textHeightAdded <==> k in cache.textHeightAdded || i <= k < |nodes|
    ensures forall k :: k in r.titleLine <==> k in cache.titleLine || i <= k < |nodes|
    ensures forall k :: i <= k < |nodes| ==>
              r.textHeightAdded[k] == ExtraHeight(nodes[k], style, avail)
              && r.titleLine[k] == TitleLines(nodes[k], style, avail)
    ensures forall k :: k in cache.textHeightAdded && !(i <= k < |nodes|) ==>
              r.textHeightAdded[k] == cache.textHeightAdded[k]
    ensures forall k :: k in cache.titleLine && !(i <= k < |nodes|) ==>
              r.titleLine[k] == cache.titleLine[k]
    decreases |nodes| - i
  {
    if i == |nodes| then cache
    else
      Fill(nodes, style, avail, i + 1,
           Cache(cache.textHeightAdded[i := ExtraHeight(nodes[i], style, avail)],
                 cache.titleLine[i := TitleLines(nodes[i], style, avail)]))
  }

  /** The cached extra heights of indices 0 .. n-1, in order. */
  function CachedExtras(cache: Cache, n: nat): (e: seq<real>)
    requires forall i :: 0 <= i < n ==> i in cache.textHeightAdded
    ensures |e| == n
  {
    seq(n, i requires 0 <= i < n => cache.textHeightAdded[i])
  }

  /**
   The height a vertical view asks for, given every node's extra height:
   one base row when there are no nodes, else a base row per node plus the
   extras, summed and truncated, the total truncated again.
   */
  function DesiredHeight(dp: real, extras: seq<real>): (h: int)
    ensures |extras| == 0 ==> h == Trunc(NodeHeightDp * dp)
    ensures 0 < |extras| && 0.0 <= Sum(extras) ==>
              var base := NodeHeightDp * dp * |extras| as real;
              Trunc(base) <= h <= Trunc(base + Sum(extras))
  {
    if |extras| == 0 then Trunc(NodeHeightDp * dp)
    else
      var base := NodeHeightDp * dp * |extras| as real;
      if 0.0 <= Sum(extras) then
        TruncOfAddedTruncBounds(base, Sum(extras));
        Trunc(base + Trunc(Sum(extras)) as real)
      else Trunc(base + Trunc(Sum(extras)) as real)
  }

  /** A measure result together with the cache the pass left behind. */
  datatype Measurement = Measurement(cache: Cache, result: Measured)

  /**
   `getMeasureSpec`: with no nodes, one base row; otherwise a base row per
   node plus the truncated sum of all extras. The extra-height cache ends up
   holding exactly one entry per node, the title-line cache gains one per
   node and keeps its stale entries.
   */
  function GetMeasureSpec(nodes: seq<StepModel>, f: Frame, style: Style,
                          widthSpec: MeasureSpec, heightSpec: MeasureSpec, cache: Cache): (r: Measurement)
    requires ValidStyle(style)
    ensures r.result.widthSpec == widthSpec
    ensures CacheCovers(r.cache, |nodes|)
    ensures var avail := AvailTextWidth(widthSpec.size as real, f, style);
            forall i :: 0 <= i < |nodes| ==>
              && r.cache.textHeightAdded[i] == ExtraHeight(nodes[i], style, avail)
              && i in r.cache.titleLine && r.cache.titleLine[i] == TitleLines(nodes[i], style, avail)
    ensures forall k :: k in cache.titleLine && !(0 <= k < |nodes|) ==>
              k in r.cache.titleLine && r.cache.titleLine[k] == cache.titleLine[k]
    ensures r.result.height == ResolveSize(DesiredHeight(style.dp, Extras(nodes, style, AvailTextWidth(widthSpec.size as real, f, style))), heightSpec)
  {
    var avail := AvailTextWidth(widthSpec.size as real, f, style);
    var filled := Fill(nodes, style, avail, 0, cache.(textHeightAdded := map[]));
    var extras := CachedExtras(filled, |nodes|);
    assert extras == Extras(nodes, style, avail);
    Measurement(filled, Measured(widthSpec, ResolveSize(DesiredHeight(style.dp, extras), heightSpec)))
  }

  // ---------------------------------------------------------------- measure lemmas

  /** The measured row count agrees with the number of rows the text splitter draws at that width. */
  lemma CappedLinesMatchLineCount(needW: real, availW: real, cap: nat)
    requires 0.0 <= needW && 0.0 < availW
    ensures CappedLines(needW, availW, cap) == LineCount(needW, availW, cap)
  {
    LineCountCovers(needW, availW, cap);
  }

  /** More text never needs fewer rows. */
  lemma CappedLinesMonotone(needW: real, needW': real, availW: real, cap: int)
    requires 0.0 <= needW <= needW' && 0.0 <= availW
    ensures CappedLines(needW, availW, cap) <= CappedLines(needW', availW, cap)
  {
    if 0.0 < availW {
      CeilQuotientMonotone(needW, needW', availW);
    }
  }

  /**
   For a node with a non-empty measured title (and detail, if it has one),
   the extra height is between nothing and one title row plus one detail row.
   */
  lemma ExtraHeightBounds(node: StepModel, style: Style, avail: real)
    requires ValidStyle(style)
    requires SaneMetrics(style.titlePaint.metrics) && SaneMetrics(style.detailPaint.metrics)
    requires 0.0 < avail
    requires 0.0 < style.titlePaint.measureText(node.title)
    requires HasDetail(node) ==> 0.0 < style.detailPaint.measureText(node.detail.value)
    ensures 0.0 <= ExtraHeight(node, style, avail)
    ensures ExtraHeight(node, style, avail)
            <= FontLineHeight(style.titlePaint.metrics) + FontLineHeight(style.detailPaint.metrics)
  {
  }

  /**
   An empty title (which nothing rejects) measures zero rows, so a node
   without detail makes its row one title line shorter than the base.
   */
  lemma EmptyTitleShrinksRow(node: StepModel, style: Style, avail: real)
    requires ValidStyle(style)
    requires !HasTitle(node) && !HasDetail(node)
    ensures TitleLines(node, style, avail) == 0
    ensures ExtraHeight(node, style, avail) == -FontLineHeight(style.titlePaint.metrics)
  {
  }

  /**
   When the row is narrower than the paddings, icon and gap, the width left
   for text is negative and the row count `ceil(w / avail)` goes down as the
   title gets wider: at avail = -50 a 10 px title counts 0 rows and a 100 px
   one counts -2, so the wider title yields the smaller extra height.
   */
  lemma NegativeWidthReversesExtraHeight(node: StepModel, node': StepModel, style: Style)
    requires ValidStyle(style) && SaneMetrics(style.titlePaint.metrics)
    requires style.titlePaint.measureText(node.title) == 10.0
    requires style.titlePaint.measureText(node'.title) == 100.0
    requires !HasDetail(node) && !HasDetail(node')
    ensures TitleLines(node, style, -50.0) == 0 && TitleLines(node', style, -50.0) == -2
    ensures ExtraHeight(node', style, -50.0) < ExtraHeight(node, style, -50.0)
  {
    assert CeilQuotient(10.0, -50.0) == 0;
    assert CeilQuotient(100.0, -50.0) == -2;
  }

  lemma ExtraHeightMonotone(node: StepModel, node': StepModel, style: Style, avail: real)
    requires ValidStyle(style)
    requires SaneMetrics(style.titlePaint.metrics) && SaneMetrics(style.detailPaint.metrics)
    requires 0.0 <= avail
    requires style.titlePaint.measureText(node.title) <= style.titlePaint.measureText(node'.title)
    requires HasDetail(node) == HasDetail(node')
    requires HasDetail(node) ==>
               style.detailPaint.measureText(node.detail.value) <= style.detailPaint.measureText(node'.detail.value)
    ensures ExtraHeight(node, style, avail) <= ExtraHeight(node', style, avail)
  {
    var tw, tw' := style.titlePaint.measureText(node.title), style.titlePaint.measureText(node'.title);
    CappedLinesMonotone(tw, tw', avail, TitleMaxLines);
    RowsBeyondFirstMonotone(TitleLines(node, style, avail), TitleLines(node', style, avail),
                            FontLineHeight(style.titlePaint.metrics));
    if HasDetail(node) {
      var d, d' := node.detail.value, node'.detail.value;
      CappedLinesMonotone(style.detailPaint.measureText(d), style.detailPaint.measureText(d'), avail, DetailMaxLines);
      RowsBeyondFirstMonotone(DetailLines(d, style, avail), DetailLines(d', style, avail),
                              FontLineHeight(style.detailPaint.metrics));
    }
  }

  /** More rows never take less height. */
  lemma RowsBeyondFirstMonotone(a: int, b: int, lh: real)
    requires a <= b && 0.0 < lh
    ensures (a - 1) as real * lh <= (b - 1) as real * lh
  {
    assert ((b - 1) as real - (a - 1) as real) * lh >= 0.0;
  }

  /** Adding a larger truncated amount to the same base never truncates lower. */
  lemma TruncOfAddedTruncMonotone(base: real, s: real, s': real)
    requires s <= s'
    ensures Trunc(base + Trunc(s) as real) <= Trunc(base + Trunc(s') as real)
  {
    TruncMonotone(s, s');
    TruncMonotone(base + Trunc(s) as real, base + Trunc(s') as real);
  }

  /** A view without nodes asks for one base row. */
  lemma EmptyListMeasuresOneRow(f: Frame, style: Style, widthSpec: MeasureSpec, heightSpec: MeasureSpec, cache: Cache)
    requires ValidStyle(style)
    ensures GetMeasureSpec([], f, style, widthSpec, heightSpec, cache).result.height
            == ResolveSize(Trunc(NodeHeightDp * style.dp), heightSpec)
  {
  }

  /**
   With no negative extra, the desired height is at least the base rows
   and at most the base rows plus the untruncated sum of the extras.
   */
  lemma DesiredHeightBounds(dp: real, e: seq<real>)
    requires 0 < |e|
    requires forall i :: 0 <= i < |e| ==> 0.0 <= e[i]
    ensures Trunc(NodeHeightDp * dp * |e| as real) <= DesiredHeight(dp, e)
    ensures DesiredHeight(dp, e) <= Trunc(NodeHeightDp * dp * |e| as real + Sum(e))
  {
    SumNonNegative(e);
  }

  lemma SumNonNegative(e: seq<real>)
    requires forall i :: 0 <= i < |e| ==> 0.0 <= e[i]
    ensures 0.0 <= Sum(e)
  {
    PrefixSumMonotone(e, 0, |e|);
    assert e[..0] == [] && e[..|e|] == e;
  }

  /** Adding the truncation of a non-negative amount lands between adding nothing and adding all of it. */
  lemma TruncOfAddedTruncBounds(base: real, s: real)
    requires 0.0 <= s
    ensures Trunc(base) <= Trunc(base + Trunc(s) as real) <= Trunc(base + s)
  {
    TruncMonotone(base, base + Trunc(s) as real);
    TruncMonotone(base + Trunc(s) as real, base + s);
  }

  /** Larger extras never lower the desired height. */
  lemma DesiredHeightMonotone(dp: real, e: seq<real>, e': seq<real>)
    requires |e| == |e'|
    requires forall i :: 0 <= i < |e| ==> e[i] <= e'[i]
    ensures DesiredHeight(dp, e) <= DesiredHeight(dp, e')
  {
    if 0 < |e| {
      SumMonotone(e, e');
      var base := NodeHeightDp * dp * |e| as real;
      assert NodeHeightDp * dp * |e'| as real == base;
      TruncOfAddedTruncMonotone(base, Sum(e), Sum(e'));
    }
  }

  /**
   At a fixed width, widening any node's measured title or detail never
   lowers the measured height, whatever the parent's constraint.
   */
  lemma HeightMonotone(nodes: seq<StepModel>, nodes': seq<StepModel>, f: Frame, style: Style,
                       widthSpec: MeasureSpec, heightSpec: MeasureSpec, cache: Cache, cache': Cache)
    requires ValidStyle(style)
    requires SaneMetrics(style.titlePaint.metrics) && SaneMetrics(style.detailPaint.metrics)
    requires 0.0 <= AvailTextWidth(widthSpec.size as real, f, style)
    requires |nodes| == |nodes'|
    requires forall i :: 0 <= i < |nodes| ==>
               && style.titlePaint.measureText(nodes[i].title) <= style.titlePaint.measureText(nodes'[i].title)
               && HasDetail(nodes[i]) == HasDetail(nodes'[i])
               && (HasDetail(nodes[i]) ==>
                     style.detailPaint.measureText(nodes[i].detail.value)
                     <= style.detailPaint.measureText(nodes'[i].detail.value))
    ensures GetMeasureSpec(nodes, f, style, widthSpec, heightSpec, cache).result.height
            <= GetMeasureSpec(nodes', f, style, widthSpec, heightSpec, cache').result.height
  {
    var avail := AvailTextWidth(widthSpec.size as real, f, style);
    var e, e' := Extras(nodes, style, avail), Extras(nodes', style, avail);
    forall i | 0 <= i < |nodes|
      ensures e[i] <= e'[i]
    {
      ExtraHeightMonotone(nodes[i], nodes'[i], style, avail);
    }
    DesiredHeightMonotone(style.dp, e, e');
    ResolveSizeMonotone(DesiredHeight(style.dp, e), DesiredHeight(style.dp, e'), heightSpec);
  }

  // ---------------------------------------------------------------- draw

  /** The share of the free height every row gets before its extra. */
  function ItemH(f: Frame, extras: seq<real>): real
    requires 0 < |extras|
  {
    (f.totalH - f.paddingTop as real - f.paddingBottom as real - Sum(extras)) / |extras| as real
  }

  /** Row i's height: the shared item height plus its own extra. */
  function RowHeights(f: Frame, extras: seq<real>): (h: seq<real>)
    requires 0 < |extras|
    ensures |h| == |extras|
  {
    Shift(extras, ItemH(f, extras))
  }

  /** Top edge of row i: rows stack down from the top padding, or up from the bottom padding. */
  function RowTop(f: Frame, dir: Direction, heights: seq<real>, i: nat): real
    requires i < |heights|
  {
    if dir == FromTop then f.paddingTop as real + Sum(heights[..i])
    else f.totalH - f.paddingBottom as real - Sum(heights[..i + 1])
  }

  function IconX(f: Frame, style: Style): real {
    f.paddingLeft as real + style.iconRadius
  }

  function TextX(f: Frame, style: Style): real {
    IconX(f, style) + style.iconRadius + style.icon2TextPadding
  }

  /** Icon centre of a row whose top is at `top`. */
  function IconY(style: Style, top: real): real {
    top + style.iconRadius * 2.0 + IconTopGapDp * style.dp
  }

  /** Resource icons only, tinted with the undo colour when pending and the done colour otherwise. */
  function RowGlyph(s: State): (g: Glyph)
    ensures g.Resource? && GlyphState(g) == s
    ensures g.tint == (if s == Undo then UndoColour else DoneColour)
  {
    match s
    case Undo => Resource(UndoRes, UndoColour)
    case Doing => Resource(DoingRes, DoneColour)
    case Done => Resource(DoneRes, DoneColour)
    case Warn => Resource(WarnRes, DoneColour)
  }

  /** Everything drawn for one row. */
  datatype RowDrawing = RowDrawing(connector: Option<Line>, iconY: real, icon: Icon,
                                   title: seq<TextRun>, titleColour: Colour, detail: seq<TextRun>)

  /** `SparseIntArray.get`: a missing index reads as 0. */
  function TitleLineAt(titleLine: map<int, int>, i: int): int {
    if i in titleLine then titleLine[i] else 0
  }

  /** Width of the text column, from the drawn width. */
  function TextWidth(f: Frame, style: Style): real {
    f.totalW - f.paddingLeft as real - f.paddingRight as real - style.iconRadius * 2.0 - style.icon2TextPadding
  }

  /**
   The line from row i's icon toward row i + 1's, drawn only when there is a
   row i + 1 (a missing next node or a missing cached extra throws inside
   `runCatching` and draws nothing).
   */
  function RowConnector(nodes: seq<StepModel>, style: Style, dir: Direction, extras: seq<real>,
                        itemH: real, i: nat, ix: real, iy: real): Option<Line>
    requires i < |nodes| == |extras|
  {
    if i + 1 < |nodes| then
      var colour := ConnectorColour(nodes[i].state, nodes[i + 1].state);
      var pad := style.line2IconPadding;
      if dir == FromTop then Some(Line(ix, iy + pad, ix, iy + (itemH + extras[i]) - pad, colour))
      else Some(Line(ix, iy - pad, ix, iy - (itemH + extras[i + 1]) + pad, colour))
    else None
  }

  /** The title, a quarter line height below the icon centre. */
  function RowTitle(f: Frame, style: Style, node: StepModel, iy: real): seq<TextRun>
    requires ValidStyle(style)
  {
    var tlh := FontLineHeight(style.titlePaint.metrics);
    MultilineText(TextX(f, style), iy + tlh / 4.0, style.titlePaint, node.title, TitleMaxLines, TextWidth(f, style))
  }

  /** The detail, if any, placed below as many title rows as the cache recorded for index i. */
  function RowDetail(f: Frame, style: Style, node: StepModel, titleLine: map<int, int>, i: nat, iy: real): seq<TextRun>
    requires ValidStyle(style)
  {
    var tlh := FontLineHeight(style.titlePaint.metrics);
    match node.detail
    case None => []
    case Some(d) =>
      MultilineText(TextX(f, style), iy + tlh * TitleLineAt(titleLine, i) as real + tlh / 4.0 + DetailGapDp * style.dp,
                    style.detailPaint, d, DetailMaxLines, TextWidth(f, style))
  }

  /** Row i drawn with its top at `top`. */
  function DrawRow(nodes: seq<StepModel>, f: Frame, style: Style, dir: Direction, extras: seq<real>,
                   titleLine: map<int, int>, itemH: real, i: nat, top: real): RowDrawing
    requires ValidStyle(style)
    requires i < |nodes| == |extras|
  {
    var node := nodes[i];
    var ix := IconX(f, style);
    var iy := IconY(style, top);
    RowDrawing(RowConnector(nodes, style, dir, extras, itemH, i, ix, iy), iy,
               Icon(IconBounds(ix, iy, style.iconRadius), RowGlyph(node.state)),
               RowTitle(f, style, node, iy), TitleColourFor(node.state),
               RowDetail(f, style, node, titleLine, i, iy))
  }

  /** `drawContent` over the cache snapshot: row i drawn with its top at `RowTop(i)`. */
  function DrawContent(nodes: seq<StepModel>, f: Frame, style: Style, dir: Direction,
                       extras: seq<real>, titleLine: map<int, int>): (rows: seq<RowDrawing>)
    requires ValidStyle(style)
    requires 0 < |nodes| == |extras|
    ensures |rows| == |nodes|
  {
    var h := RowHeights(f, extras);
    var itemH := ItemH(f, extras);
    seq(|nodes|, i requires 0 <= i < |nodes| => DrawRow(nodes, f, style, dir, extras, titleLine, itemH, i, RowTop(f, dir, h, i)))
  }

  /** The loop's first top is row 0's top. */
  lemma FirstRowTop(f: Frame, dir: Direction, extras: seq<real>)
    requires 0 < |extras|
    ensures RowTop(f, dir, RowHeights(f, extras), 0)
            == if dir == FromTop then f.paddingTop as real
               else f.totalH - f.paddingBottom as real - ItemH(f, extras) - extras[0]
  {
    var h := RowHeights(f, extras);
    assert h[..0] == [];
    SumPrefixStep(h, 0);
  }

  /**
   Consecutive row tops are one row height apart: row i's own height down
   the view, or row i + 1's up it.
   */
  lemma NextRowTop(f: Frame, dir: Direction, extras: seq<real>, i: nat)
    requires i + 1 < |extras|
    ensures var h := RowHeights(f, extras);
            RowTop(f, dir, h, i + 1)
            == if dir == FromTop then RowTop(f, dir, h, i) + (ItemH(f, extras) + extras[i])
               else RowTop(f, dir, h, i) - (ItemH(f, extras) + extras[i + 1])
  {
    var h := RowHeights(f, extras);
    SumPrefixStep(h, i);
    SumPrefixStep(h, i + 1);
  }

  /** Drawing row i at its top extends the first i rows of the drawing by one. */
  lemma DrawStep(nodes: seq<StepModel>, f: Frame, style: Style, dir: Direction,
                 extras: seq<real>, titleLine: map<int, int>, rows: seq<RowDrawing>, i: nat)
    requires ValidStyle(style)
    requires i < |nodes| == |extras|
    requires rows == DrawContent(nodes, f, style, dir, extras, titleLine)[..i]
    ensures rows + [DrawRow(nodes, f, style, dir, extras, titleLine, ItemH(f, extras), i, RowTop(f, dir, RowHeights(f, extras), i))]
            == DrawContent(nodes, f, style, dir, extras, titleLine)[..i + 1]
  {
  }

  /**
   The drawing loop as written: the first top is the top padding, or the
   bottom edge less the first row; each later top moves down by this row's
   height (`FromTop`) or up by the next row's height (`FromBottom`).
   */
  method DrawContentLoop(nodes: seq<StepModel>, f: Frame, style: Style, dir: Direction,
                         extras: seq<real>, titleLine: map<int, int>) returns (rows: seq<RowDrawing>)
    requires ValidStyle(style)
    requires 0 < |nodes| == |extras|
    ensures rows == DrawContent(nodes, f, style, dir, extras, titleLine)
  {
    var h := RowHeights(f, extras);
    var itemH := ItemH(f, extras);
    var top :=
      if dir == FromTop then f.paddingTop as real
      else f.totalH - f.paddingBottom as real - itemH - extras[0];
    FirstRowTop(f, dir, extras);
    rows := [];
    var i := 0;
    while i < |nodes|
      invariant 0 <= i <= |nodes| && |rows| == i
      invariant i < |nodes| ==> top == RowTop(f, dir, h, i)
      invariant rows == DrawContent(nodes, f, style, dir, extras, titleLine)[..i]
    {
      DrawStep(nodes, f, style, dir, extras, titleLine, rows, i);
      rows := rows + [DrawRow(nodes, f, style, dir, extras, titleLine, itemH, i, top)];
      if i + 1 < |nodes| {
        NextRowTop(f, dir, extras, i);
      }
      if dir == FromTop {
        top := top + (itemH + extras[i]);
      } else if i + 1 < |nodes| {
        top := top - (itemH + extras[i + 1]);
      }
      i := i + 1;
    }
    assert rows == DrawContent(nodes, f, style, dir, extras, titleLine)[..|nodes|];
  }

  // ---------------------------------------------------------------- hit test

  /**
   The press walk from the top edge, from row i on, as the `repeat` loop
   does it: it reports a row from i on with its own node, or nothing, and
   never indexes outside the list.
   */
  function WalkDown(nodes: seq<StepModel>, heights: seq<real>, i: nat, start: real, y: real): (c: Click)
    requires i <= |nodes| == |heights|
    ensures !c.IndexOutOfBounds?
    ensures c.Clicked? ==> i <= c.index < |nodes| && c.node == nodes[c.index]
    decreases |nodes| - i
  {
    if i == |nodes| then NoClick
    else if start < y < heights[i] + start then Clicked(i, nodes[i])
    else WalkDown(nodes, heights, i + 1, start + heights[i], y)
  }

  /** The press walk up from the bottom edge, from row i on: a row from i on with its own node, or nothing. */
  function WalkUp(nodes: seq<StepModel>, heights: seq<real>, i: nat, start: real, y: real): (c: Click)
    requires i <= |nodes| == |heights|
    ensures !c.IndexOutOfBounds?
    ensures c.Clicked? ==> i <= c.index < |nodes| && c.node == nodes[c.index]
    decreases |nodes| - i
  {
    if i == |nodes| then NoClick
    else if start > y > start - heights[i] then Clicked(i, nodes[i])
    else WalkUp(nodes, heights, i + 1, start - heights[i], y)
  }

  /** Both walks over the same spans: down from the top padding (`FromTop`), else up from the bottom padding. */
  function Walk(nodes: seq<StepModel>, f: Frame, dir: Direction, heights: seq<real>, y: real): (c: Click)
    requires |nodes| == |heights|
    ensures !c.IndexOutOfBounds?
    ensures c.Clicked? ==> 0 <= c.index < |nodes| && c.node == nodes[c.index]
  {
    if dir == FromTop then WalkDown(nodes, heights, 0, f.paddingTop as real, y)
    else WalkUp(nodes, heights, 0, f.totalH - f.paddingBottom as real, y)
  }

  /** The press lies strictly inside row i as drawn. */
  predicate InRow(f: Frame, dir: Direction, heights: seq<real>, i: nat, y: real)
    requires i < |heights|
  {
    RowTop(f, dir, heights, i) < y < RowTop(f, dir, heights, i) + heights[i]
  }

  /**
   `handleEvent` as written: the press's y, less the top padding, is walked
   against the drawn rows, so the first row strictly containing that
   shifted y is reported, or nothing.
   */
  function HandleEventAsWritten(nodes: seq<StepModel>, f: Frame, dir: Direction, extras: seq<real>, ey: real): (c: Click)
    requires 0 < |nodes| == |extras|
    ensures !c.IndexOutOfBounds?
    ensures var y := ey - f.paddingTop as real;
            c.Clicked? ==>
              && 0 <= c.index < |nodes| && c.node == nodes[c.index]
              && InRow(f, dir, RowHeights(f, extras), c.index, y)
              && forall k :: 0 <= k < c.index ==> !InRow(f, dir, RowHeights(f, extras), k, y)
    ensures var y := ey - f.paddingTop as real;
            c.NoClick? <==> forall k :: 0 <= k < |nodes| ==> !InRow(f, dir, RowHeights(f, extras), k, y)
  {
    WalkFindsFirstRow(nodes, f, dir, RowHeights(f, extras), ey - f.paddingTop as real);
    Walk(nodes, f, dir, RowHeights(f, extras), ey - f.paddingTop as real)
  }

  /**
   `handleEvent` with the press's own y walked against the drawn rows: the
   first row that strictly contains it is reported, or nothing.
   */
  function HandleEvent(nodes: seq<StepModel>, f: Frame, dir: Direction, extras: seq<real>, ey: real): (c: Click)
    requires 0 < |nodes| == |extras|
    ensures !c.IndexOutOfBounds?
    ensures c.Clicked? ==>
              && 0 <= c.index < |nodes| && c.node == nodes[c.index]
              && InRow(f, dir, RowHeights(f, extras), c.index, ey)
              && forall k :: 0 <= k < c.index ==> !InRow(f, dir, RowHeights(f, extras), k, ey)
    ensures c.NoClick? <==> forall k :: 0 <= k < |nodes| ==> !InRow(f, dir, RowHeights(f, extras), k, ey)
  {
    WalkFindsFirstRow(nodes, f, dir, RowHeights(f, extras), ey);
    Walk(nodes, f, dir, RowHeights(f, extras), ey)
  }

  // ---------------------------------------------------------------- draw and hit-test lemmas

  /** The walk from row i reports the first row from i on whose span strictly contains y. */
  /**
   `c` is what a walk from row i should report: never an index fault; the
   first row from i on that strictly contains y, if any; nothing otherwise.
   */
  predicate ReportsFirstRow(nodes: seq<StepModel>, f: Frame, dir: Direction, heights: seq<real>, i: nat, y: real, c: Click)
    requires i <= |nodes| == |heights|
  {
    && !c.IndexOutOfBounds?
    && (c.Clicked? ==>
          && i <= c.index < |nodes| && c.node == nodes[c.index]
          && InRow(f, dir, heights, c.index, y)
          && forall k :: i <= k < c.index ==> !InRow(f, dir, heights, k, y))
    && (c.NoClick? <==> forall k :: i <= k < |nodes| ==> !InRow(f, dir, heights, k, y))
  }

  /** The walk down from row i, starting at row i's top, reports the first row from i on containing y. */
  lemma {:induction false} WalkDownFrom(nodes: seq<StepModel>, f: Frame, heights: seq<real>, i: nat, y: real)
    requires i <= |nodes| == |heights|
    ensures ReportsFirstRow(nodes, f, FromTop, heights, i, y,
                            WalkDown(nodes, heights, i, f.paddingTop as real + Sum(heights[..i]), y))
    decreases |nodes| - i
  {
    if i < |nodes| {
      var start := f.paddingTop as real + Sum(heights[..i]);
      SumPrefixStep(heights, i);
      assert RowTop(f, FromTop, heights, i) == start;
      assert InRow(f, FromTop, heights, i, y) <==> start < y < heights[i] + start;
      WalkDownFrom(nodes, f, heights, i + 1, y);
      assert start + heights[i] == f.paddingTop as real + Sum(heights[..i + 1]);
    }
  }

  /** The walk up from row i, starting at row i's bottom, reports the first row from i on containing y. */
  lemma {:induction false} WalkUpFrom(nodes: seq<StepModel>, f: Frame, dir: Direction, heights: seq<real>, i: nat, y: real)
    requires dir != FromTop
    requires i <= |nodes| == |heights|
    ensures ReportsFirstRow(nodes, f, dir, heights, i, y,
                            WalkUp(nodes, heights, i, f.totalH - f.paddingBottom as real - Sum(heights[..i]), y))
    decreases |nodes| - i
  {
    if i < |nodes| {
      var start := f.totalH - f.paddingBottom as real - Sum(heights[..i]);
      SumPrefixStep(heights, i);
      assert RowTop(f, dir, heights, i) == start - heights[i];
      assert InRow(f, dir, heights, i, y) <==> start > y > start - heights[i];
      WalkUpFrom(nodes, f, dir, heights, i + 1, y);
      assert start - heights[i] == f.totalH - f.paddingBottom as real - Sum(heights[..i + 1]);
    }
  }

  lemma WalkFindsFirstRow(nodes: seq<StepModel>, f: Frame, dir: Direction, heights: seq<real>, y: real)
    requires |nodes| == |heights|
    ensures ReportsFirstRow(nodes, f, dir, heights, 0, y, Walk(nodes, f, dir, heights, y))
  {
    assert heights[..0] == [];
    if dir == FromTop {
      WalkDownFrom(nodes, f, heights, 0, y);
    } else {
      WalkUpFrom(nodes, f, dir, heights, 0, y);
    }
  }

  /** The rows fill the content height exactly: their heights sum to the height inside the paddings. */
  lemma RowHeightsFillContent(f: Frame, extras: seq<real>)
    requires 0 < |extras|
    ensures Sum(RowHeights(f, extras)) == f.RemainH()
  {
    var n := |extras| as real;
    var free := f.totalH - f.paddingTop as real - f.paddingBottom as real - Sum(extras);
    SumShift(extras, ItemH(f, extras));
    assert n * (free / n) == free;
  }

  /**
   Connecting lines: one from every row but the last, coloured by the
   completion rule, running from `line2IconPadding` past row i's icon centre
   to the same distance short of row i + 1's, down (`FromTop`) or up.
   */
  lemma ConnectorRule(nodes: seq<StepModel>, f: Frame, style: Style, dir: Direction,
                      extras: seq<real>, titleLine: map<int, int>, i: nat)
    requires ValidStyle(style)
    requires 0 < |nodes| == |extras| && i < |nodes|
    ensures var rows := DrawContent(nodes, f, style, dir, extras, titleLine);
            var pad := style.line2IconPadding;
            && (rows[i].connector.Some? <==> i < |nodes| - 1)
            && (rows[i].connector.Some? ==>
                  var l := rows[i].connector.value;
                  && l.colour == ConnectorColour(nodes[i].state, nodes[i + 1].state)
                  && l.x0 == IconX(f, style) && l.x1 == IconX(f, style)
                  && (dir == FromTop ==> l.y0 == rows[i].iconY + pad && l.y1 == rows[i + 1].iconY - pad)
                  && (dir != FromTop ==> l.y0 == rows[i].iconY - pad && l.y1 == rows[i + 1].iconY + pad))
  {
    if i + 1 < |nodes| {
      NextRowTop(f, dir, extras, i);
    }
  }

  /**
   Icons show the node's state with a resource glyph (no numbering); the
   title is greyed only while pending.
   */
  lemma IconAndTitleColourRule(nodes: seq<StepModel>, f: Frame, style: Style, dir: Direction,
                               extras: seq<real>, titleLine: map<int, int>, i: nat)
    requires ValidStyle(style)
    requires 0 < |nodes| == |extras| && i < |nodes|
    ensures var r := DrawContent(nodes, f, style, dir, extras, titleLine)[i];
            && r.icon.glyph.Resource? && GlyphState(r.icon.glyph) == nodes[i].state
            && (r.titleColour == TitleColour <==> nodes[i].state == Undo)
  {
  }

  /**
   A row whose cached title row count is the count measured at the drawn
   width draws exactly that many title rows, and its detail starts right
   under the last of them (one line height on, plus the detail gap).
   */
  lemma DetailUnderTitle(f: Frame, style: Style, node: StepModel, titleLine: map<int, int>, i: nat, iy: real)
    requires ValidStyle(style)
    requires 0.0 < TextWidth(f, style)
    requires TitleLineAt(titleLine, i) == TitleLines(node, style, TextWidth(f, style))
    ensures var title := RowTitle(f, style, node, iy);
            var detail := RowDetail(f, style, node, titleLine, i, iy);
            var tlh := FontLineHeight(style.titlePaint.metrics);
            && TitleLineAt(titleLine, i) == |title| <= TitleMaxLines
            && (0 < |detail| ==> detail[0].y == iy + tlh * |title| as real + tlh / 4.0 + DetailGapDp * style.dp)
  {
    CappedLinesMatchLineCount(style.titlePaint.measureText(node.title), TextWidth(f, style), TitleMaxLines);
  }

  /** A measure pass at the drawn width caches, for every node, the title row count at that width. */
  lemma MeasuredTitleLine(nodes: seq<StepModel>, f: Frame, style: Style,
                          widthSpec: MeasureSpec, heightSpec: MeasureSpec, cache: Cache, i: nat)
    requires ValidStyle(style)
    requires i < |nodes|
    requires widthSpec.size as real == f.totalW
    ensures var m := GetMeasureSpec(nodes, f, style, widthSpec, heightSpec, cache).cache;
            TitleLineAt(m.titleLine, i) == TitleLines(nodes[i], style, TextWidth(f, style))
  {
    assert AvailTextWidth(widthSpec.size as real, f, style) == TextWidth(f, style);
  }

  /** In the drawing, row i's detail sits right under its drawn title rows when the cache is current. */
  lemma DrawnDetailUnderTitle(nodes: seq<StepModel>, f: Frame, style: Style, dir: Direction,
                              extras: seq<real>, titleLine: map<int, int>, i: nat)
    requires ValidStyle(style)
    requires 0 < |nodes| == |extras| && i < |nodes|
    requires 0.0 < TextWidth(f, style)
    requires TitleLineAt(titleLine, i) == TitleLines(nodes[i], style, TextWidth(f, style))
    ensures var r := DrawContent(nodes, f, style, dir, extras, titleLine)[i];
            var tlh := FontLineHeight(style.titlePaint.metrics);
            && TitleLineAt(titleLine, i) == |r.title| <= TitleMaxLines
            && (0 < |r.detail| ==> r.detail[0].y == r.iconY + tlh * |r.title| as real + tlh / 4.0 + DetailGapDp * style.dp)
  {
    var top := RowTop(f, dir, RowHeights(f, extras), i);
    var r := DrawRow(nodes, f, style, dir, extras, titleLine, ItemH(f, extras), i, top);
    assert DrawContent(nodes, f, style, dir, extras, titleLine)[i] == r;
    DetailUnderTitle(f, style, nodes[i], titleLine, i, r.iconY);
  }

  /**
   Draw and hit test agree: when no row has a negative height, a press
   strictly inside row i as drawn reports node i, in both directions.
   */
  lemma HitInsideDrawnRow(nodes: seq<StepModel>, f: Frame, dir: Direction, extras: seq<real>, i: nat, ey: real)
    requires 0 < |nodes| == |extras| && i < |nodes|
    requires forall k :: 0 <= k < |nodes| ==> 0.0 <= RowHeights(f, extras)[k]
    requires InRow(f, dir, RowHeights(f, extras), i, ey)
    ensures HandleEvent(nodes, f, dir, extras, ey) == Clicked(i, nodes[i])
  {
    var h := RowHeights(f, extras);
    forall k | 0 <= k < i
      ensures !InRow(f, dir, h, k, ey)
    {
      PrefixSumMonotone(h, k + 1, i);
      PrefixSumMonotone(h, i, i + 1);
      SumPrefixStep(h, k);
      SumPrefixStep(h, i);
    }
  }

  /** Without a top padding the code as written walks the drawn rows. */
  lemma AsWrittenExactWithoutTopPadding(nodes: seq<StepModel>, f: Frame, dir: Direction, extras: seq<real>, ey: real)
    requires 0 < |nodes| == |extras|
    requires f.paddingTop == 0
    ensures HandleEventAsWritten(nodes, f, dir, extras, ey) == HandleEvent(nodes, f, dir, extras, ey)
  {
  }

  /**
   As written, a press reports a drawn row's node exactly when the press,
   moved up by the top padding, lies inside that row.
   */
  lemma AsWrittenHitInsideShiftedRow(nodes: seq<StepModel>, f: Frame, dir: Direction, extras: seq<real>, i: nat, ey: real)
    requires 0 < |nodes| == |extras| && i < |nodes|
    requires forall k :: 0 <= k < |nodes| ==> 0.0 <= RowHeights(f, extras)[k]
    requires InRow(f, dir, RowHeights(f, extras), i, ey - f.paddingTop as real)
    ensures HandleEventAsWritten(nodes, f, dir, extras, ey) == Clicked(i, nodes[i])
  {
    HitInsideDrawnRow(nodes, f, dir, extras, i, ey - f.paddingTop as real);
  }

  /**
   As written, with a 10 px top padding on a 200 px view holding one row, a
   press 5 px into the drawn row (y = 15) reports nothing.
   */
  lemma AsWrittenMissesTopOfRow(node: StepModel)
    ensures var f := Frame(0, 10, 0, 0, 100.0, 200.0);
            && InRow(f, FromTop, RowHeights(f, [0.0]), 0, 15.0)
            && HandleEvent([node], f, FromTop, [0.0], 15.0) == Clicked(0, node)
            && HandleEventAsWritten([node], f, FromTop, [0.0], 15.0) == NoClick
  {
    var f := Frame(0, 10, 0, 0, 100.0, 200.0);
    var h := RowHeights(f, [0.0]);
    assert Sum([0.0]) == 0.0 by { assert [0.0][..0] == []; }
    assert h == [190.0];
    assert h[..0] == [];
    assert WalkDown([node], h, 1, 200.0, 5.0) == NoClick;
    assert WalkDown([node], h, 0, 10.0, 5.0) == NoClick;
    assert WalkDown([node], h, 0, 10.0, 15.0) == Clicked(0, node);
  }
}
