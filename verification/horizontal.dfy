/**
 The horizontal layout: one equal-width column per node, icons on a
 common row, connecting lines between neighbours, a short title under each
 icon and an optional two-row detail. `FromRight` mirrors the columns but
 never renumbers the nodes.
 */
module Horizontal {
  import opened Numeric
  import opened Steps
  import opened Extension
  import opened Graphics
  import opened Host

  /** Height when no node has a detail, in dp. */
  const HeightDp: real := 80.0
  /** Height when some node has a detail, in dp. */
  const HeightWithDetailDp: real := 120.0
  /** Titles are cut to this many characters. */
  const TitleMaxChars: nat := 4
  /** Details wrap to at most this many rows. */
  const DetailMaxLines: nat := 2

  // ---------------------------------------------------------------- measure

  /** `firstOrNull { !it.detail.isNullOrBlank() }`. */
  function FirstWithDetail(nodes: seq<StepModel>): (r: Option<StepModel>)
    ensures r.None? <==> forall i :: 0 <= i < |nodes| ==> !HasDetail(nodes[i])
    ensures r.Some? ==> exists i :: 0 <= i < |nodes| && nodes[i] == r.value && HasDetail(r.value)
                                  && forall j :: 0 <= j < i ==> !HasDetail(nodes[j])
  {
    if |nodes| == 0 then None
    else if HasDetail(nodes[0]) then Some(nodes[0])
    else
      var r := FirstWithDetail(nodes[1..]);
      assert r.Some? ==> exists i :: 0 <= i < |nodes| && nodes[i] == r.value && HasDetail(r.value)
                                   && forall j :: 0 <= j < i ==> !HasDetail(nodes[j]) by {
        if r.Some? {
          var i :| 0 <= i < |nodes[1..]| && nodes[1..][i] == r.value && HasDetail(r.value)
                   && forall j :: 0 <= j < i ==> !HasDetail(nodes[1..][j]);
          assert nodes[i + 1] == r.value;
          assert forall j :: 0 <= j < i + 1 ==> !HasDetail(nodes[j]) by {
            forall j | 0 <= j < i + 1 ensures !HasDetail(nodes[j]) {
              if j > 0 { assert nodes[j] == nodes[1..][j - 1]; }
            }
          }
        }
      }
      r
  }

  /**
   The height depends only on whether some node has a visible detail; the
   width spec is handed back untouched.
   */
  function GetMeasureSpec(nodes: seq<StepModel>, dp: real, widthSpec: MeasureSpec, heightSpec: MeasureSpec): (r: Measured)
    ensures r.widthSpec == widthSpec
    ensures (exists i :: 0 <= i < |nodes| && HasDetail(nodes[i])) ==>
              r.height == ResolveSize(Trunc(HeightWithDetailDp * dp), heightSpec)
    ensures (forall i :: 0 <= i < |nodes| ==> !HasDetail(nodes[i])) ==>
              r.height == ResolveSize(Trunc(HeightDp * dp), heightSpec)
  {
    var desired :=
      if FirstWithDetail(nodes).None? then Trunc(HeightDp * dp)
      else Trunc(HeightWithDetailDp * dp);
    Measured(widthSpec, ResolveSize(desired, heightSpec))
  }

  // ---------------------------------------------------------------- geometry

  /** Half of one column's width. */
  function HalfOfItemW(f: Frame, size: nat): real
    requires 0 < size
  {
    f.RemainW() / size as real / 2.0
  }

  /** Centre x of node i's icon: the middle of column i from the left, or of column size-1-i when mirrored. */
  function IconX(f: Frame, dir: Direction, size: nat, i: int): (x: real)
    requires 0 < size
    ensures var k := if dir == FromLeft then i else size - 1 - i;
            x == f.paddingLeft as real + (k as real + 0.5) * ColumnW(f, size)
  {
    assert HalfOfItemW(f, size) * 2.0 == ColumnW(f, size);
    if dir == FromLeft then f.paddingLeft as real + (i * 2 + 1) as real * HalfOfItemW(f, size)
    else f.paddingLeft as real + ((size - i) * 2 - 1) as real * HalfOfItemW(f, size)
  }

  function IconY(f: Frame): real {
    f.paddingTop as real + f.RemainH() / 4.0
  }

  function TitleY(f: Frame): real {
    f.paddingTop as real + f.RemainH() / 4.0 * 2.0
  }

  function DetailY(f: Frame, style: Style): real {
    TitleY(f) + FontLineHeight(style.titlePaint.metrics)
  }

  /** Numbered circles for pending and active steps, fixed icons for done and failed ones. */
  function NodeGlyph(s: State, index: int): (g: Glyph)
    ensures GlyphState(g) == s
    ensures g.NumberCircle? <==> s == Undo || s == Doing
    ensures g.NumberCircle? ==> g.number == index + 1
    ensures g.Resource? ==> g.tint == DoneColour
  {
    match s
    case Undo => NumberCircle(index + 1, UndoColour)
    case Doing => NumberCircle(index + 1, DoneColour)
    case Done => Resource(DoneRes, DoneColour)
    case Warn => Resource(WarnRes, DoneColour)
  }

  // ---------------------------------------------------------------- draw

  /** Everything drawn for one node. */
  datatype NodeDrawing = NodeDrawing(connector: Option<Line>, iconX: real, icon: Icon,
                                     title: TextRun, titleColour: Colour, detail: seq<TextRun>)

  /** The connecting line from node i toward node i + 1, when there is a next node. */
  function Connector(f: Frame, style: Style, dir: Direction, size: nat, i: int, state: State, next: Option<State>): Option<Line>
    requires 0 < size
  {
    match next
    case None => None
    case Some(nextState) =>
      var x := IconX(f, dir, size, i);
      var y := IconY(f);
      var half := HalfOfItemW(f, size);
      var pad := style.line2IconPadding;
      var colour := ConnectorColour(state, nextState);
      if dir == FromLeft then Some(Line(x + pad, y, x + 2.0 * half - pad, y, colour))
      else Some(Line(x - pad, y, x - 2.0 * half + pad, y, colour))
  }

  /** Node i of `size`, followed by a node in state `next` unless it is the last. */
  function DrawNode(f: Frame, style: Style, dir: Direction, size: nat, i: int, node: StepModel, next: Option<State>): NodeDrawing
    requires ValidStyle(style)
    requires 0 < size
  {
    var x := IconX(f, dir, size, i);
    var titleLen := if |node.title| > TitleMaxChars then TitleMaxChars else |node.title|;
    var detail :=
      match node.detail
      case None => []
      case Some(d) =>
        MultilineText(x, DetailY(f, style), style.detailPaint, d, DetailMaxLines,
                      f.RemainW() / size as real - style.nodePadding * 2.0);
    NodeDrawing(Connector(f, style, dir, size, i, node.state, next), x,
                Icon(IconBounds(x, IconY(f), style.iconRadius), NodeGlyph(node.state, i)),
                TextRun(node.title[..titleLen], x, TitleY(f)), TitleColourFor(node.state), detail)
  }

  /** The state of the node after node i, if any (the code reads `mNodes[index + 1]`). */
  function NextState(nodes: seq<StepModel>, i: nat): Option<State>
  {
    if i + 1 < |nodes| then Some(nodes[i + 1].state) else None
  }

  /** `drawContent`: one drawing per node, in logical order. */
  function DrawContent(nodes: seq<StepModel>, f: Frame, style: Style, dir: Direction): (d: seq<NodeDrawing>)
    requires ValidStyle(style)
    requires 0 < |nodes|
    ensures |d| == |nodes|
  {
    seq(|nodes|, i requires 0 <= i < |nodes| =>
      DrawNode(f, style, dir, |nodes|, i, nodes[i], NextState(nodes, i)))
  }

  // ---------------------------------------------------------------- hit test

  /** Column width: the content width shared evenly, whatever the direction. */
  function ColumnW(f: Frame, size: nat): real
    requires 0 < size
  {
    f.RemainW() / size as real
  }

  /**
   The column position the code computes, `ceil(x / w).toInt() - 1`: the
   column k whose span (k*w, (k+1)*w] holds the press, open on the left.
   */
  function ColumnAsWritten(f: Frame, size: nat, ex: real): (k: int)
    requires 0 < size && 0.0 < f.RemainW()
    ensures k as real * ColumnW(f, size) < ex - f.paddingLeft as real <= (k + 1) as real * ColumnW(f, size)
  {
    var x, w := ex - f.paddingLeft as real, ColumnW(f, size);
    var k := Ceil(x / w) - 1;
    ScaledOrder(x, w, k as real);
    ScaledOrder(x, w, (k + 1) as real);
    k
  }

  /** The column that contains the press: column k spans [k*w, (k+1)*w). */
  function Column(f: Frame, size: nat, ex: real): (k: int)
    requires 0 < size && 0.0 < f.RemainW()
    ensures k as real * ColumnW(f, size) <= ex - f.paddingLeft as real < (k + 1) as real * ColumnW(f, size)
  {
    var x, w := ex - f.paddingLeft as real, ColumnW(f, size);
    var k := Floor(x / w);
    ScaledOrder(x, w, k as real);
    ScaledOrder(x, w, (k + 1) as real);
    k
  }

  /** Column position n names node n, or node size-1-n when mirrored; a bad index throws. */
  function Pick(nodes: seq<StepModel>, dir: Direction, n: int): (c: Click)
    ensures c.Clicked? ==> 0 <= c.index < |nodes| && c.node == nodes[c.index]
    ensures !c.NoClick?
  {
    var index := if dir == FromLeft then n else |nodes| - 1 - n;
    if 0 <= index < |nodes| then Clicked(index, nodes[index]) else IndexOutOfBounds
  }

  /**
   `handleEvent` as written: a press strictly right of the content's left
   edge and not beyond its right edge reports a node of the list; any
   other press faults on the node index rather than reporting nothing.
   */
  function HandleEventAsWritten(nodes: seq<StepModel>, f: Frame, dir: Direction, ex: real): (c: Click)
    requires 0 < |nodes| && 0.0 < f.RemainW()
    ensures !c.NoClick?
    ensures c.Clicked? ==> 0 <= c.index < |nodes| && c.node == nodes[c.index]
    ensures 0.0 < ex - f.paddingLeft as real <= f.RemainW() ==> c.Clicked?
  {
    if 0.0 < ex - f.paddingLeft as real <= f.RemainW() then
      ColumnAsWrittenInRange(f, |nodes|, ex);
      Pick(nodes, dir, ColumnAsWritten(f, |nodes|, ex))
    else
      Pick(nodes, dir, ColumnAsWritten(f, |nodes|, ex))
  }

  /**
   `handleEvent` with the column taken as the one containing the touch: any
   touch inside the content width reports a node.
   */
  function HandleEvent(nodes: seq<StepModel>, f: Frame, dir: Direction, ex: real): (c: Click)
    requires 0 < |nodes| && 0.0 < f.RemainW()
    ensures 0.0 <= ex - f.paddingLeft as real < f.RemainW() ==>
              c.Clicked? && 0 <= c.index < |nodes| && c.node == nodes[c.index]
  {
    var n := Column(f, |nodes|, ex);
    if 0.0 <= ex - f.paddingLeft as real < f.RemainW() then
      ColumnInRange(f, |nodes|, ex);
      Pick(nodes, dir, n)
    else
      Pick(nodes, dir, n)
  }

  // ---------------------------------------------------------------- lemmas

  /** Division by a positive width preserves order against multiples of it. */
  lemma ScaledOrder(x: real, w: real, a: real)
    requires 0.0 < w
    ensures a * w <= x <==> a <= x / w
    ensures a * w < x <==> a < x / w
  {
    var q := x / w;
    assert x == q * w;
    assert (q - a) * w == x - a * w;
  }

  /** Inside the content width the containing column is a real column. */
  lemma ColumnInRange(f: Frame, size: nat, ex: real)
    requires 0 < size && 0.0 < f.RemainW()
    requires 0.0 <= ex - f.paddingLeft as real < f.RemainW()
    ensures 0 <= Column(f, size, ex) < size
  {
    var w := ColumnW(f, size);
    var x := ex - f.paddingLeft as real;
    assert size as real * w == f.RemainW();
    ScaledOrder(x, w, 0.0);
    ScaledOrder(x, w, size as real);
  }

  /** As written, a press strictly right of the left edge and not beyond the right edge names a real column. */
  lemma ColumnAsWrittenInRange(f: Frame, size: nat, ex: real)
    requires 0 < size && 0.0 < f.RemainW()
    requires 0.0 < ex - f.paddingLeft as real <= f.RemainW()
    ensures 0 <= ColumnAsWritten(f, size, ex) < size
  {
    var w := ColumnW(f, size);
    var x := ex - f.paddingLeft as real;
    assert size as real * w == f.RemainW();
    ScaledOrder(x, w, 0.0);
    ScaledOrder(x, w, size as real);
  }

  /** A touch in [k*w, (k+1)*w) lands in column k. */
  lemma ColumnSpan(f: Frame, size: nat, ex: real, k: int)
    requires 0 < size && 0.0 < f.RemainW()
    requires k as real * ColumnW(f, size) <= ex - f.paddingLeft as real < (k + 1) as real * ColumnW(f, size)
    ensures Column(f, size, ex) == k
  {
    var w := ColumnW(f, size);
    var x := ex - f.paddingLeft as real;
    ScaledOrder(x, w, k as real);
    ScaledOrder(x, w, (k + 1) as real);
  }

  /** As written, a touch in (k*w, (k+1)*w] lands in column k. */
  lemma ColumnAsWrittenSpan(f: Frame, size: nat, ex: real, k: int)
    requires 0 < size && 0.0 < f.RemainW()
    requires k as real * ColumnW(f, size) < ex - f.paddingLeft as real <= (k + 1) as real * ColumnW(f, size)
    ensures ColumnAsWritten(f, size, ex) == k
  {
    var w := ColumnW(f, size);
    var x := ex - f.paddingLeft as real;
    ScaledOrder(x, w, k as real);
    ScaledOrder(x, w, (k + 1) as real);
  }

  /** Mirroring: node i drawn from the right sits where node size-1-i sits drawn from the left. */
  lemma MirrorIdentity(f: Frame, size: nat, i: int)
    requires 0 < size
    ensures IconX(f, FromRight, size, i) == IconX(f, FromLeft, size, size - 1 - i)
  {
  }

  /** An icon centre lies strictly inside the middle of its visual column. */
  lemma IconCentreInColumn(f: Frame, dir: Direction, size: nat, i: int)
    requires 0 < size && 0.0 < f.RemainW()
    ensures var k := if dir == FromLeft then i else size - 1 - i;
            var x := IconX(f, dir, size, i) - f.paddingLeft as real;
            k as real * ColumnW(f, size) < x < (k + 1) as real * ColumnW(f, size)
  {
    var w := ColumnW(f, size);
    var half := HalfOfItemW(f, size);
    assert half * 2.0 == w;
  }

  /**
   Draw and hit test agree: a press on the centre of node i's icon reports
   node i, in either direction.
   */
  lemma HitAtIconCentre(nodes: seq<StepModel>, f: Frame, dir: Direction, i: int)
    requires 0 < |nodes| && 0.0 < f.RemainW()
    requires 0 <= i < |nodes|
    ensures HandleEvent(nodes, f, dir, IconX(f, dir, |nodes|, i)) == Clicked(i, nodes[i])
  {
    var k := if dir == FromLeft then i else |nodes| - 1 - i;
    IconCentreInColumn(f, dir, |nodes|, i);
    ColumnSpan(f, |nodes|, IconX(f, dir, |nodes|, i), k);
  }

  /** The code as written also reports node i at its icon centre. */
  lemma AsWrittenHitAtIconCentre(nodes: seq<StepModel>, f: Frame, dir: Direction, i: int)
    requires 0 < |nodes| && 0.0 < f.RemainW()
    requires 0 <= i < |nodes|
    ensures HandleEventAsWritten(nodes, f, dir, IconX(f, dir, |nodes|, i)) == Clicked(i, nodes[i])
  {
    var k := if dir == FromLeft then i else |nodes| - 1 - i;
    IconCentreInColumn(f, dir, |nodes|, i);
    ColumnAsWrittenSpan(f, |nodes|, IconX(f, dir, |nodes|, i), k);
  }

  /**
   As written, a press exactly on the left edge of the content (which the
   touch filter lets through) computes column -1 and indexes outside the
   node list, in both directions.
   */
  lemma AsWrittenLeftEdgeThrows(nodes: seq<StepModel>, f: Frame, dir: Direction, ey: real)
    requires 0 < |nodes|
    requires InContent(f, f.paddingLeft as real, ey)
    ensures 0.0 < f.RemainW()
    ensures HandleEventAsWritten(nodes, f, dir, f.paddingLeft as real) == IndexOutOfBounds
  {
    assert ColumnAsWritten(f, |nodes|, f.paddingLeft as real) == -1;
  }

  /** Every touch the filter lets through reports a node of the list. */
  lemma HitInContentReportsNode(nodes: seq<StepModel>, f: Frame, dir: Direction, ex: real, ey: real)
    requires 0 < |nodes|
    requires InContent(f, ex, ey)
    ensures 0.0 < f.RemainW()
    ensures var c := HandleEvent(nodes, f, dir, ex);
            c.Clicked? && 0 <= c.index < |nodes| && c.node == nodes[c.index]
  {
    InContentBounds(f, ex, ey);
  }

  /**
   Connecting lines: one from every node but the last; its colour follows
   the completion rule; it starts `line2IconPadding` past node i's centre and
   stops the same distance short of node i + 1's, so its length is a column
   width less twice the padding, in either direction.
   */
  lemma ConnectorRule(nodes: seq<StepModel>, f: Frame, style: Style, dir: Direction, i: nat)
    requires ValidStyle(style)
    requires 0 < |nodes| && i < |nodes|
    ensures var d := DrawContent(nodes, f, style, dir);
            var pad := style.line2IconPadding;
            var span := 2.0 * HalfOfItemW(f, |nodes|) - 2.0 * pad;
            && (d[i].connector.Some? <==> i < |nodes| - 1)
            && (d[i].connector.Some? ==>
                  var l := d[i].connector.value;
                  && l.colour == ConnectorColour(nodes[i].state, nodes[i + 1].state)
                  && l.y0 == IconY(f) && l.y1 == IconY(f)
                  && (dir == FromLeft ==>
                        l.x0 == d[i].iconX + pad && l.x1 == d[i + 1].iconX - pad && l.x1 - l.x0 == span)
                  && (dir != FromLeft ==>
                        l.x0 == d[i].iconX - pad && l.x1 == d[i + 1].iconX + pad && l.x0 - l.x1 == span))
  {
    var half := HalfOfItemW(f, |nodes|);
    if i + 1 < |nodes| {
      assert IconX(f, dir, |nodes|, i + 1) == IconX(f, dir, |nodes|, i) + (if dir == FromLeft then 2.0 else -2.0) * half;
    }
  }

  /**
   Titles show their first four characters (fewer when shorter), centred on
   the icon; pending titles are grey and the rest black. The icon shows the
   node's state and, when numbered, its logical index + 1.
   */
  lemma TitleAndIconRule(nodes: seq<StepModel>, f: Frame, style: Style, dir: Direction, i: nat)
    requires ValidStyle(style)
    requires 0 < |nodes| && i < |nodes|
    ensures var d := DrawContent(nodes, f, style, dir)[i];
            var t := nodes[i].title;
            && |d.title.text| == Min(TitleMaxChars, |t|)
            && d.title.text <= t
            && d.title.x == d.iconX
            && (d.titleColour == TitleColour <==> nodes[i].state == Undo)
            && GlyphState(d.icon.glyph) == nodes[i].state
            && (d.icon.glyph.NumberCircle? ==> d.icon.glyph.number == i + 1)
  {
  }

  /** A detail wraps to at most two rows, each within the column less the node paddings. */
  lemma DetailRule(nodes: seq<StepModel>, f: Frame, style: Style, dir: Direction, i: nat)
    requires ValidStyle(style)
    requires 0 < |nodes| && i < |nodes|
    ensures var d := DrawContent(nodes, f, style, dir)[i];
            var maxW := f.RemainW() / |nodes| as real - style.nodePadding * 2.0;
            && |d.detail| <= DetailMaxLines
            && (nodes[i].detail.None? ==> d.detail == [])
            && (0.0 <= maxW ==> forall k :: 0 <= k < |d.detail| ==>
                  style.detailPaint.measureText(d.detail[k].text) <= maxW)
  {
  }

  /** The reserved `isFinished` flag never changes what is drawn. */
  lemma DrawIgnoresIsFinished(nodes: seq<StepModel>, nodes': seq<StepModel>, f: Frame, style: Style, dir: Direction)
    requires ValidStyle(style)
    requires 0 < |nodes| == |nodes'|
    requires forall i :: 0 <= i < |nodes| ==> nodes'[i] == nodes[i].(isFinished := nodes'[i].isFinished)
    ensures DrawContent(nodes, f, style, dir) == DrawContent(nodes', f, style, dir)
  {
    var d, d' := DrawContent(nodes, f, style, dir), DrawContent(nodes', f, style, dir);
    forall i | 0 <= i < |nodes|
      ensures d[i] == d'[i]
    {
      assert NextState(nodes, i) == NextState(nodes', i);
      assert nodes'[i] == StepModel(nodes[i].title, nodes[i].detail, nodes[i].state, nodes'[i].isFinished);
    }
  }
}
