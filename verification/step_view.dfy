/**
 The view itself: its configuration (orientation and direction), the node
 list and its editing API, the click-listener flag, the frame, and the
 vertical layout's cache; measuring, drawing and touch handling dispatch to
 the layout of the current orientation.
 */
module StepView {
  import opened Numeric
  import opened Steps
  import opened Extension
  import opened Graphics
  import opened Host
  import Horizontal
  import Vertical

  // ---------------------------------------------------------------- attribute codes

  /** The integer a direction carries (`Direction.value`). */
  function DirectionValue(d: Direction): (v: int)
    ensures 0 <= v <= 3
  {
    match d
    case FromLeft => 0
    case FromRight => 1
    case FromTop => 2
    case FromBottom => 3
  }

  /** `Direction.getDirection`: 0, 1, 2 name the first three; every other value is `FromBottom`. */
  function DecodeDirection(v: int): (d: Direction)
    ensures !(0 <= v <= 2) <==> d == FromBottom
  {
    if v == 0 then FromLeft
    else if v == 1 then FromRight
    else if v == 2 then FromTop
    else FromBottom
  }

  /** The integer an orientation carries (`Orientation.value`). */
  function OrientationValue(o: Orientation): (v: int)
    ensures 0 <= v <= 1
  {
    if o == Orientation.Horizontal then 0 else 1
  }

  /** `Orientation.getOrientation`: 0 is horizontal, every other value vertical. */
  function DecodeOrientation(v: int): (o: Orientation)
    ensures o == Orientation.Horizontal <==> v == 0
  {
    if v == 0 then Orientation.Horizontal else Orientation.Vertical
  }

  /** Decoding a direction's own value gives it back; every code 0 .. 3 is some direction's value. */
  lemma DirectionCodeRoundTrip(d: Direction, v: int)
    ensures DecodeDirection(DirectionValue(d)) == d
    ensures 0 <= v <= 3 ==> DirectionValue(DecodeDirection(v)) == v
  {
  }

  /** Decoding an orientation's own value gives it back; both codes 0 and 1 are some orientation's value. */
  lemma OrientationCodeRoundTrip(o: Orientation, v: int)
    ensures DecodeOrientation(OrientationValue(o)) == o
    ensures 0 <= v <= 1 ==> OrientationValue(DecodeOrientation(v)) == v
  {
  }

  // ---------------------------------------------------------------- direction rule

  /** Horizontal views run left or right; vertical views run top or bottom. */
  predicate Allowed(o: Orientation, d: Direction) {
    if o == Orientation.Horizontal then d == FromLeft || d == FromRight
    else d == FromTop || d == FromBottom
  }

  function DefaultDirection(o: Orientation): (d: Direction)
    ensures Allowed(o, d)
  {
    if o == Orientation.Horizontal then FromLeft else FromTop
  }

  /**
   `adjustDirection`: a direction that fits the orientation is kept, any
   other is replaced by the orientation's default.
   */
  function AdjustDirection(o: Orientation, d: Direction): (r: Direction)
    ensures Allowed(o, r)
    ensures Allowed(o, d) <==> r == d
    ensures !Allowed(o, d) ==> r == DefaultDirection(o)
  {
    if Allowed(o, d) then d else DefaultDirection(o)
  }

  /** Adjusting twice is adjusting once. */
  lemma AdjustIdempotent(o: Orientation, d: Direction)
    ensures AdjustDirection(o, AdjustDirection(o, d)) == AdjustDirection(o, d)
  {
  }

  // ---------------------------------------------------------------- the view state

  /**
   The view's state: orientation, direction, nodes, whether a click
   listener is set, the frame, and the vertical layout's cache (fresh
   whenever a layout is created).
   */
  datatype View = View(orientation: Orientation, direction: Direction, nodes: seq<StepModel>,
                       listening: bool, frame: Frame, cache: Vertical.Cache)

  /** The invariant every public operation keeps: the direction fits the orientation. */
  predicate Consistent(v: View) {
    Allowed(v.orientation, v.direction)
  }

  /**
   Construction from the layout attributes: the orientation and direction
   codes are decoded, the direction adjusted; no nodes, no listener, no
   size yet.
   */
  function Init(orientationAttr: int, directionAttr: int,
                paddingLeft: int, paddingTop: int, paddingRight: int, paddingBottom: int): (v: View)
    ensures Consistent(v)
    ensures v.orientation == DecodeOrientation(orientationAttr)
    ensures Allowed(v.orientation, DecodeDirection(directionAttr)) ==> v.direction == DecodeDirection(directionAttr)
    ensures !Allowed(v.orientation, DecodeDirection(directionAttr)) ==> v.direction == DefaultDirection(v.orientation)
    ensures v.nodes == [] && !v.listening && v.cache == Vertical.EmptyCache
    ensures v.frame == Frame(paddingLeft, paddingTop, paddingRight, paddingBottom, 0.0, 0.0)
  {
    var o := DecodeOrientation(orientationAttr);
    View(o, AdjustDirection(o, DecodeDirection(directionAttr)), [], false,
         Frame(paddingLeft, paddingTop, paddingRight, paddingBottom, 0.0, 0.0), Vertical.EmptyCache)
  }

  /**
   `setOrientation`: the same orientation changes nothing; a new one gets a
   fresh layout (an empty cache) and a direction adjusted to it.
   */
  function SetOrientation(v: View, o: Orientation): (r: View)
    ensures Consistent(v) ==> Consistent(r)
    ensures r.orientation == o
    ensures o == v.orientation ==> r == v
    ensures o != v.orientation ==>
              && Consistent(r)
              && r.direction == AdjustDirection(o, v.direction)
              && r.cache == Vertical.EmptyCache
              && r == v.(orientation := o, direction := r.direction, cache := Vertical.EmptyCache)
  {
    if v.orientation == o then v
    else v.(orientation := o, cache := Vertical.EmptyCache, direction := AdjustDirection(o, v.direction))
  }

  /**
   `setDirection`: the same direction changes nothing; otherwise the new
   direction is taken if it fits the orientation and replaced by the
   default if not. Nothing else changes.
   */
  function SetDirection(v: View, d: Direction): (r: View)
    ensures Consistent(v) ==> Consistent(r)
    ensures r == v.(direction := r.direction)
    ensures Allowed(v.orientation, d) ==> r.direction == d
    ensures d != v.direction && !Allowed(v.orientation, d) ==> r.direction == DefaultDirection(v.orientation)
  {
    if v.direction == d then v
    else v.(direction := AdjustDirection(v.orientation, d))
  }

  /** Switching the orientation away and back does not restore a direction the detour did not allow. */
  lemma OrientationRoundTripResetsDirection(v: View)
    requires Consistent(v) && v.orientation == Orientation.Horizontal && v.direction == FromRight
    ensures SetOrientation(SetOrientation(v, Orientation.Vertical), Orientation.Horizontal).direction == FromLeft
  {
  }

  // ---------------------------------------------------------------- node list

  /** The view after an operation, and whether it threw (an index out of bounds). */
  datatype Outcome = Outcome(view: View, thrown: bool)

  /** `setNodes`: the list becomes a copy of `ns`. */
  function SetNodes(v: View, ns: seq<StepModel>): (r: View)
    ensures r.nodes == ns
    ensures r == v.(nodes := ns)
  {
    ClearAllNodes(v).(nodes := [] + ns)
  }

  /** `clearAllNodes`. */
  function ClearAllNodes(v: View): (r: View)
    ensures r.nodes == [] && r == v.(nodes := [])
  {
    v.(nodes := [])
  }

  /**
   `addNode(node, index)`: inserted before position `index`, which may be
   the size (the default, appending); any other index throws and changes
   nothing.
   */
  function AddNode(v: View, n: StepModel, index: int): (r: Outcome)
    ensures r.thrown <==> !(0 <= index <= |v.nodes|)
    ensures r.thrown ==> r.view == v
    ensures !r.thrown ==>
              && |r.view.nodes| == |v.nodes| + 1
              && r.view.nodes[index] == n
              && r.view.nodes[..index] == v.nodes[..index]
              && r.view.nodes[index + 1..] == v.nodes[index..]
              && r.view == v.(nodes := r.view.nodes)
  {
    AddNodes(v, [n], index)
  }

  /** `addNode(node)`: appended at the end. */
  function AppendNode(v: View, n: StepModel): (r: View)
    ensures r.nodes == v.nodes + [n]
  {
    var o := AddNode(v, n, |v.nodes|);
    assert o.view.nodes == o.view.nodes[..|v.nodes|] + [n];
    o.view
  }

  /** `addNodes(list, index)`: the list spliced in before `index`, or a throw with no change. */
  function AddNodes(v: View, ns: seq<StepModel>, index: int): (r: Outcome)
    ensures r.thrown <==> !(0 <= index <= |v.nodes|)
    ensures r.thrown ==> r.view == v
    ensures !r.thrown ==>
              && |r.view.nodes| == |v.nodes| + |ns|
              && r.view.nodes[..index] == v.nodes[..index]
              && r.view.nodes[index..index + |ns|] == ns
              && r.view.nodes[index + |ns|..] == v.nodes[index..]
              && r.view == v.(nodes := r.view.nodes)
  {
    if 0 <= index <= |v.nodes| then Outcome(v.(nodes := v.nodes[..index] + ns + v.nodes[index..]), false)
    else Outcome(v, true)
  }

  /** `removeNodeAt(index)`: the node at `index` removed, or a throw with no change. */
  function RemoveNodeAt(v: View, index: int): (r: Outcome)
    ensures r.thrown <==> !(0 <= index < |v.nodes|)
    ensures r.thrown ==> r.view == v
    ensures !r.thrown ==>
              && |r.view.nodes| == |v.nodes| - 1
              && r.view.nodes[..index] == v.nodes[..index]
              && r.view.nodes[index..] == v.nodes[index + 1..]
              && r.view == v.(nodes := r.view.nodes)
  {
    if 0 <= index < |v.nodes| then Outcome(v.(nodes := v.nodes[..index] + v.nodes[index + 1..]), false)
    else Outcome(v, true)
  }

  /** Removing what was just inserted restores the list. */
  lemma RemoveUndoesAdd(v: View, n: StepModel, index: int)
    requires 0 <= index <= |v.nodes|
    ensures var added := AddNode(v, n, index);
            !added.thrown && RemoveNodeAt(added.view, index) == Outcome(v, false)
  {
    var w := AddNode(v, n, index).view;
    assert w.nodes[..index] + w.nodes[index + 1..] == v.nodes;
  }

  // ---------------------------------------------------------------- states

  /** Nodes after some writes, and whether a write threw. */
  datatype Applied = Applied(nodes: seq<StepModel>, thrown: bool)

  /**
   The `indexes.forEach { mNodes[it].state = st }` loop: the writes happen
   one at a time in order, so an index out of bounds throws after the
   writes before it have taken effect, and the rest are skipped.
   */
  function ApplyState(nodes: seq<StepModel>, indices: seq<int>, st: State): (r: Applied)
    ensures |r.nodes| == |nodes|
    ensures forall i :: 0 <= i < |nodes| ==>
              r.nodes[i] == nodes[i] || r.nodes[i] == WithState(nodes[i], st)
    ensures !r.thrown <==> forall k :: 0 <= k < |indices| ==> 0 <= indices[k] < |nodes|
    ensures !r.thrown ==>
              forall i :: 0 <= i < |nodes| ==>
                r.nodes[i] == (if i in indices then WithState(nodes[i], st) else nodes[i])
    decreases |indices|
  {
    if |indices| == 0 then Applied(nodes, false)
    else
      var i := indices[0];
      if !(0 <= i < |nodes|) then Applied(nodes, true)
      else
        var r := ApplyState(nodes[i := WithState(nodes[i], st)], indices[1..], st);
        assert forall j :: 0 <= j < |nodes| ==> WithState(WithState(nodes[j], st), st) == WithState(nodes[j], st);
        assert forall k :: 1 <= k < |indices| ==> indices[k] == indices[1..][k - 1];
        assert forall j :: j in indices <==> j == i || j in indices[1..];
        r
  }

  /**
   A write that throws leaves the writes before it in place: the result is
   what the indices before the first bad one alone produce.
   */
  lemma {:induction false} ThrowKeepsEarlierWrites(nodes: seq<StepModel>, indices: seq<int>, st: State, p: nat)
    requires p < |indices| && !(0 <= indices[p] < |nodes|)
    requires forall k :: 0 <= k < p ==> 0 <= indices[k] < |nodes|
    ensures ApplyState(nodes, indices, st) == Applied(ApplyState(nodes, indices[..p], st).nodes, true)
    decreases p
  {
    if p > 0 {
      var i := indices[0];
      var nodes' := nodes[i := WithState(nodes[i], st)];
      assert indices[1..][..p - 1] == indices[..p][1..];
      ThrowKeepsEarlierWrites(nodes', indices[1..], st, p - 1);
    }
  }

  /**
   Counterexample to an all-or-nothing reading of the batch setters:
   marking 0, 1 and 99 done on three nodes throws, yet nodes 0 and 1 are
   already done.
   */
  lemma BatchSetterIsNotAtomic(a: StepModel, b: StepModel, c: StepModel)
    requires a.state == Undo && b.state == Undo && c.state == Undo
    ensures var r := ApplyState([a, b, c], [0, 1, 99], Done);
            && r.thrown
            && r.nodes[0].state == Done && r.nodes[1].state == Done && r.nodes[2].state == Undo
  {
    ThrowKeepsEarlierWrites([a, b, c], [0, 1, 99], Done, 2);
    assert [0, 1, 99][..2] == [0, 1];
  }

  /** `setDoneAt`, `setDoingAt`, `setUndoAt`, `setErrorAt`: the state written at each index in turn. */
  function SetStateAt(v: View, st: State, indices: seq<int>): (r: Outcome)
    ensures r.view == v.(nodes := r.view.nodes)
    ensures r.thrown <==> exists k :: 0 <= k < |indices| && !(0 <= indices[k] < |v.nodes|)
    ensures !r.thrown ==>
              && |r.view.nodes| == |v.nodes|
              && forall i :: 0 <= i < |v.nodes| ==>
                   && r.view.nodes[i].state == (if i in indices then st else v.nodes[i].state)
                   && r.view.nodes[i].title == v.nodes[i].title
                   && r.view.nodes[i].detail == v.nodes[i].detail
                   && r.view.nodes[i].isFinished == v.nodes[i].isFinished
  {
    var a := ApplyState(v.nodes, indices, st);
    Outcome(v.(nodes := a.nodes), a.thrown)
  }

  /** The indices `from..to`, both ends included; empty when `from > to`. */
  function Range(from: int, to: int): (s: seq<int>)
    ensures |s| == if from <= to then to - from + 1 else 0
    ensures forall k :: 0 <= k < |s| ==> s[k] == from + k
  {
    if from <= to then seq(to - from + 1, k => from + k) else []
  }

  /** `setDoneRange(from, to)`: every index from `from` to `to` marked done, in ascending order. */
  function SetDoneRange(v: View, from: int, to: int): (r: Outcome)
    ensures from > to ==> r == Outcome(v, false)
    ensures 0 <= from && to < |v.nodes| ==>
              && !r.thrown && |r.view.nodes| == |v.nodes|
              && forall i :: 0 <= i < |v.nodes| ==>
                   r.view.nodes[i].state == (if from <= i <= to then Done else v.nodes[i].state)
    ensures from <= to && (from < 0 || |v.nodes| <= to) ==> r.thrown
  {
    var r := SetStateAt(v, Done, Range(from, to));
    forall i | from <= i <= to
      ensures i in Range(from, to)
    {
      assert Range(from, to)[i - from] == i;
    }
    if from > to then
      assert v.(nodes := v.nodes) == v;
      r
    else if from < 0 || |v.nodes| <= to then
      var k := if from < 0 then 0 else to - from;
      assert !(0 <= Range(from, to)[k] < |v.nodes|);
      r
    else r
  }

  /** `setDoneRange(to = to)`: `from` defaults to 0, so every index up to `to` is marked done. */
  function SetDoneUpTo(v: View, to: int): (r: Outcome)
    ensures to < 0 ==> r == Outcome(v, false)
    ensures to < |v.nodes| ==>
              && !r.thrown && |r.view.nodes| == |v.nodes|
              && forall i :: 0 <= i < |v.nodes| ==>
                   r.view.nodes[i].state == (if i <= to then Done else v.nodes[i].state)
    ensures |v.nodes| <= to ==> r.thrown
  {
    SetDoneRange(v, 0, to)
  }


  /**
   A range running past the end still marks every node from `from` to the
   end before it throws.
   */
  lemma RangePastEndMarksTail(v: View, from: int, to: int)
    requires 0 <= from <= |v.nodes| <= to
    ensures var r := SetDoneRange(v, from, to);
            && r.thrown
            && |r.view.nodes| == |v.nodes|
            && forall i :: 0 <= i < |v.nodes| ==>
                 r.view.nodes[i].state == (if from <= i then Done else v.nodes[i].state)
  {
    var idx := Range(from, to);
    var p := |v.nodes| - from;
    ThrowKeepsEarlierWrites(v.nodes, idx, Done, p);
    var pre := idx[..p];
    assert forall i :: i in pre <==> from <= i < |v.nodes| by {
      forall i | from <= i < |v.nodes| ensures i in pre { assert pre[i - from] == i; }
    }
  }

  // ---------------------------------------------------------------- listener and size

  /** `setOnNodeClickListener`: from now on presses are offered to the layout. */
  function SetOnNodeClickListener(v: View): (r: View)
    ensures r.listening && r == v.(listening := true)
  {
    v.(listening := true)
  }

  /** `onSizeChanged`: the new size, with the space inside the paddings following it. */
  function OnSizeChanged(v: View, w: int, h: int): (r: View)
    ensures r.frame.RemainW() == w as real - v.frame.paddingLeft as real - v.frame.paddingRight as real
    ensures r.frame.RemainH() == h as real - v.frame.paddingTop as real - v.frame.paddingBottom as real
    ensures r == v.(frame := r.frame)
    ensures r.frame.paddingLeft == v.frame.paddingLeft && r.frame.paddingTop == v.frame.paddingTop
    ensures r.frame.paddingRight == v.frame.paddingRight && r.frame.paddingBottom == v.frame.paddingBottom
  {
    v.(frame := v.frame.(totalW := w as real, totalH := h as real))
  }

  // ---------------------------------------------------------------- measure, draw, touch

  datatype MeasureResult = MeasureResult(view: View, measured: Measured)

  /**
   `onMeasure`: the current layout measures; a vertical layout leaves a
   cache covering exactly the current nodes.
   */
  function OnMeasure(v: View, style: Style, widthSpec: MeasureSpec, heightSpec: MeasureSpec): (r: MeasureResult)
    requires ValidStyle(style)
    ensures r.measured.widthSpec == widthSpec
    ensures r.view == v.(cache := r.view.cache)
    ensures v.orientation == Orientation.Horizontal ==>
              r.measured == Horizontal.GetMeasureSpec(v.nodes, style.dp, widthSpec, heightSpec) && r.view == v
    ensures v.orientation == Orientation.Vertical ==> Vertical.CacheCovers(r.view.cache, |v.nodes|)
  {
    if v.orientation == Orientation.Horizontal then
      MeasureResult(v, Horizontal.GetMeasureSpec(v.nodes, style.dp, widthSpec, heightSpec))
    else
      var m := Vertical.GetMeasureSpec(v.nodes, v.frame, style, widthSpec, heightSpec, v.cache);
      MeasureResult(v.(cache := m.cache), m.result)
  }

  /** The message drawn at the centre of an empty view. */
  const EmptyMessage: string := "您还没有设置数据"

  /**
   What a draw pass produces: the centred message for an empty view, the
   node drawings of the current layout, or nothing usable when a vertical
   view is drawn with a cache from a different node list.
   */
  datatype Drawing =
    | Placeholder(run: TextRun)
    | HorizontalNodes(nodes: seq<Horizontal.NodeDrawing>)
    | VerticalRows(rows: seq<Vertical.RowDrawing>)
    | DrawNotMeasured

  /** `onDraw`. */
  function OnDraw(v: View, style: Style): (d: Drawing)
    requires ValidStyle(style)
    ensures d.Placeholder? <==> |v.nodes| == 0
    ensures d.Placeholder? ==> d.run == TextRun(EmptyMessage, v.frame.totalW / 2.0, v.frame.totalH / 2.0)
    ensures d.HorizontalNodes? <==> 0 < |v.nodes| && v.orientation == Orientation.Horizontal
    ensures d.HorizontalNodes? ==>
              && |d.nodes| == |v.nodes|
              && d.nodes == Horizontal.DrawContent(v.nodes, v.frame, style, v.direction)
    ensures d.VerticalRows? ==>
              && |d.rows| == |v.nodes| && v.orientation == Orientation.Vertical
              && Vertical.CacheCovers(v.cache, |v.nodes|)
              && d.rows == Vertical.DrawContent(v.nodes, v.frame, style, v.direction,
                                                Vertical.CachedExtras(v.cache, |v.nodes|), v.cache.titleLine)
    ensures d.DrawNotMeasured? <==> 0 < |v.nodes| && v.orientation == Orientation.Vertical && !Vertical.CacheCovers(v.cache, |v.nodes|)
  {
    var n := |v.nodes|;
    if n == 0 then Placeholder(TextRun(EmptyMessage[..8], v.frame.totalW / 2.0, v.frame.totalH / 2.0))
    else if v.orientation == Orientation.Horizontal then HorizontalNodes(Horizontal.DrawContent(v.nodes, v.frame, style, v.direction))
    else
      assert v.orientation == Orientation.Vertical;
      if Vertical.CacheCovers(v.cache, n) then
        VerticalRows(Vertical.DrawContent(v.nodes, v.frame, style, v.direction,
                                          Vertical.CachedExtras(v.cache, n), v.cache.titleLine))
      else DrawNotMeasured
  }

  /** A press offered to the view: passed on, handled by the layout, or met with a stale vertical cache. */
  datatype Touch = PassedToSuper | Handled(click: Click) | TouchNotMeasured

  /** The press is offered to the layout: a down action on a non-empty view with a listener, inside the content. */
  function Delegates(v: View, action: int, x: real, y: real): (b: bool)
    ensures b ==> action == 0 && 0 < |v.nodes| && v.listening
    ensures b ==> && 0.0 <= x - v.frame.paddingLeft as real < v.frame.RemainW()
                  && 0.0 <= y - v.frame.paddingTop as real < v.frame.RemainH()
  {
    if InContent(v.frame, x, y) then
      InContentBounds(v.frame, x, y);
      action == 0 && 0 < |v.nodes| && v.listening
    else false
  }

  /**
   `onTouchEvent`, as written: anything but a press down inside the content
   of a non-empty view with a listener goes to the platform; the rest is hit
   tested by the current layout's own `handleEvent`. A reported node is
   always one of the view's nodes at its own index. The one press that
   indexes outside the list is a horizontal press exactly on the left
   padding edge; every other horizontal press reports a node.
   */
  function OnTouchEvent(v: View, action: int, x: real, y: real): (t: Touch)
    ensures t.PassedToSuper? <==> !Delegates(v, action, x, y)
    ensures t.Handled? && t.click.IndexOutOfBounds? ==>
              v.orientation == Orientation.Horizontal && x == v.frame.paddingLeft as real
    ensures t.Handled? && t.click.Clicked? ==>
              0 <= t.click.index < |v.nodes| && t.click.node == v.nodes[t.click.index]
    ensures (Delegates(v, action, x, y) && v.orientation == Orientation.Horizontal && x != v.frame.paddingLeft as real)
            ==> t.Handled? && t.click.Clicked?
    ensures t.TouchNotMeasured? ==> v.orientation == Orientation.Vertical && !Vertical.CacheCovers(v.cache, |v.nodes|)
  {
    if !Delegates(v, action, x, y) then PassedToSuper
    else
      if v.orientation == Orientation.Horizontal then
        Handled(Horizontal.HandleEventAsWritten(v.nodes, v.frame, v.direction, x))
      else
        assert v.orientation == Orientation.Vertical;
        if Vertical.CacheCovers(v.cache, |v.nodes|) then
          Handled(Vertical.HandleEventAsWritten(v.nodes, v.frame, v.direction, Vertical.CachedExtras(v.cache, |v.nodes|), y))
        else TouchNotMeasured
  }

  /**
   The same dispatch with both layouts' hit tests corrected: no press the
   filter lets through indexes outside the list, and a horizontal one
   always reports a node.
   */
  function OnTouchEventCorrected(v: View, action: int, x: real, y: real): (t: Touch)
    ensures t.PassedToSuper? <==> !Delegates(v, action, x, y)
    ensures t.Handled? ==> !t.click.IndexOutOfBounds?
    ensures t.Handled? && t.click.Clicked? ==>
              0 <= t.click.index < |v.nodes| && t.click.node == v.nodes[t.click.index]
    ensures t.TouchNotMeasured? ==> v.orientation == Orientation.Vertical && !Vertical.CacheCovers(v.cache, |v.nodes|)
  {
    if !Delegates(v, action, x, y) then PassedToSuper
    else
      if v.orientation == Orientation.Horizontal then
        Horizontal.HitInContentReportsNode(v.nodes, v.frame, v.direction, x, y);
        Handled(Horizontal.HandleEvent(v.nodes, v.frame, v.direction, x))
      else
        assert v.orientation == Orientation.Vertical;
        if Vertical.CacheCovers(v.cache, |v.nodes|) then
          Handled(Vertical.HandleEvent(v.nodes, v.frame, v.direction, Vertical.CachedExtras(v.cache, |v.nodes|), y))
        else TouchNotMeasured
  }

  /** With the corrected hit test, every delegated horizontal press reports a node. */
  lemma HorizontalTouchReportsNode(v: View, x: real, y: real)
    requires v.orientation == Orientation.Horizontal && Delegates(v, 0, x, y)
    ensures var t := OnTouchEventCorrected(v, 0, x, y);
            t.Handled? && t.click.Clicked? && 0 <= t.click.index < |v.nodes| && t.click.node == v.nodes[t.click.index]
  {
    Horizontal.HitInContentReportsNode(v.nodes, v.frame, v.direction, x, y);
  }

  /**
   As written, a delegated horizontal press exactly on the left padding
   edge makes the view index outside its node list.
   */
  lemma HorizontalTouchOnLeftEdgeThrows(v: View, y: real)
    requires v.orientation == Orientation.Horizontal
    requires Delegates(v, 0, v.frame.paddingLeft as real, y)
    ensures OnTouchEvent(v, 0, v.frame.paddingLeft as real, y) == Handled(IndexOutOfBounds)
  {
    Horizontal.AsWrittenLeftEdgeThrows(v.nodes, v.frame, v.direction, y);
  }

  /**
   After a measure pass, a delegated press on a vertical view is always hit
   tested (never met with a stale cache), and with the corrected hit test
   one inside a drawn row, all rows having non-negative height, reports
   that row's node.
   */
  lemma MeasuredVerticalTouch(v: View, style: Style, widthSpec: MeasureSpec, heightSpec: MeasureSpec,
                              x: real, y: real, i: nat)
    requires ValidStyle(style)
    requires v.orientation == Orientation.Vertical
    requires Delegates(v, 0, x, y)
    ensures var w := OnMeasure(v, style, widthSpec, heightSpec).view;
            && OnTouchEventCorrected(w, 0, x, y).Handled?
            && (var h := Vertical.RowHeights(w.frame, Vertical.CachedExtras(w.cache, |w.nodes|));
                i < |w.nodes| && (forall k :: 0 <= k < |w.nodes| ==> 0.0 <= h[k])
                && Vertical.InRow(w.frame, w.direction, h, i, y)
                ==> OnTouchEventCorrected(w, 0, x, y) == Handled(Clicked(i, w.nodes[i])))
  {
    var w := OnMeasure(v, style, widthSpec, heightSpec).view;
    var extras := Vertical.CachedExtras(w.cache, |w.nodes|);
    var h := Vertical.RowHeights(w.frame, extras);
    if i < |w.nodes| && (forall k :: 0 <= k < |w.nodes| ==> 0.0 <= h[k]) && Vertical.InRow(w.frame, w.direction, h, i, y) {
      Vertical.HitInsideDrawnRow(w.nodes, w.frame, w.direction, extras, i, y);
    }
  }

  /**
   As written, the same holds only for a press whose y, less the top
   padding, falls inside a drawn row: the press is compared with rows
   shifted down by the padding.
   */
  lemma MeasuredVerticalTouchAsWritten(v: View, style: Style, widthSpec: MeasureSpec, heightSpec: MeasureSpec,
                                       x: real, y: real, i: nat)
    requires ValidStyle(style)
    requires v.orientation == Orientation.Vertical
    requires Delegates(v, 0, x, y)
    ensures var w := OnMeasure(v, style, widthSpec, heightSpec).view;
            && OnTouchEvent(w, 0, x, y).Handled?
            && (var h := Vertical.RowHeights(w.frame, Vertical.CachedExtras(w.cache, |w.nodes|));
                i < |w.nodes| && (forall k :: 0 <= k < |w.nodes| ==> 0.0 <= h[k])
                && Vertical.InRow(w.frame, w.direction, h, i, y - w.frame.paddingTop as real)
                ==> OnTouchEvent(w, 0, x, y) == Handled(Clicked(i, w.nodes[i])))
  {
    var w := OnMeasure(v, style, widthSpec, heightSpec).view;
    var extras := Vertical.CachedExtras(w.cache, |w.nodes|);
    var h := Vertical.RowHeights(w.frame, extras);
    var y' := y - w.frame.paddingTop as real;
    if i < |w.nodes| && (forall k :: 0 <= k < |w.nodes| ==> 0.0 <= h[k]) && Vertical.InRow(w.frame, w.direction, h, i, y') {
      Vertical.AsWrittenHitInsideShiftedRow(w.nodes, w.frame, w.direction, extras, i, y);
    }
  }

  /** After a measure pass, a non-empty vertical view draws one row per node. */
  lemma MeasuredVerticalDraws(v: View, style: Style, widthSpec: MeasureSpec, heightSpec: MeasureSpec)
    requires ValidStyle(style)
    requires v.orientation == Orientation.Vertical && 0 < |v.nodes|
    ensures var d := OnDraw(OnMeasure(v, style, widthSpec, heightSpec).view, style);
            d.VerticalRows? && |d.rows| == |v.nodes|
  {
  }

  /** Every operation that changes the configuration keeps the direction fitting the orientation. */
  lemma OperationsKeepConsistent(v: View, o: Orientation, d: Direction, ns: seq<StepModel>, st: State,
                                 indices: seq<int>, w: int, h: int)
    requires Consistent(v)
    ensures Consistent(SetOrientation(v, o)) && Consistent(SetDirection(v, d))
    ensures Consistent(SetNodes(v, ns)) && Consistent(SetStateAt(v, st, indices).view)
    ensures Consistent(SetOnNodeClickListener(v)) && Consistent(OnSizeChanged(v, w, h))
  {
  }
}
