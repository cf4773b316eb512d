# StepView, modelled in Dafny

StepView is an Android widget that draws a sequence of steps ("nodes"),
each with a title, an optional detail line and a state (pending, in
progress, done, failed). It lays them out horizontally (equal-width columns,
left to right or mirrored) or vertically (stacked rows, from the top or from
the bottom). It joins neighbouring nodes with lines whose colour shows
progress, and it reports presses on a node to a click listener.

This project models the widget's core as pure Dafny functions over immutable
values:

- `numeric.dfy` (`Numeric`): Kotlin's `ceil`, `floor` and `Float.toInt()`,
  and `ceil(a / b).toInt()` including a zero divisor. It also has real sums.
- `step_model.dfy` (`Steps`): the step record, the state, direction and
  orientation enumerations, Kotlin's `isBlank`, and the outcome of a click.
- `extention.dfy` (`Extension`): the font line height and the multi-line
  text splitter `drawMultilineText`, both as a reference function and as the
  loop the code runs.
- `graphics.dfy` (`Graphics`): colours, icon glyphs, icon boxes, lines, and
  the colour rules both layouts share.
- `host.dfy` (`Host`): what the layouts receive from the host view. This is
  the measure specs with `View.resolveSize`, the frame (paddings and size),
  the content rectangle filter and the style (density, paddings, paints).
- `horizontal.dfy` (`Horizontal`): the horizontal layout's measure, draw and
  hit test.
- `vertical.dfy` (`Vertical`): the vertical layout's measure pass and its
  per-index cache, the drawing (both as a comprehension and as the
  incremental loop), and the hit test.
- `step_view.dfy` (`StepView`): the view itself. This covers the attribute
  codes, the direction rule, the node-list and state-setting API, and
  `onSizeChanged`, `onMeasure`, `onDraw` and `onTouchEvent` dispatching to
  the current layout.

Text measurement belongs to the platform. A `Paint` carries
`measureText` and `breakText` as function-valued fields. The model relies only
on the contract in `Extension.MeasuresSoundly`:

- widths are non-negative;
- the empty string has no width;
- `breakText` consumes between nothing and the rest of the text, and what it
  consumes fits the width.

Where the library's documentation and its code disagree, the model follows
the code:

- The batch state setters are not all-or-nothing. `setDoneAt(0, 1, 99)` on
  three nodes throws after nodes 0 and 1 are already done
  (`StepView.BatchSetterIsNotAtomic`).
- `drawMultilineText` does not stop when the text runs out. It still draws
  the remaining rows, and they are empty
  (`Extension.ExhaustedTextGivesEmptyRows`).
- Nothing rejects a step with an empty title. In a vertical view such a step
  measures zero title rows, so its row is one title line shorter than the
  base (`Vertical.EmptyTitleShrinksRow`).

The two hit tests found wrong below are modelled both as written and
corrected. The view's `OnTouchEvent` dispatches to the hit tests as written;
`OnTouchEventCorrected` is the same dispatch over the corrected ones.

## Model

| member | source | states |
|---|---|---|
| Steps.NewStep | stepView/src/main/java/com/github/smaxlyb/stepview/StepModel.kt:6-27 | A step given only a title has no detail, is pending, and is not finished. |
| Steps.WithState | stepView/src/main/java/com/github/smaxlyb/stepview/StepModel.kt:21 | Writing a step's state changes the state only; title, detail and the reserved flag stay the same. |
| Steps.IsBlank | stepView/src/main/java/com/github/smaxlyb/stepview/HorizontalStepViewHelper.kt:45 | Kotlin's `isBlank`: the empty string is blank, and a string holding any visible ASCII character is not. |
| Steps.HasDetail | stepView/src/main/java/com/github/smaxlyb/stepview/HorizontalStepViewHelper.kt:45 | `!detail.isNullOrBlank()`: a missing or empty detail never counts as a subtitle; a detail with a visible character always does. |
| Numeric.Ceil | stepView/src/main/java/com/github/smaxlyb/stepview/HorizontalStepViewHelper.kt:129 | `ceil` is the least integer not below its argument. |
| Numeric.Trunc | stepView/src/main/java/com/github/smaxlyb/stepview/HorizontalStepViewHelper.kt:46-48 | `Float.toInt()` drops the fraction toward zero: at most x for non-negative x, at least x for negative x, within one. |
| Numeric.CeilQuotient | stepView/src/main/java/com/github/smaxlyb/stepview/Extention.kt:29-33 | `ceil(a / b).toInt()` is the rounded-up quotient for a positive divisor and at most 0 for a negative one. A zero divisor gives Int.MAX_VALUE for a > 0 and 0 for a = 0. |
| Extension.FontLineHeight | stepView/src/main/java/com/github/smaxlyb/stepview/Extention.kt:17-18 | With sane metrics the baseline distance is positive and at least the glyph height. |
| Extension.LineCount | stepView/src/main/java/com/github/smaxlyb/stepview/Extention.kt:28-34 | The row count is at most maxLine. Empty text gets no row, a zero width sends visible text to maxLine rows, and a negative width draws nothing. |
| Extension.LineCountCovers | stepView/src/main/java/com/github/smaxlyb/stepview/Extention.kt:28-34 | With a positive width the count is the fewest rows whose combined width covers the text, unless maxLine caps it. |
| Extension.Cut | stepView/src/main/java/com/github/smaxlyb/stepview/Extention.kt:35-39 | The running end offset never passes the end of the text. |
| Extension.Row | stepView/src/main/java/com/github/smaxlyb/stepview/Extention.kt:38-41 | Every drawn row's measured width fits the maximum width. |
| Extension.MultilineText | stepView/src/main/java/com/github/smaxlyb/stepview/Extention.kt:27-43 | The splitter draws LineCount rows, all at x, one line height apart, each fitting the width. |
| Extension.DrawMultilineText | stepView/src/main/java/com/github/smaxlyb/stepview/Extention.kt:35-42 | The `start = end; end += breakText` loop draws exactly the rows of the reference definition. |
| Extension.CutMonotone | stepView/src/main/java/com/github/smaxlyb/stepview/Extention.kt:38-39 | Row ends never move backwards. |
| Extension.JoinedPrefix | stepView/src/main/java/com/github/smaxlyb/stepview/Extention.kt:35-42 | The first k rows, read in order, are the text up to the k-th row end. |
| Extension.RowsSpellTextPrefix | stepView/src/main/java/com/github/smaxlyb/stepview/Extention.kt:35-42 | All drawn rows together are a prefix of the text: consecutive, no overlap, nothing skipped, and the rest dropped without a marker. |
| Extension.ExhaustedTextGivesEmptyRows | stepView/src/main/java/com/github/smaxlyb/stepview/Extention.kt:37-42 | Once a row ends at the end of the text, every later row is still drawn and is empty. |
| Graphics.IconBounds | stepView/src/main/java/com/github/smaxlyb/stepview/HorizontalStepViewHelper.kt:90-93 | Each side of the icon box is the matching edge of the circle (centre less or plus the radius) truncated toward zero, for negative coordinates too; with a non-negative radius the box is not inverted. |
| Graphics.ConnectorColour | stepView/src/main/java/com/github/smaxlyb/stepview/HorizontalStepViewHelper.kt:83-87 | A connector shows completion exactly when its node is done and the next node is not pending. |
| Graphics.TitleColourFor | stepView/src/main/java/com/github/smaxlyb/stepview/HorizontalStepViewHelper.kt:104-109 | A title is grey exactly when its step is pending, and black otherwise. |
| Host.ResolveSize | stepView/src/main/java/com/github/smaxlyb/stepview/HorizontalStepViewHelper.kt:43-50 | An exact constraint wins, an at-most constraint caps the desired size, and an unspecified one keeps it. |
| Host.InContentBounds | stepView/src/main/java/com/github/smaxlyb/stepview/StepView.kt:136-140 | A point passing the content-rectangle filter lies in [0, remainW) x [0, remainH) once the paddings are taken off, and both sizes are positive. |
| Horizontal.FirstWithDetail | stepView/src/main/java/com/github/smaxlyb/stepview/HorizontalStepViewHelper.kt:45 | The result is empty exactly when no node has a non-blank detail; otherwise it is the first node that has one. |
| Horizontal.GetMeasureSpec | stepView/src/main/java/com/github/smaxlyb/stepview/HorizontalStepViewHelper.kt:42-52 | The width spec passes through. The height is 120 dp when some node has a visible detail and 80 dp otherwise, resolved against the constraint. |
| Horizontal.NodeGlyph | stepView/src/main/java/com/github/smaxlyb/stepview/HorizontalStepViewHelper.kt:149-169 | The icon shows the node's state. Pending and active steps get a numbered circle with the index + 1; done and failed steps get a resource icon. |
| Horizontal.DrawContent | stepView/src/main/java/com/github/smaxlyb/stepview/HorizontalStepViewHelper.kt:54-123 | One drawing per node, in logical order. |
| Horizontal.MirrorIdentity | stepView/src/main/java/com/github/smaxlyb/stepview/HorizontalStepViewHelper.kt:63-68 | Drawn from the right, node i sits where node size-1-i sits drawn from the left. |
| Horizontal.IconCentreInColumn | stepView/src/main/java/com/github/smaxlyb/stepview/HorizontalStepViewHelper.kt:56-68 | Each icon centre lies strictly inside its visual column. |
| Horizontal.ConnectorRule | stepView/src/main/java/com/github/smaxlyb/stepview/HorizontalStepViewHelper.kt:70-88 | Every node but the last has a connector, in the completion colour rule, on the icon row. It runs from the padding past this icon to the padding short of the next one, in either direction. |
| Horizontal.TitleAndIconRule | stepView/src/main/java/com/github/smaxlyb/stepview/HorizontalStepViewHelper.kt:89-112 | The title shows its first min(4, length) characters, centred on the icon and grey only when pending. The icon shows the state and, when numbered, the index + 1. |
| Horizontal.DetailRule | stepView/src/main/java/com/github/smaxlyb/stepview/HorizontalStepViewHelper.kt:114-120 | A detail draws at most two rows, each within the column width less twice the node padding; a node without detail draws none. |
| Horizontal.DrawIgnoresIsFinished | stepView/src/main/java/com/github/smaxlyb/stepview/StepModel.kt:23-26 | The reserved finished flag never changes the drawing. |
| Horizontal.IconX | stepView/src/main/java/com/github/smaxlyb/stepview/HorizontalStepViewHelper.kt:63-68 | Node i's icon centre is the middle of column i from the left, or of column size-1-i when drawn from the right. |
| Horizontal.Pick | stepView/src/main/java/com/github/smaxlyb/stepview/HorizontalStepViewHelper.kt:130-137 | Column n names node n, or node size-1-n when mirrored. An index outside the list is an index fault, never a silent miss. |
| Horizontal.Column | stepView/src/main/java/com/github/smaxlyb/stepview/HorizontalStepViewHelper.kt:127-129 | Corrected column: the press lies in [k*w, (k+1)*w) of the content, w being the column width. |
| Horizontal.ColumnAsWritten | stepView/src/main/java/com/github/smaxlyb/stepview/HorizontalStepViewHelper.kt:127-129 | As written, `ceil(x / w).toInt() - 1`: the press lies in (k*w, (k+1)*w] of the content. |
| Horizontal.ColumnAsWrittenInRange | stepView/src/main/java/com/github/smaxlyb/stepview/HorizontalStepViewHelper.kt:127-129 | As written, a press strictly right of the content's left edge and not beyond its right edge falls in a real column. |
| Horizontal.ColumnInRange | stepView/src/main/java/com/github/smaxlyb/stepview/HorizontalStepViewHelper.kt:127-129 | Inside the content width, the column containing the touch is a real column. |
| Horizontal.ColumnSpan | stepView/src/main/java/com/github/smaxlyb/stepview/HorizontalStepViewHelper.kt:127-129 | Corrected: a touch in [k*w, (k+1)*w) lands in column k. |
| Horizontal.ColumnAsWrittenSpan | stepView/src/main/java/com/github/smaxlyb/stepview/HorizontalStepViewHelper.kt:127-129 | As written: a touch in (k*w, (k+1)*w] lands in column k. |
| Horizontal.HandleEvent | stepView/src/main/java/com/github/smaxlyb/stepview/HorizontalStepViewHelper.kt:125-140 | Corrected hit test: a touch inside the content width reports a node of the list at its own index. |
| Horizontal.HitAtIconCentre | stepView/src/main/java/com/github/smaxlyb/stepview/HorizontalStepViewHelper.kt:125-140 | Draw and hit test agree: a press on node i's icon centre reports node i, in either direction. |
| Horizontal.AsWrittenHitAtIconCentre | stepView/src/main/java/com/github/smaxlyb/stepview/HorizontalStepViewHelper.kt:125-140 | The code as written also reports node i at its icon centre. |
| Horizontal.AsWrittenLeftEdgeThrows | stepView/src/main/java/com/github/smaxlyb/stepview/HorizontalStepViewHelper.kt:127-136 | As written, a press exactly on the content's left edge passes the filter and indexes outside the list, in both directions. |
| Horizontal.HandleEventAsWritten | stepView/src/main/java/com/github/smaxlyb/stepview/HorizontalStepViewHelper.kt:125-140 | As written, the hit test never reports nothing; a reported node is the list's node at that index, and every press strictly right of the content's left edge and not beyond its right edge reports one. |
| Horizontal.HitInContentReportsNode | stepView/src/main/java/com/github/smaxlyb/stepview/HorizontalStepViewHelper.kt:125-140 | Every touch the view's filter lets through reports a node of the list. |
| Vertical.CappedLines | stepView/src/main/java/com/github/smaxlyb/stepview/VerticalStepViewHelper.kt:62-66 | The measured row count is at most the cap. Empty text gets none, and visible text at a positive width gets at least one. |
| Vertical.CappedLinesMatchLineCount | stepView/src/main/java/com/github/smaxlyb/stepview/VerticalStepViewHelper.kt:62-66 | At a positive width, the measure pass's row count equals the number of rows the text splitter draws. |
| Vertical.CappedLinesMonotone | stepView/src/main/java/com/github/smaxlyb/stepview/VerticalStepViewHelper.kt:62-66 | For a non-negative width, wider text never measures fewer rows. |
| Vertical.Extras | stepView/src/main/java/com/github/smaxlyb/stepview/VerticalStepViewHelper.kt:60-79 | Entry i is node i's extra height. |
| Vertical.Fill | stepView/src/main/java/com/github/smaxlyb/stepview/VerticalStepViewHelper.kt:60-79 | The loop puts every node's extra height and title row count under its index and leaves every other cached entry alone. |
| Vertical.GetMeasureSpec | stepView/src/main/java/com/github/smaxlyb/stepview/VerticalStepViewHelper.kt:46-84 | The width spec passes through. The extra-height cache ends up holding exactly one entry per node, and the title-row cache gains one per node while keeping stale ones. The height is the resolved desired height over those extras. |
| Vertical.EmptyListMeasuresOneRow | stepView/src/main/java/com/github/smaxlyb/stepview/VerticalStepViewHelper.kt:50-51 | A view without nodes asks for one 66 dp row, resolved against the constraint. |
| Vertical.DesiredHeightBounds | stepView/src/main/java/com/github/smaxlyb/stepview/VerticalStepViewHelper.kt:54-81 | With no negative extra, the desired height is at least 66 dp per node and at most that plus the sum of the extras. |
| Vertical.ExtraHeightBounds | stepView/src/main/java/com/github/smaxlyb/stepview/VerticalStepViewHelper.kt:68-76 | For visible text a node's extra height is between nothing and one title row plus one detail row. |
| Vertical.ExtraHeight | stepView/src/main/java/com/github/smaxlyb/stepview/VerticalStepViewHelper.kt:62-77 | Whatever the text width, a node's extra height never exceeds one title row plus one detail row, or one title row without a detail. |
| Vertical.DesiredHeight | stepView/src/main/java/com/github/smaxlyb/stepview/VerticalStepViewHelper.kt:50-81 | An empty list asks for one base row of 66 dp. Otherwise, when the extras do not sum below zero, the height lies between the base rows (66 dp per node) and the base rows plus the untruncated sum of the extras. |
| Vertical.NegativeWidthReversesExtraHeight | stepView/src/main/java/com/github/smaxlyb/stepview/VerticalStepViewHelper.kt:55-68 | With a negative width for text (-50), a 10 px title counts 0 rows and a 100 px title counts -2, so the wider title gets the smaller extra height. |
| Vertical.EmptyTitleShrinksRow | stepView/src/main/java/com/github/smaxlyb/stepview/VerticalStepViewHelper.kt:62-68 | An empty title measures zero rows, so a node without detail has an extra height of minus one title line. |
| Vertical.ExtraHeightMonotone | stepView/src/main/java/com/github/smaxlyb/stepview/VerticalStepViewHelper.kt:60-79 | For a non-negative width for text, wider title or detail text never lowers a node's extra height. |
| Vertical.DesiredHeightMonotone | stepView/src/main/java/com/github/smaxlyb/stepview/VerticalStepViewHelper.kt:50-81 | Larger extras never lower the desired height. |
| Vertical.HeightMonotone | stepView/src/main/java/com/github/smaxlyb/stepview/VerticalStepViewHelper.kt:46-84 | At a fixed width that leaves a non-negative width for text, widening any node's title or detail never lowers the measured height. |
| Vertical.RowGlyph | stepView/src/main/java/com/github/smaxlyb/stepview/VerticalStepViewHelper.kt:214-240 | Every state gets a resource icon showing that state, tinted with the undo colour exactly when pending. |
| Vertical.DrawContent | stepView/src/main/java/com/github/smaxlyb/stepview/VerticalStepViewHelper.kt:86-174 | One row drawing per node, in logical order. |
| Vertical.FirstRowTop | stepView/src/main/java/com/github/smaxlyb/stepview/VerticalStepViewHelper.kt:97-103 | The loop's first top is row 0's top: the top padding, or the bottom edge less the first row. |
| Vertical.NextRowTop | stepView/src/main/java/com/github/smaxlyb/stepview/VerticalStepViewHelper.kt:165-171 | Consecutive row tops are one row apart: this row's height down the view, or the next row's height up it. |
| Vertical.DrawContentLoop | stepView/src/main/java/com/github/smaxlyb/stepview/VerticalStepViewHelper.kt:97-172 | The incremental loop draws exactly the rows of the reference drawing. |
| Vertical.RowHeightsFillContent | stepView/src/main/java/com/github/smaxlyb/stepview/VerticalStepViewHelper.kt:88-91 | The rows fill the content height exactly: their heights sum to the height inside the paddings. |
| Vertical.ConnectorRule | stepView/src/main/java/com/github/smaxlyb/stepview/VerticalStepViewHelper.kt:107-127 | Every row but the last has a connector, in the completion colour rule, on the icon column. It runs from the padding past this icon to the padding short of the next row's icon, down or up. |
| Vertical.IconAndTitleColourRule | stepView/src/main/java/com/github/smaxlyb/stepview/VerticalStepViewHelper.kt:129-146 | The icon is a resource glyph for the row's state, and the title is grey exactly when pending. |
| Vertical.MeasuredTitleLine | stepView/src/main/java/com/github/smaxlyb/stepview/VerticalStepViewHelper.kt:60-67 | A measure pass at the drawn width caches each node's title row count at that width. |
| Vertical.DetailUnderTitle | stepView/src/main/java/com/github/smaxlyb/stepview/VerticalStepViewHelper.kt:136-163 | With a current cache, the title draws exactly the cached number of rows, at most two, and the detail starts right under the last one. |
| Vertical.DrawnDetailUnderTitle | stepView/src/main/java/com/github/smaxlyb/stepview/VerticalStepViewHelper.kt:152-163 | In the drawing, row i's detail sits right under its drawn title rows when the cache is current. |
| Vertical.WalkDownFrom | stepView/src/main/java/com/github/smaxlyb/stepview/VerticalStepViewHelper.kt:185-194 | Walking down from row i reports the first row from i on that strictly contains the press, or nothing. |
| Vertical.WalkUpFrom | stepView/src/main/java/com/github/smaxlyb/stepview/VerticalStepViewHelper.kt:196-205 | Walking up from the bottom edge reports the first row from i on that strictly contains the press, or nothing. |
| Vertical.WalkFindsFirstRow | stepView/src/main/java/com/github/smaxlyb/stepview/VerticalStepViewHelper.kt:183-207 | In either direction the walk reports the first containing row, or nothing, and never faults. |
| Vertical.WalkDown | stepView/src/main/java/com/github/smaxlyb/stepview/VerticalStepViewHelper.kt:185-194 | Walking down from index i never indexes outside the list, and a reported node is the list's node at an index from i on. |
| Vertical.WalkUp | stepView/src/main/java/com/github/smaxlyb/stepview/VerticalStepViewHelper.kt:196-205 | Walking up from index i never indexes outside the list, and a reported node is the list's node at an index from i on. |
| Vertical.Walk | stepView/src/main/java/com/github/smaxlyb/stepview/VerticalStepViewHelper.kt:183-207 | Either walk, chosen by direction, never indexes outside the list and reports only the list's node at its own index. |
| Vertical.HandleEvent | stepView/src/main/java/com/github/smaxlyb/stepview/VerticalStepViewHelper.kt:176-212 | Corrected hit test: the first drawn row strictly containing the press is reported; nothing is reported exactly when no row contains it. |
| Vertical.HandleEventAsWritten | stepView/src/main/java/com/github/smaxlyb/stepview/VerticalStepViewHelper.kt:176-212 | As written, the press less the top padding is tested: a reported node is the first row containing that shifted press, and nothing is reported exactly when no row contains it. |
| Vertical.AsWrittenHitInsideShiftedRow | stepView/src/main/java/com/github/smaxlyb/stepview/VerticalStepViewHelper.kt:176-212 | As written, if no row has a negative height, a press whose y less the top padding lies inside row i reports node i. |
| Vertical.HitInsideDrawnRow | stepView/src/main/java/com/github/smaxlyb/stepview/VerticalStepViewHelper.kt:176-212 | Draw and hit test agree: if no row has a negative height, a press strictly inside row i reports node i, in both directions. |
| Vertical.AsWrittenExactWithoutTopPadding | stepView/src/main/java/com/github/smaxlyb/stepview/VerticalStepViewHelper.kt:178 | Without a top padding, the code as written agrees with the corrected hit test. |
| Vertical.AsWrittenMissesTopOfRow | stepView/src/main/java/com/github/smaxlyb/stepview/VerticalStepViewHelper.kt:176-194 | As written, a press 5 px inside the only row of a view with a 10 px top padding reports nothing; the corrected test reports the row. |
| StepView.DirectionValue | stepView/src/main/java/com/github/smaxlyb/stepview/StepView.kt:351-355 | Each direction carries a code from 0 to 3. |
| StepView.DecodeDirection | stepView/src/main/java/com/github/smaxlyb/stepview/StepView.kt:357-364 | Codes 0, 1 and 2 name the first three directions, and every other code is from-bottom. |
| StepView.DirectionCodeRoundTrip | stepView/src/main/java/com/github/smaxlyb/stepview/StepView.kt:351-366 | Decoding a direction's code gives it back, and every code from 0 to 3 is some direction's code. |
| StepView.OrientationValue | stepView/src/main/java/com/github/smaxlyb/stepview/StepView.kt:368-370 | Each orientation carries the code 0 or 1. |
| StepView.DecodeOrientation | stepView/src/main/java/com/github/smaxlyb/stepview/StepView.kt:373-379 | Code 0 is horizontal and every other code vertical. |
| StepView.OrientationCodeRoundTrip | stepView/src/main/java/com/github/smaxlyb/stepview/StepView.kt:368-381 | Decoding an orientation's code gives it back, and both codes name an orientation. |
| StepView.DefaultDirection | stepView/src/main/java/com/github/smaxlyb/stepview/StepView.kt:326-341 | The fallback direction fits its orientation. |
| StepView.AdjustDirection | stepView/src/main/java/com/github/smaxlyb/stepview/StepView.kt:326-342 | The result always fits the orientation. A fitting direction is kept; any other is replaced by the default. |
| StepView.AdjustIdempotent | stepView/src/main/java/com/github/smaxlyb/stepview/StepView.kt:326-342 | Adjusting twice is adjusting once. |
| StepView.Init | stepView/src/main/java/com/github/smaxlyb/stepview/StepView.kt:64-76 | A new view decodes its attribute codes; it keeps the direction when it fits the orientation and takes the orientation's default otherwise; no nodes, no listener and an empty cache. |
| StepView.SetOrientation | stepView/src/main/java/com/github/smaxlyb/stepview/StepView.kt:151-162 | The same orientation changes nothing. A new one gets a fresh layout cache and an adjusted direction, and nothing else changes. |
| StepView.SetDirection | stepView/src/main/java/com/github/smaxlyb/stepview/StepView.kt:186-195 | A fitting direction is taken; a new unfitting one falls back to the default; nothing else changes. |
| StepView.OrientationRoundTripResetsDirection | stepView/src/main/java/com/github/smaxlyb/stepview/StepView.kt:151-162 | Switching a right-to-left horizontal view to vertical and back leaves it left-to-right. |
| StepView.SetNodes | stepView/src/main/java/com/github/smaxlyb/stepview/StepView.kt:201-207 | The node list becomes the given list and nothing else changes. |
| StepView.ClearAllNodes | stepView/src/main/java/com/github/smaxlyb/stepview/StepView.kt:234-239 | The node list becomes empty and nothing else changes. |
| StepView.AddNode | stepView/src/main/java/com/github/smaxlyb/stepview/StepView.kt:213-219 | The node is inserted before the index, which may equal the size. Any other index throws and changes nothing. |
| StepView.AppendNode | stepView/src/main/java/com/github/smaxlyb/stepview/StepView.kt:214 | The default index appends at the end. |
| StepView.AddNodes | stepView/src/main/java/com/github/smaxlyb/stepview/StepView.kt:225-229 | The list is spliced in before the index, keeping the old nodes on both sides in order; a bad index throws and changes nothing. |
| StepView.RemoveNodeAt | stepView/src/main/java/com/github/smaxlyb/stepview/StepView.kt:245-250 | The node at the index is removed, the others keep their order; a bad index throws and changes nothing. |
| StepView.RemoveUndoesAdd | stepView/src/main/java/com/github/smaxlyb/stepview/StepView.kt:213-250 | Removing a node just inserted at an index restores the view. |
| StepView.ApplyState | stepView/src/main/java/com/github/smaxlyb/stepview/StepView.kt:257-263 | With every index valid, exactly the listed nodes take the state and nothing else changes. Otherwise it throws; each node is then either untouched or differs only in its state. |
| StepView.ThrowKeepsEarlierWrites | stepView/src/main/java/com/github/smaxlyb/stepview/StepView.kt:257-263 | A throwing batch keeps every write before the first bad index. |
| StepView.BatchSetterIsNotAtomic | stepView/src/main/java/com/github/smaxlyb/stepview/StepView.kt:257-263 | Marking 0, 1 and 99 done on three nodes throws, with nodes 0 and 1 already done. |
| StepView.SetStateAt | stepView/src/main/java/com/github/smaxlyb/stepview/StepView.kt:257-315 | The four batch setters throw exactly when some index is invalid. Otherwise exactly the listed nodes take the state and all other fields and nodes are unchanged. |
| StepView.Range | stepView/src/main/java/com/github/smaxlyb/stepview/StepView.kt:271 | `from..to` lists every integer from from to to in order, and is empty when from > to. |
| StepView.SetDoneRange | stepView/src/main/java/com/github/smaxlyb/stepview/StepView.kt:270-276 | An empty range changes nothing. An in-bounds range marks exactly its nodes done. A range reaching outside the list throws. |
| StepView.SetDoneUpTo | stepView/src/main/java/com/github/smaxlyb/stepview/StepView.kt:270-276 | With `from` left at its default 0: a negative end changes nothing, an end inside the list marks exactly the nodes up to it done, and an end past the list throws. |
| StepView.RangePastEndMarksTail | stepView/src/main/java/com/github/smaxlyb/stepview/StepView.kt:270-276 | A range running past the end marks every node from `from` to the end done before it throws. |
| StepView.SetOnNodeClickListener | stepView/src/main/java/com/github/smaxlyb/stepview/StepView.kt:321-324 | Presses are offered to the layout from now on; nothing else changes. |
| StepView.OnSizeChanged | stepView/src/main/java/com/github/smaxlyb/stepview/StepView.kt:118-124 | The content size becomes the new size less the paddings; the paddings and everything else stay. |
| StepView.OnMeasure | stepView/src/main/java/com/github/smaxlyb/stepview/StepView.kt:113-116 | The current layout measures and the width spec passes through. A horizontal view is unchanged; a vertical one leaves a cache that covers exactly its nodes. |
| StepView.OnDraw | stepView/src/main/java/com/github/smaxlyb/stepview/StepView.kt:126-132 | An empty view draws the placeholder message at half the view's width and height. Otherwise a horizontal view draws exactly the horizontal layout's drawing over its nodes, frame and direction, and a vertical view the vertical layout's drawing from its cached extras and title row counts, unless the cache does not match the nodes. |
| StepView.MeasuredVerticalDraws | stepView/src/main/java/com/github/smaxlyb/stepview/StepView.kt:126-132 | After a measure pass, a non-empty vertical view draws one row per node. |
| StepView.Delegates | stepView/src/main/java/com/github/smaxlyb/stepview/StepView.kt:136-141 | A press is offered to the layout only if it is a down action on a non-empty view with a listener, at or right of and below the content's top-left corner and short of its far edges. |
| StepView.OnTouchEvent | stepView/src/main/java/com/github/smaxlyb/stepview/StepView.kt:135-146 | Anything but a delegated press goes to the platform. As written, the only press that indexes outside the list is a horizontal one exactly on the left padding edge; every other horizontal press reports a node, and a reported node is the view's node at that index. |
| StepView.OnTouchEventCorrected | stepView/src/main/java/com/github/smaxlyb/stepview/StepView.kt:135-146 | The same dispatch over the corrected hit tests: a delegated press never indexes outside the list. |
| StepView.HorizontalTouchReportsNode | stepView/src/main/java/com/github/smaxlyb/stepview/StepView.kt:135-146 | With the corrected hit test, every delegated horizontal press reports one of the nodes. |
| StepView.HorizontalTouchOnLeftEdgeThrows | stepView/src/main/java/com/github/smaxlyb/stepview/StepView.kt:135-146 | As written, a delegated horizontal press exactly on the left padding edge indexes outside the node list. |
| StepView.MeasuredVerticalTouch | stepView/src/main/java/com/github/smaxlyb/stepview/StepView.kt:135-146 | After a measure pass, a delegated vertical press is always hit tested; with the corrected test one inside a drawn row, no row having negative height, reports that row's node. |
| StepView.MeasuredVerticalTouchAsWritten | stepView/src/main/java/com/github/smaxlyb/stepview/StepView.kt:135-146 | After a measure pass, as written, a delegated vertical press is hit tested and reports row i's node when its y less the top padding lies inside row i. |
| StepView.OperationsKeepConsistent | stepView/src/main/java/com/github/smaxlyb/stepview/StepView.kt:151-195 | Every configuration or content operation keeps the direction fitting the orientation. |

## Left out

- Android plumbing is not modelled: canvases, paints, colour resources, `invalidate`/`requestLayout`, layer types and drawable tinting calls. A drawing is a value listing what would be drawn, and colours are named by role.
- Text measurement and `breakText` are platform code. They are parameters of the model, constrained only by `Extension.MeasuresSoundly`.
- `dp`/`sp` conversion reads the display density. It becomes the `Style.dp` parameter, and the paddings, radius and gaps arrive in pixels.
- Attribute parsing for paddings, radius and line width is not modelled. The line width affects only the stroke, which is not modelled.
- NumberCircleDrawable is not part of this model, beyond the number and tint it is given. It draws only the first character of the number, so from node 10 on the circle shows a single digit.
- The rule that a failed index should not come after the last done one is only a comment on `setErrorAt`. Neither the code nor the model enforces it.
- MainActivity (the demo app) is not part of this model.
- Floating point is modelled as exact reals. The only IEEE cases modelled are a zero divisor in `ceil(a / b).toInt()` (+infinity saturates, NaN gives 0). Rounding error, and infinities elsewhere, are not modelled.
- String length is counted in characters, not UTF-16 code units.
- Measure specs are given already decoded. The 24-bit size mask and the mode bits of `View.MeasureSpec` are left out.
- Nodes are values. The same mutable StepModel object at two indices (aliasing) cannot be expressed.
- The `runCatching` around each connector is modelled as "a connector only for rows before the last". With a cache that matches the nodes, that is the only exception it can catch.
- A vertical view drawn or touched with a cache that does not cover exactly its current nodes yields `DrawNotMeasured`/`TouchNotMeasured`. The code would read missing cache entries (a platform exception), or sum stale ones.
- Horizontal.HandleEvent: requires a positive content width and a non-empty list. The view calls it only after its filter, which guarantees both.
- Horizontal.DrawContent: states only the length. The per-node content is stated by `Horizontal.ConnectorRule`, `Horizontal.TitleAndIconRule` and `Horizontal.DetailRule`.
- Vertical.DrawContent: states only the length. The per-row content is stated by `Vertical.ConnectorRule`, `Vertical.IconAndTitleColourRule` and `Vertical.DrawnDetailUnderTitle`.
- Vertical.CappedLinesMonotone: holds only for a non-negative width. With a negative width, `ceil(w / avail)` falls as the text widens (`Vertical.NegativeWidthReversesExtraHeight`).
- Vertical.ExtraHeightMonotone: holds only for a non-negative width for text, for the same reason.
- Vertical.HeightMonotone: holds only when the measured width leaves a non-negative width for text, for the same reason.
- StepView.OnDraw: the placeholder is drawn with the shared title paint, whose alignment and colour are whatever the last layout draw left. The model records only the text and its anchor point, not where the text sits around that point.
- Vertical.DrawnDetailUnderTitle: takes the current cache as a premise. The link from a measure pass is a separate lemma, `Vertical.MeasuredTitleLine`, not one composed statement.

## Findings

| source | as written | input that shows it | evidently intended | confidence | as-written member | corrected member |
|---|---|---|---|---|---|---|
| stepView/src/main/java/com/github/smaxlyb/stepview/HorizontalStepViewHelper.kt:129 | The column is `ceil(x / w).toInt() - 1`. Column k then covers (k*w, (k+1)*w], so x = 0 gives -1. | A press exactly on the left padding edge, e.g. event.x == paddingLeft. It passes the content filter, then `mNodes[-1]` (or `mNodes[size]` when mirrored) throws. | The column containing the press, `floor(x / w)`, with columns [k*w, (k+1)*w). Every press the filter admits then names a node. | not executed | Horizontal.AsWrittenLeftEdgeThrows | Horizontal.HitInContentReportsNode |
| stepView/src/main/java/com/github/smaxlyb/stepview/VerticalStepViewHelper.kt:178 | The press's y has the top padding subtracted, but the walk starts at the absolute `paddingTop` (or the bottom edge). The press is therefore compared with rows shifted by the padding. | Top padding 10, a 200 px view, one row: y = 15 lies 5 px inside the drawn row, yet y - 10 = 5 is above the row's top (10), so nothing is reported. | Compare the press's own y with the drawn row spans. | not executed | Vertical.AsWrittenMissesTopOfRow | Vertical.HitInsideDrawnRow |
