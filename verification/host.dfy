/**
 What the layouts receive from the host view: measure specs and size
 resolution, the view's frame (paddings and final size), and the style
 (density, paddings, icon radius, paints).
 */
module Host {
  import opened Numeric
  import opened Extension

  /** A parent's constraint on one dimension, as `View.MeasureSpec` encodes it. */
  datatype MeasureSpec = Exactly(size: int) | AtMost(size: int) | Unspecified(size: int)

  /** `View.resolveSize`: the desired size, reconciled with the parent's constraint. */
  function ResolveSize(desired: int, spec: MeasureSpec): (r: int)
    ensures spec.Exactly? ==> r == spec.size
    ensures spec.AtMost? ==> r <= spec.size && r <= desired && (r == desired || r == spec.size)
    ensures spec.Unspecified? ==> r == desired
  {
    match spec
    case Exactly(s) => s
    case AtMost(s) => if s < desired then s else desired
    case Unspecified(_) => desired
  }

  /** A larger desired size never resolves to a smaller one. */
  lemma ResolveSizeMonotone(d: int, d': int, spec: MeasureSpec)
    requires d <= d'
    ensures ResolveSize(d, spec) <= ResolveSize(d', spec)
  {
  }

  /** The two dimensions a layout reports to `setMeasuredDimension`. */
  datatype Measured = Measured(widthSpec: MeasureSpec, height: int)

  /** Paddings and the size the host settled on (`onSizeChanged`). */
  datatype Frame = Frame(paddingLeft: int, paddingTop: int, paddingRight: int, paddingBottom: int,
                         totalW: real, totalH: real)
  {
    /** Width inside the horizontal paddings. */
    function RemainW(): real {
      totalW - paddingLeft as real - paddingRight as real
    }

    /** Height inside the vertical paddings. */
    function RemainH(): real {
      totalH - paddingTop as real - paddingBottom as real
    }
  }

  /** `RectF.contains`: a non-empty rectangle, left and top edges inclusive, right and bottom exclusive. */
  predicate RectContains(left: real, top: real, right: real, bottom: real, x: real, y: real) {
    left < right && top < bottom && left <= x < right && top <= y < bottom
  }

  /** The point lies in the content rectangle inside the paddings. */
  predicate InContent(f: Frame, x: real, y: real) {
    RectContains(f.paddingLeft as real, f.paddingTop as real,
                 f.totalW - f.paddingRight as real, f.totalH - f.paddingBottom as real, x, y)
  }

  /** A point in the content rectangle lies in [0, RemainW) x [0, RemainH) once the paddings are taken off. */
  lemma InContentBounds(f: Frame, x: real, y: real)
    requires InContent(f, x, y)
    ensures 0.0 < f.RemainW() && 0.0 <= x - f.paddingLeft as real < f.RemainW()
    ensures 0.0 < f.RemainH() && 0.0 <= y - f.paddingTop as real < f.RemainH()
  {
  }

  /**
   Sizes and paints the layouts read from the view: the density (`dp`),
   the line-to-icon and node paddings, the icon radius, the icon-to-text
   gap, and the title and detail paints.
   */
  datatype Style = Style(dp: real, line2IconPadding: real, nodePadding: real, iconRadius: real,
                         icon2TextPadding: real, titlePaint: Paint, detailPaint: Paint)

  ghost predicate ValidStyle(s: Style) {
    0.0 < s.dp && MeasuresSoundly(s.titlePaint) && MeasuresSoundly(s.detailPaint)
  }
}
