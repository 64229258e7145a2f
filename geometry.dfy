/**
 * Viewport geometry of the horizontal picker: the cell width derived from
 * the container, the section inset that lets the edge cells reach the
 * centre, and the "centreline band" a cell's midpoint must fall into to be
 * snapped to. `CGFloat` is modelled by `real`; only halving, addition and
 * ordering matter.
 */
module PickerGeometry {

  /** Cell width set up at layout time: a quarter of the container width. */
  function CellWidthFor(viewWidth: real): (w: real)
    ensures viewWidth >= 0.0 ==> 0.0 <= w <= viewWidth
    ensures 4.0 * w == viewWidth
  {
    viewWidth / 4.0
  }

  /** Left and right inset of the single section. */
  function SectionInset(viewWidth: real, cellWidth: real): real
  {
    viewWidth / 2.0 - cellWidth / 2.0
  }

  /**
   * Width of the scrollable content: both insets plus `n` cells of
   * `cellWidth` with zero line and inter-item spacing.
   */
  function ContentWidth(viewWidth: real, cellWidth: real, n: nat): real
  {
    2.0 * SectionInset(viewWidth, cellWidth) + (n as real) * cellWidth
  }

  /** Midpoint of cell `i` in content coordinates. */
  function CellMidInContent(viewWidth: real, cellWidth: real, i: int): real
  {
    SectionInset(viewWidth, cellWidth) + (i as real) * cellWidth + cellWidth / 2.0
  }

  /**
   * The content offset at which cell `i`'s midpoint lies on the viewport's
   * midline (the collection view spans the full container width).
   */
  function CentringOffset(viewWidth: real, cellWidth: real, i: int): real
  {
    CellMidInContent(viewWidth, cellWidth, i) - viewWidth / 2.0
  }

  /** Largest content offset the scroll view can reach without bouncing. */
  function MaxOffset(viewWidth: real, cellWidth: real, n: nat): real
  {
    ContentWidth(viewWidth, cellWidth, n) - viewWidth
  }

  lemma MulNonNegative(a: real, b: real)
    requires 0.0 <= a && 0.0 <= b
    ensures 0.0 <= a * b
  {
  }

  /**
   * With any cell width, cell `i` is centred at content offset `i` cell
   * widths: the inset plus half a cell is exactly half the viewport.
   */
  lemma CentringOffsetIsRowTimesCellWidth(viewWidth: real, cellWidth: real, i: int)
    ensures SectionInset(viewWidth, cellWidth) + cellWidth / 2.0 == viewWidth / 2.0
    ensures CentringOffset(viewWidth, cellWidth, i) == (i as real) * cellWidth
  {
  }

  /**
   * Every row from the first to the last has a centring offset inside the
   * scrollable range: the first at offset 0, the last at the maximum offset.
   */
  lemma {:induction false} RowCanBeCentred(viewWidth: real, cellWidth: real, n: nat, i: int)
    requires 0.0 <= cellWidth
    requires 0 <= i < n
    ensures 0.0 <= CentringOffset(viewWidth, cellWidth, i) <= MaxOffset(viewWidth, cellWidth, n)
    ensures i == 0 ==> CentringOffset(viewWidth, cellWidth, i) == 0.0
    ensures i == n - 1 ==> CentringOffset(viewWidth, cellWidth, i) == MaxOffset(viewWidth, cellWidth, n)
  {
    CentringOffsetIsRowTimesCellWidth(viewWidth, cellWidth, i);
    assert MaxOffset(viewWidth, cellWidth, n) == ((n - 1) as real) * cellWidth;
    MulNonNegative(i as real, cellWidth);
    MulNonNegative((n - 1 - i) as real, cellWidth);
    assert ((n - 1) as real) * cellWidth == (i as real) * cellWidth + ((n - 1 - i) as real) * cellWidth;
  }

  /** With the source's quarter-width cells the inset is never negative. */
  lemma QuarterWidthInsetIsNonNegative(viewWidth: real)
    requires 0.0 <= viewWidth
    ensures 0.0 <= SectionInset(viewWidth, CellWidthFor(viewWidth))
    ensures SectionInset(viewWidth, CellWidthFor(viewWidth)) == 3.0 * viewWidth / 8.0
  {
  }

  /**
   * The centreline band test: a midpoint qualifies when it lies strictly
   * between `viewMidX - width/2` and `viewMidX + width/2`.
   */
  predicate InBand(viewMidX: real, width: real, midX: real)
  {
    var topBoundary := viewMidX + width / 2.0;
    var bottomBoundary := viewMidX - width / 2.0;
    topBoundary > midX && midX > bottomBoundary
  }

  function Distance(a: real, b: real): (d: real)
    ensures 0.0 <= d && (d == a - b || d == b - a)
  {
    if a >= b then a - b else b - a
  }

  /**
   * Independent reading of the band: a midpoint qualifies exactly when it
   * is less than half a width from the viewport midline. So a midpoint on
   * either boundary does not qualify, a midpoint on the midline qualifies
   * whenever the width is positive, and nothing qualifies for a width <= 0.
   */
  lemma InBandIffCloserThanHalfWidth(viewMidX: real, width: real, midX: real)
    ensures InBand(viewMidX, width, midX) <==> Distance(midX, viewMidX) < width / 2.0
    ensures !InBand(viewMidX, width, viewMidX + width / 2.0)
    ensures !InBand(viewMidX, width, viewMidX - width / 2.0)
    ensures InBand(viewMidX, width, viewMidX) <==> 0.0 < width
    ensures width <= 0.0 ==> !InBand(viewMidX, width, midX)
  {
  }

  /**
   * Two midpoints inside the same band are less than one width apart; cells
   * of that width laid side by side never share the band.
   */
  lemma {:induction false} BandHoldsAtMostOneOfAdjacentCells(viewMidX: real, width: real, a: real, b: real)
    requires InBand(viewMidX, width, a) && InBand(viewMidX, width, b)
    ensures Distance(a, b) < width
  {
    InBandIffCloserThanHalfWidth(viewMidX, width, a);
    InBandIffCloserThanHalfWidth(viewMidX, width, b);
  }
}
