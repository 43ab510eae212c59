/**
 * The usage bar of one device block in View (main.go): a gauge thirty cells
 * wide, `█` for the used share and `░` for the rest.
 *
 * The source computes the used cells as `int(float64(p) / 100.0 * 30)`, a
 * conversion that truncates toward zero. The model computes `p * 30 / 100`
 * truncated toward zero on integers: the same count for |p| < 410, which
 * includes every percentage the bar can be drawn for (-3 to 103).
 */
module UsageBar {
  import opened Text

  const BarWidth := 30

  /** Integer division truncating toward zero, as a Go conversion from float
      to int does: the quotient's magnitude is the largest one whose multiple
      does not pass `a`. */
  function TruncDiv(a: int, b: int): (q: int)
    requires b > 0
    ensures a >= 0 ==> q * b <= a < q * b + b
    ensures a < 0 ==> q * b - b < a <= q * b
  {
    if a >= 0 then a / b else -((-a) / b)
  }

  /** The number of `█` cells for a use percentage `p`. */
  function UsedCells(p: int): int
  {
    TruncDiv(p * BarWidth, 100)
  }

  /** The number of `░` cells: the rest of the bar. */
  function AvailCells(p: int): int
  {
    BarWidth - UsedCells(p)
  }

  /** Both cell counts are non-negative, so that `strings.Repeat` does not
      panic when the bar is drawn. */
  predicate Renderable(p: int)
  {
    UsedCells(p) >= 0 && AvailCells(p) >= 0
  }

  /** The bar for a use percentage `p`. */
  function Bar(p: int): (r: string)
    requires Renderable(p)
    ensures |r| == BarWidth
    ensures forall k :: 0 <= k < |r| ==> r[k] == (if k < UsedCells(p) then '█' else '░')
  {
    Repeat('█', UsedCells(p)) + Repeat('░', AvailCells(p))
  }

  // ---------------------------------------------------------------------------

  /** For a percentage from 0 to 100 the used cells are the whole number of
      cells that the used share covers, from 0 to 30. */
  lemma UsedCellsShare(p: int)
    requires 0 <= p <= 100
    ensures 0 <= UsedCells(p) <= BarWidth
    ensures 100 * UsedCells(p) <= BarWidth * p < 100 * UsedCells(p) + 100
  {
  }

  /** The bar can be drawn exactly for percentages from -3 to 103: beyond
      those one of the two counts is negative. */
  lemma RenderableRange(p: int)
    ensures Renderable(p) <==> -3 <= p <= 103
  {
    if p < -3 {
      assert p * BarWidth <= -120;
      assert UsedCells(p) <= -1;
    } else if p > 103 {
      assert p * BarWidth >= 3120;
      assert UsedCells(p) >= 31;
    } else if p < 0 {
      assert -100 < p * BarWidth;
      assert UsedCells(p) == 0;
    } else {
      assert p * BarWidth < 3100;
      assert UsedCells(p) <= 30;
    }
  }

  /** A larger percentage never fills fewer cells. */
  lemma UsedCellsMonotone(p: int, q: int)
    requires p <= q
    ensures UsedCells(p) <= UsedCells(q)
  {
    if p * BarWidth >= 0 || q * BarWidth < 0 {
      assert p * BarWidth <= q * BarWidth;
    }
  }

  /** Sample counts: a negative percentage truncates toward zero rather than
      down, and 150% gives counts that cannot be drawn. */
  lemma UsedCellsSamples()
    ensures UsedCells(0) == 0 && UsedCells(50) == 15 && UsedCells(100) == 30
    ensures UsedCells(33) == 9 && UsedCells(-3) == 0 && UsedCells(-4) == -1
    ensures UsedCells(150) == 45 && AvailCells(150) == -15 && !Renderable(150)
  {
  }
}
