/**
 * Spacing of the event-type grid (`GridSpacingItemDecoration.getItemOffsets`): the left
 * and right insets of an item from its column, in integer pixels, so that the gaps
 * between neighbouring columns add up to the spacing.
 */
module GridSpacing {
  import opened JavaLang

  /** The `Rect` the insets are written into. */
  class Rect {
    var left: int
    var top: int
    var right: int
    var bottom: int

    constructor()
      ensures left == 0 && top == 0 && right == 0 && bottom == 0
    {
      left, top, right, bottom := 0, 0, 0, 0;
    }
  }

  /** The column of an adapter position. */
  function Column(position: int, spanCount: int): (c: int)
    requires spanCount != 0
    ensures position >= 0 && spanCount > 0 ==> 0 <= c < spanCount
  {
    JavaRem(position, spanCount)
  }

  /** The left inset of column `c`. */
  function LeftInset(c: int, spanCount: int, spacing: int, includeEdge: bool): int
    requires spanCount != 0
  {
    if includeEdge then spacing - JavaDiv(c * spacing, spanCount)
    else JavaDiv(c * spacing, spanCount)
  }

  /** The right inset of column `c`. */
  function RightInset(c: int, spanCount: int, spacing: int, includeEdge: bool): int
    requires spanCount != 0
  {
    if includeEdge then JavaDiv((c + 1) * spacing, spanCount)
    else spacing - JavaDiv((c + 1) * spacing, spanCount)
  }

  class GridSpacingItemDecoration {
    const spanCount: int
    const spacing: int
    const includeEdge: bool

    constructor(spanCount: int, spacing: int, includeEdge: bool)
      ensures this.spanCount == spanCount && this.spacing == spacing && this.includeEdge == includeEdge
    {
      this.spanCount := spanCount;
      this.spacing := spacing;
      this.includeEdge := includeEdge;
    }

    /** `getItemOffsets`: write the left and right insets of the item's column; top and bottom are untouched. */
    method GetItemOffsets(outRect: Rect, position: int)
      requires spanCount != 0
      modifies outRect
      ensures outRect.left == LeftInset(Column(position, spanCount), spanCount, spacing, includeEdge)
      ensures outRect.right == RightInset(Column(position, spanCount), spanCount, spacing, includeEdge)
      ensures outRect.top == old(outRect.top) && outRect.bottom == old(outRect.bottom)
    {
      var column := JavaRem(position, spanCount);
      if includeEdge {
        outRect.left := spacing - JavaDiv(column * spacing, spanCount);
        outRect.right := JavaDiv((column + 1) * spacing, spanCount);
      } else {
        outRect.left := JavaDiv(column * spacing, spanCount);
        outRect.right := spacing - JavaDiv((column + 1) * spacing, spanCount);
      }
    }
  }

  /** The right inset of one column and the left inset of the next always add up to the spacing. */
  lemma NeighboursShareSpacing(c: int, spanCount: int, spacing: int, includeEdge: bool)
    requires spanCount != 0
    ensures RightInset(c, spanCount, spacing, includeEdge) + LeftInset(c + 1, spanCount, spacing, includeEdge) == spacing
  {
  }

  /**
   * The outer edges: without edges the first column has no left inset and the last no
   * right inset; with edges both get the full spacing.
   */
  lemma OuterEdges(spanCount: int, spacing: int)
    requires spanCount > 0
    ensures LeftInset(0, spanCount, spacing, false) == 0
    ensures RightInset(spanCount - 1, spanCount, spacing, false) == 0
    ensures LeftInset(0, spanCount, spacing, true) == spacing
    ensures RightInset(spanCount - 1, spanCount, spacing, true) == spacing
  {
    DivExact(spacing, spanCount);
  }

  /** `(n * s) / n == s` with Java's truncating division. */
  lemma DivExact(s: int, n: int)
    requires n > 0
    ensures JavaDiv(n * s, n) == s
  {
    if s >= 0 {
      MulDivCancel(s, n);
    } else {
      assert -(n * s) == n * (-s);
      MulDivCancel(-s, n);
    }
  }

  lemma MulDivCancel(k: int, n: int)
    requires n > 0 && k >= 0
    ensures (n * k) / n == k
  {
    var d, r := (n * k) / n, (n * k) % n;
    assert n * k == d * n + r && 0 <= r < n;
    assert n * (k - d) == r;
    MulSign(n, k - d);
  }

  lemma MulSign(n: int, j: int)
    requires n > 0
    ensures j >= 1 ==> n * j >= n
    ensures j <= -1 ==> n * j <= -n
  {
  }

  /**
   * Without edges and with non-negative spacing, both insets of a column lie between
   * zero and the spacing.
   */
  lemma InsetsWithinSpacing(c: int, spanCount: int, spacing: int)
    requires spanCount > 0 && spacing >= 0 && 0 <= c < spanCount
    ensures 0 <= LeftInset(c, spanCount, spacing, false) <= spacing
    ensures 0 <= RightInset(c, spanCount, spacing, false) <= spacing
  {
    MulDivBounds(c, spanCount, spacing);
    MulDivBounds(c + 1, spanCount, spacing);
  }

  lemma MulDivBounds(c: int, n: int, s: int)
    requires n > 0 && s >= 0 && 0 <= c <= n
    ensures 0 <= (c * s) / n <= s
  {
    MulNonNegative(c, s);
    MulNonNegative(n - c, s);
    assert n * s - c * s == (n - c) * s;
    var q, r := (c * s) / n, (c * s) % n;
    assert c * s == n * q + r && 0 <= r < n;
    MulSign(n, q - s);
    assert n * (q - s) == n * q - n * s;
  }

  lemma MulNonNegative(x: int, y: int)
    requires x >= 0 && y >= 0
    ensures x * y >= 0
  {
  }
}
