/**
 * `useResponsiveItemWidth` of React/responsiveGridLayout/useResponsiveItemWidth.ts:
 * how many items of at least `minItemWidth` fit in a row, and the width
 * each then gets. The hook is a class whose `itemWidth` field is the state
 * `setItemWidth` writes; the resize detector that calls `onResize` is not
 * modelled. Widths are exact reals; the results of a division by zero are
 * written out as the IEEE values JavaScript gives, with the one signed zero
 * the computation can produce.
 */
module ResponsiveItemWidth {
  import opened Wrappers

  /** A JavaScript number as far as this computation can produce one. */
  datatype JsWidth = Finite(value: real) | PositiveInfinity | NegativeInfinity | NaN

  /** `Math.floor((containerWidth + gap) / (minItemWidth + gap))` for a non-zero divisor. */
  function ItemsPerRow(containerWidth: real, minItemWidth: real, gap: real): int
    requires minItemWidth + gap != 0.0
  {
    ((containerWidth + gap) / (minItemWidth + gap)).Floor
  }

  /**
   * `newWidth`. With `minItemWidth + gap == 0` the row count is infinite or
   * NaN and so is everything computed from it, which ends in NaN. With no
   * item in a row the division by zero gives an infinity or NaN by the sign
   * of the dividend, flipped when the row count is -0: `Math.floor` of
   * `+0 / d` for a negative `d`. `k * gap` is a zero then, so the dividend
   * is `containerWidth`.
   */
  function NewWidth(containerWidth: real, minItemWidth: real, gap: real): JsWidth
  {
    if minItemWidth + gap == 0.0 then NaN
    else
      var itemsPerRow := ItemsPerRow(containerWidth, minItemWidth, gap);
      var remaining := containerWidth - itemsPerRow as real * gap;
      var negativeZero := containerWidth + gap == 0.0 && minItemWidth + gap < 0.0;
      if itemsPerRow != 0 then Finite(remaining / itemsPerRow as real)
      else if remaining == 0.0 then NaN
      else if (remaining > 0.0) != negativeZero then PositiveInfinity
      else NegativeInfinity
  }

  /** `width || containerRef.current.offsetWidth`: an absent or zero width falls back. */
  function ContainerWidth(width: Option<real>, offsetWidth: real): (w: real)
    ensures width.Some? && width.value != 0.0 ==> w == width.value
    ensures width.None? || width.value == 0.0 ==> w == offsetWidth
  {
    if width.Some? && width.value != 0.0 then width.value else offsetWidth
  }

  lemma MultiplyBelow(a: real, b: real, d: real)
    requires d > 0.0 && a <= b
    ensures a * d <= b * d
  {
  }

  lemma MultiplyStrictlyBelow(a: real, b: real, d: real)
    requires d > 0.0 && a < b
    ensures a * d < b * d
  {
  }

  /** The row count is the largest k with k items and k gaps fitting in the width plus one gap. */
  lemma ItemsPerRowIsFloor(containerWidth: real, minItemWidth: real, gap: real)
    requires minItemWidth + gap > 0.0
    ensures var k := ItemsPerRow(containerWidth, minItemWidth, gap);
      k as real * (minItemWidth + gap) <= containerWidth + gap < (k + 1) as real * (minItemWidth + gap)
  {
    var d := minItemWidth + gap;
    var x := (containerWidth + gap) / d;
    var k := ItemsPerRow(containerWidth, minItemWidth, gap);
    assert k as real <= x < (k + 1) as real;
    MultiplyBelow(k as real, x, d);
    MultiplyStrictlyBelow(x, (k + 1) as real, d);
    assert x * d == containerWidth + gap;
    assert containerWidth + gap < (k + 1) as real * d;
  }

  /** The items and one gap per item fill the width exactly: k gaps are taken off, not k - 1. */
  lemma WidthFillsRow(containerWidth: real, minItemWidth: real, gap: real)
    requires minItemWidth + gap != 0.0 && ItemsPerRow(containerWidth, minItemWidth, gap) != 0
    ensures var k := ItemsPerRow(containerWidth, minItemWidth, gap) as real;
      var w := NewWidth(containerWidth, minItemWidth, gap);
      w.Finite? && k * w.value + k * gap == containerWidth
  {
  }

  /** Because of that, the width can fall below the minimum: 100 wide, minimum 45, gap 10 gives 40. */
  lemma WidthBelowMinimumExample()
    ensures ItemsPerRow(100.0, 45.0, 10.0) == 2
    ensures NewWidth(100.0, 45.0, 10.0) == Finite(40.0)
  {
    assert (100.0 + 10.0) / (45.0 + 10.0) == 2.0;
  }

  /** A container narrower than one item gets no item per row; the width is then infinite. */
  lemma NarrowContainer(containerWidth: real, minItemWidth: real, gap: real)
    requires minItemWidth + gap > 0.0 && 0.0 <= containerWidth + gap < minItemWidth + gap
    ensures ItemsPerRow(containerWidth, minItemWidth, gap) == 0
    ensures containerWidth > 0.0 ==> NewWidth(containerWidth, minItemWidth, gap) == PositiveInfinity
    ensures containerWidth == 0.0 ==> NewWidth(containerWidth, minItemWidth, gap) == NaN
  {
    var d := minItemWidth + gap;
    var x := (containerWidth + gap) / d;
    assert 0.0 <= x by {
      assert x * d == containerWidth + gap;
      if x < 0.0 {
        MultiplyStrictlyBelow(x, 0.0, d);
      }
    }
    assert x < 1.0 by {
      assert x * d == containerWidth + gap;
      if x >= 1.0 {
        MultiplyBelow(1.0, x, d);
      }
    }
  }

  /**
   * A negative gap larger than the minimum width, with the gap cancelling
   * the container width, makes the row count -0, and the width -Infinity.
   */
  lemma NegativeZeroRowExample()
    ensures ItemsPerRow(5.0, 1.0, -5.0) == 0
    ensures NewWidth(5.0, 1.0, -5.0) == NegativeInfinity
  {
    assert (5.0 + -5.0) / (1.0 + -5.0) == 0.0;
  }

  class ResponsiveItemWidth {
    const minItemWidth: real
    const gap: real
    var itemWidth: JsWidth

    /** The props, with `gap` defaulting to 0, and the first state `minItemWidth`. */
    constructor (minItemWidth: real, gap: Option<real>)
      ensures this.minItemWidth == minItemWidth
      ensures this.gap == (if gap.Some? then gap.value else 0.0)
      ensures itemWidth == Finite(minItemWidth)
    {
      this.minItemWidth := minItemWidth;
      this.gap := if gap.Some? then gap.value else 0.0;
      itemWidth := Finite(minItemWidth);
    }

    /**
     * `onResize`. `container` is `containerRef.current` by its
     * `offsetWidth`, or `None` for `null`, when nothing happens.
     */
    method OnResize(width: Option<real>, container: Option<real>)
      modifies this
      ensures container.None? ==> itemWidth == old(itemWidth)
      ensures container.Some? ==> itemWidth == NewWidth(ContainerWidth(width, container.value), minItemWidth, gap)
    {
      if container.Some? {
        var containerWidth := if width.Some? && width.value != 0.0 then width.value else container.value;
        itemWidth := NewWidth(containerWidth, minItemWidth, gap);
      }
    }
  }
}
