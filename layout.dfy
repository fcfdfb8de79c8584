/**
 * The crop arithmetic of `crop_to_character_names` and of the title band in
 * `extract_script_meta_data`, on a page already scaled to A4 height.
 */
module Layout {
  import opened Wrappers

  const A4HeightPixels: int := 2970
  const A4WidthPixels: int := 2100

  /** Narrower pages cannot be a full script page. */
  const MinimumWidth: int := 1500

  /** A crop `image[yMin:yMax, xMin:xMax]`. */
  datatype Bounds = Bounds(yMin: int, yMax: int, xMin: int, xMax: int)

  datatype LayoutError = TooNarrow(width: int)

  /** `int(d * 0.5)`: half of `d`, truncated toward zero (unlike Dafny's `/`, which floors). */
  function HalfTowardZero(d: int): (m: int)
    ensures 0 <= d ==> 0 <= d - 2 * m <= 1
    ensures d < 0 ==> -1 <= d - 2 * m <= 0
  {
    if d >= 0 then d / 2 else -((-d) / 2)
  }

  /**
   * The name column: A4 coordinates (180..414, 140..2925), moved right by
   * half the amount by which the page is wider than A4.
   */
  function CharacterNameBounds(width: int): (r: Result<Bounds, LayoutError>)
    ensures r.Err? <==> width < MinimumWidth
    ensures r.Err? ==> r.error == TooNarrow(width)
    ensures r.Ok? ==> r.value.yMin == 140 && r.value.yMax == 2925
    ensures r.Ok? ==> r.value.xMax - r.value.xMin == 234
    ensures r.Ok? ==> r.value.xMin == 180 + HalfTowardZero(width - A4WidthPixels)
  {
    if width < MinimumWidth then Err(TooNarrow(width))
    else
      var leftMarginSize := HalfTowardZero(width - A4WidthPixels);
      Ok(Bounds(140, 2925, 180 + leftMarginSize, 414 + leftMarginSize))
  }

  /** The title band `script_image[50:100, 0:width]`. */
  function TitleBounds(width: int): (b: Bounds)
    ensures b.yMin == 50 && b.yMax == 100
    ensures b.xMin == 0 && b.xMax == width
  {
    Bounds(50, 100, 0, width)
  }

  /** A page 300 pixels wider than A4 gets its column 150 pixels to the right. */
  lemma WiderPageShiftsColumn()
    ensures CharacterNameBounds(2400) == Ok(Bounds(140, 2925, 330, 564))
    ensures CharacterNameBounds(A4WidthPixels) == Ok(Bounds(140, 2925, 180, 414))
  {
  }

  /** The margin rounds toward zero on both sides of A4 width: one pixel narrower does not move the column. */
  lemma MarginTruncatesTowardZero()
    ensures CharacterNameBounds(A4WidthPixels - 1) == Ok(Bounds(140, 2925, 180, 414))
    ensures CharacterNameBounds(A4WidthPixels + 1) == Ok(Bounds(140, 2925, 180, 414))
    ensures CharacterNameBounds(A4WidthPixels - 3) == Ok(Bounds(140, 2925, 179, 413))
  {
  }

  /**
   * The shift assumes centred content: the column keeps its distance to
   * the left edge plus half the extra width, and to the right edge its A4
   * distance plus the other half, up to one pixel of rounding.
   */
  lemma ColumnStaysCentred(width: int)
    requires width >= MinimumWidth
    ensures var b := CharacterNameBounds(width).value;
      var left, right := b.xMin - 180, (width - b.xMax) - (A4WidthPixels - 414);
      left + right == width - A4WidthPixels && -1 <= left - right <= 1
  {
  }

  /** Widths from 1500 to 1738 put the left bound below zero. */
  lemma NarrowPagesGiveNegativeLeftBound(width: int)
    requires MinimumWidth <= width <= 1738
    ensures CharacterNameBounds(width).value.xMin < 0
  {
  }
}
