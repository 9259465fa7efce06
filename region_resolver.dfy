/** Classifying a touch on the editor: which horizontal region (line
    numbers, side icons, divider margin, divider, text) the x coordinate
    falls in, and whether the y coordinate lies within the scrollable
    height. Coordinates are real numbers; the measured widths that the
    editor computes are inputs. */
module RegionResolver {

  const REGION_OUTBOUND: int := 0
  const REGION_LINE_NUMBER: int := 1
  const REGION_SIDE_ICON: int := 2
  const REGION_DIVIDER_MARGIN: int := 3
  const REGION_DIVIDER: int := 4
  const REGION_TEXT: int := 5

  const IN_BOUND: int := 0
  const OUT_BOUND: int := 1

  /** What the classification reads from the editor. `lineNumberWidth` and
      `textOffset` are the measured line-number width and text start. */
  datatype Layout = Layout(
    lineNumberPinned: bool,
    wordwrap: bool,
    offsetX: int,
    offsetY: int,
    lineNumberWidth: real,
    hasSideHintIcons: bool,
    rowHeight: int,
    dividerMarginLeft: real,
    dividerMarginRight: real,
    dividerWidth: real,
    textOffset: real,
    scrollMaxX: int,
    scrollMaxY: int,
    width: int,
    height: int)

  /** The region and the bound, the two halves of the packed result. */
  datatype Touch = Touch(region: int, bound: int)

  /** Membership in the closed range `lo..hi` (empty when `lo > hi`). */
  predicate In(x: real, lo: real, hi: real)
  {
    lo <= x && x <= hi
  }

  /** The gutter stays put when line numbers are pinned and lines do not
      wrap; otherwise it scrolls with the text. */
  function GutterX(m: Layout, rawX: real): real
  {
    if m.lineNumberPinned && !m.wordwrap then rawX else rawX + m.offsetX as real
  }

  function ContentX(m: Layout, rawX: real): real
  {
    rawX + m.offsetX as real
  }

  function IconWidth(m: Layout): real
  {
    if m.hasSideHintIcons then m.rowHeight as real else 0.0
  }

  // The left edges of the gutter parts, left to right.
  function IconStart(m: Layout): real { m.lineNumberWidth }
  function MarginStart(m: Layout): real { m.lineNumberWidth + IconWidth(m) }
  function DividerStart(m: Layout): real { MarginStart(m) + m.dividerMarginLeft }
  function DividerEnd(m: Layout): real { DividerStart(m) + m.dividerWidth }
  function GutterEnd(m: Layout): real { DividerEnd(m) + m.dividerMarginRight }

  /** Every measured gutter width is non-negative. */
  predicate LayoutOk(m: Layout)
  {
    m.lineNumberWidth >= 0.0 && IconWidth(m) >= 0.0 &&
    m.dividerMarginLeft >= 0.0 && m.dividerMarginRight >= 0.0 && m.dividerWidth >= 0.0
  }

  predicate IsGutter(region: int)
  {
    REGION_LINE_NUMBER <= region <= REGION_DIVIDER
  }

  /** The text test: inside the scrollable text, or, with word wrap, inside
      the visible width. */
  predicate InText(m: Layout, rawX: real)
  {
    var cx := ContentX(m, rawX);
    In(cx, m.textOffset, (m.scrollMaxX + m.width) as real) ||
    (m.wordwrap && In(cx, 0.0, m.width as real))
  }

  /** The ordered cascade: the first range that contains the coordinate
      wins, so a shared endpoint belongs to the range on its left. With
      non-negative widths the gutter parts are the intervals below. */
  function Region(m: Layout, rawX: real): (r: int)
    ensures REGION_OUTBOUND <= r <= REGION_TEXT
    ensures GutterX(m, rawX) < 0.0 ==> r == REGION_OUTBOUND
    ensures r == REGION_LINE_NUMBER <==> In(GutterX(m, rawX), 0.0, m.lineNumberWidth)
    ensures LayoutOk(m) ==>
      (r == REGION_SIDE_ICON <==> IconStart(m) < GutterX(m, rawX) <= MarginStart(m))
    ensures LayoutOk(m) ==>
      (r == REGION_DIVIDER_MARGIN <==>
        MarginStart(m) < GutterX(m, rawX) &&
        (GutterX(m, rawX) <= DividerStart(m) ||
         DividerEnd(m) <= GutterX(m, rawX) <= GutterEnd(m)))
    ensures LayoutOk(m) ==>
      (r == REGION_DIVIDER <==> DividerStart(m) < GutterX(m, rawX) < DividerEnd(m))
    ensures LayoutOk(m) ==>
      (IsGutter(r) <==> In(GutterX(m, rawX), 0.0, GutterEnd(m)))
    ensures LayoutOk(m) ==>
      (r == REGION_TEXT <==> GutterX(m, rawX) > GutterEnd(m) && InText(m, rawX))
  {
    var gx := GutterX(m, rawX);
    var lnw := m.lineNumberWidth;
    var icon := IconWidth(m);
    if gx < 0.0 then REGION_OUTBOUND
    else if In(gx, 0.0, lnw) then REGION_LINE_NUMBER
    else if In(gx, lnw, lnw + icon) then REGION_SIDE_ICON
    else if In(gx, lnw + icon, lnw + icon + m.dividerMarginLeft) ||
            In(gx, lnw + icon + m.dividerMarginLeft + m.dividerWidth,
                   lnw + icon + m.dividerMarginLeft + m.dividerMarginRight + m.dividerWidth)
    then REGION_DIVIDER_MARGIN
    else if In(gx, lnw + icon + m.dividerMarginLeft,
                   lnw + icon + m.dividerMarginLeft + m.dividerWidth)
    then REGION_DIVIDER
    else if In(ContentX(m, rawX), m.textOffset, (m.scrollMaxX + m.width) as real) then REGION_TEXT
    else if m.wordwrap && In(ContentX(m, rawX), 0.0, m.width as real) then REGION_TEXT
    else REGION_OUTBOUND
  }

  /** Kotlin's `Int` division by two, which truncates toward zero. */
  function HalfOf(h: int): (r: int)
    ensures h >= 0 ==> 0 <= 2 * r <= h < 2 * r + 2
    ensures h < 0 ==> 2 * r - 2 < h <= 2 * r <= 0
  {
    if h >= 0 then h / 2 else -((-h) / 2)
  }

  /** In bound exactly when the scrolled y lies in `0..scrollMaxY + height/2`. */
  function Bound(m: Layout, rawY: real): (b: int)
    ensures b == IN_BOUND || b == OUT_BOUND
    ensures b == IN_BOUND <==>
      In(rawY + m.offsetY as real, 0.0, (m.scrollMaxY + HalfOf(m.height)) as real)
  {
    var y := rawY + m.offsetY as real;
    if y >= 0.0 && y <= (m.scrollMaxY + HalfOf(m.height)) as real then IN_BOUND else OUT_BOUND
  }

  function ResolveTouchRegion(m: Layout, rawX: real, rawY: real): (t: Touch)
    ensures REGION_OUTBOUND <= t.region <= REGION_TEXT
    ensures t.bound == IN_BOUND || t.bound == OUT_BOUND
  {
    Touch(Region(m, rawX), Bound(m, rawY))
  }

  /** With pinned line numbers and no word wrap, horizontal scrolling never
      moves a touch into, out of, or between the gutter regions. */
  lemma PinnedGutterIgnoresScroll(m: Layout, rawX: real, otherOffsetX: int)
    requires m.lineNumberPinned && !m.wordwrap
    ensures var moved := Region(m.(offsetX := otherOffsetX), rawX);
      (IsGutter(Region(m, rawX)) <==> IsGutter(moved)) &&
      (IsGutter(moved) ==> moved == Region(m, rawX))
  {
  }

  /** Otherwise the gutter scrolls with the text: only `rawX + offsetX`
      matters. */
  lemma UnpinnedGutterScrollsWithText(m: Layout, rawX: real, shift: int)
    requires !m.lineNumberPinned || m.wordwrap
    ensures Region(m.(offsetX := m.offsetX + shift), rawX - shift as real) == Region(m, rawX)
  {
    assert GutterX(m.(offsetX := m.offsetX + shift), rawX - shift as real) == GutterX(m, rawX);
    assert ContentX(m.(offsetX := m.offsetX + shift), rawX - shift as real) == ContentX(m, rawX);
  }
}
