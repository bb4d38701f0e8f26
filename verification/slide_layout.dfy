/**
 * The slide layout of PresentationCreator2: below the title bar a slide
 * either stacks its text over a row of images (one to three images) or puts
 * the text in a left column and the images in a right one (four or more, or
 * none). addImagesThreeColumns then places at most three 16:9 images in one
 * row, centred in the images area.
 *
 * Java's double arithmetic is modelled with real numbers.
 */
module SlideLayout {
  import opened Wrappers
  import opened JavaText

  const SLIDE_W: real := 1920.0
  const SLIDE_H: real := 1080.0
  const MARGIN: real := 0.0
  const TITLE_H: real := 124.0
  const GAP: real := 40.0
  const TEXT_WIDTH_RATIO_WITH_IMAGES: real := 0.40
  const TEXT_WIDTH_RATIO_NO_IMAGES: real := 0.92
  const STACK_IMAGES_IF_LESS_OR_EQ_2: bool := true
  const FEW_IMG_TEXT_HEIGHT_RATIO: real := 0.22
  const CONTENT_SIDE_PADDING: real := 32.0

  /** addImagesThreeColumns: at most this many images, this far apart, this share of the area's height. */
  const MAX_COLUMNS: nat := 3
  const IMG_GAP: real := 20.0
  const IMG_HEIGHT_RATIO: real := 0.45

  /** A Rectangle2D.Double. */
  datatype Rect = Rect(x: real, y: real, w: real, h: real)
  {
    function Right(): real { x + w }
    function Bottom(): real { y + h }
  }

  /** inner lies within outer, edges included. */
  predicate Inside(inner: Rect, outer: Rect)
  {
    outer.x <= inner.x && inner.Right() <= outer.Right() && outer.y <= inner.y && inner.Bottom() <= outer.Bottom()
  }

  /** The two rectangles do not overlap (touching edges allowed). */
  predicate Disjoint(a: Rect, b: Rect)
  {
    a.Right() <= b.x || b.Right() <= a.x || a.Bottom() <= b.y || b.Bottom() <= a.y
  }

  const SLIDE: Rect := Rect(0.0, 0.0, SLIDE_W, SLIDE_H)

  /** The width between the margins, the title bar and the content band below it. */
  const WIDTH: real := SLIDE_W - 2.0 * MARGIN
  const TITLE_BOX: Rect := Rect(MARGIN, MARGIN, WIDTH, TITLE_H)
  const CONTENT_TOP: real := MARGIN + TITLE_H + GAP * 2.0
  const CONTENT_HEIGHT: real := SLIDE_H - CONTENT_TOP - MARGIN

  /** Where a slide's body text and images go; the text box is unused when the slide has no text. */
  datatype Layout = Layout(stacked: bool, text: Rect, imagesArea: Option<Rect>)

  /** The slide loop of main: the stacked or column layout of one slide. */
  function PlanLayout(imageCount: nat, hasText: bool): (l: Layout)
    ensures l.stacked <==> 1 <= imageCount <= MAX_COLUMNS
    ensures l.imagesArea.Some? <==> imageCount > 0
    ensures l.stacked && !hasText ==> l.text == Rect(0.0, 0.0, 0.0, 0.0)
  {
    var left, top := MARGIN, MARGIN;
    var hasImages := imageCount > 0;
    var fewImgs := hasImages && imageCount <= 3 && STACK_IMAGES_IF_LESS_OR_EQ_2;
    if fewImgs then
      var textH := CONTENT_HEIGHT * FEW_IMG_TEXT_HEIGHT_RATIO;
      var imgH := CONTENT_HEIGHT - textH;
      var textBox :=
        if hasText then Rect(left + CONTENT_SIDE_PADDING, CONTENT_TOP, WIDTH - 2.0 * CONTENT_SIDE_PADDING, textH - GAP * 0.5)
        else Rect(0.0, 0.0, 0.0, 0.0);
      var area := Rect(left + CONTENT_SIDE_PADDING, CONTENT_TOP + textH + GAP * 0.5, WIDTH - 2.0 * CONTENT_SIDE_PADDING, imgH - GAP * 0.5);
      Layout(true, textBox, Some(area))
    else
      var textAreaWidth := WIDTH * (if hasImages then TEXT_WIDTH_RATIO_WITH_IMAGES else TEXT_WIDTH_RATIO_NO_IMAGES);
      var textAreaLeft := if hasImages then left else left + (WIDTH - textAreaWidth) / 2.0;
      var textBox := Rect(textAreaLeft, CONTENT_TOP, textAreaWidth, CONTENT_HEIGHT);
      if hasImages then
        Layout(false, textBox, Some(Rect(left + textAreaWidth + GAP, CONTENT_TOP, WIDTH - textAreaWidth - GAP, CONTENT_HEIGHT)))
      else
        Layout(false, textBox, None)
  }

  /** Stacked: the text spans the slide above the images area, which is centred and reaches the bottom. */
  lemma StackedGeometry(imageCount: nat, hasText: bool)
    requires 1 <= imageCount <= MAX_COLUMNS
    ensures var l := PlanLayout(imageCount, hasText); var area := l.imagesArea.value;
      && Inside(area, SLIDE) && TITLE_BOX.Bottom() < area.y && area.Bottom() == SLIDE_H - MARGIN
      && area.x - SLIDE.x == SLIDE.Right() - area.Right()
      && (hasText ==> Inside(l.text, SLIDE) && TITLE_BOX.Bottom() < l.text.y && l.text.Bottom() < area.y)
      && Disjoint(l.text, area)
  {
    assert CONTENT_TOP == 204.0 && CONTENT_HEIGHT == 876.0;
    assert CONTENT_HEIGHT * FEW_IMG_TEXT_HEIGHT_RATIO == 192.72;
    var l := PlanLayout(imageCount, hasText);
    assert l.imagesArea.value == Rect(32.0, 416.72, 1856.0, 663.28);
    assert hasText ==> l.text == Rect(32.0, 204.0, 1856.0, 172.72);
  }

  /**
   * Column: the text takes the left 40% (or, without images, the middle 92%)
   * below the title, and the images area the rest of the width to the right
   * of it, down to the bottom.
   */
  lemma ColumnGeometry(imageCount: nat, hasText: bool)
    requires imageCount == 0 || imageCount > MAX_COLUMNS
    ensures var l := PlanLayout(imageCount, hasText);
      && Inside(l.text, SLIDE) && TITLE_BOX.Bottom() < l.text.y && l.text.Bottom() == SLIDE_H - MARGIN
      && (imageCount == 0 ==> l.text.x - SLIDE.x == SLIDE.Right() - l.text.Right())
      && (imageCount > 0 ==>
            var area := l.imagesArea.value;
            && Inside(area, SLIDE) && TITLE_BOX.Bottom() < area.y && area.Bottom() == SLIDE_H - MARGIN
            && l.text.x == MARGIN && l.text.Right() + GAP == area.x && area.Right() == SLIDE_W - MARGIN)
  {
    assert CONTENT_TOP == 204.0 && CONTENT_HEIGHT == 876.0;
  }

  // ---------------------------------------------------------------------
  // The image row of addImagesThreeColumns
  // ---------------------------------------------------------------------

  function MinNat(a: nat, b: nat): nat { if a <= b then a else b }

  /** The images placed: the first three URLs at most. */
  function Columns(urlCount: nat): nat { MinNat(urlCount, MAX_COLUMNS) }

  /**
   * count slots of height imgH and width 16/9 of it, IMG_GAP apart, the group
   * centred horizontally and each slot centred vertically in the area.
   */
  function Row(count: nat, area: Rect, imgH: real): (row: seq<Rect>)
    ensures |row| == count
  {
    var imgW := imgH * 16.0 / 9.0;
    var totalWidth := imgW * (count as real) + IMG_GAP * ((count - 1) as real);
    var startX := area.x + (area.w - totalWidth) / 2.0;
    var startY := area.y + (area.h - imgH) / 2.0;
    seq(count, i => Rect(startX + (i as real) * (imgW + IMG_GAP), startY, imgW, imgH))
  }

  /** addImagesThreeColumns as written: the slot height is 0.45 of the area's, whatever the area's width. */
  function SlotsAsWritten(urlCount: nat, area: Rect): seq<Rect>
  {
    Row(Columns(urlCount), area, area.h * IMG_HEIGHT_RATIO)
  }

  /** The slot height, lowered where needed so that the row also fits the area's width. */
  function SlotHeight(count: nat, area: Rect): real
    requires count >= 1
  {
    MinReal(area.h * IMG_HEIGHT_RATIO, (area.w - IMG_GAP * ((count - 1) as real)) * 9.0 / (16.0 * (count as real)))
  }

  /** addImagesThreeColumns with the corrected slot height. */
  function Slots(urlCount: nat, area: Rect): seq<Rect>
  {
    var count := Columns(urlCount);
    if count == 0 then [] else Row(count, area, SlotHeight(count, area))
  }

  /**
   * The row's shape: one slot per placed image, each 16:9 and of the given
   * height, consecutive slots IMG_GAP apart, the group as far from the
   * area's left edge as from its right one, and every slot as far from the
   * area's top as from its bottom.
   */
  lemma RowShape(count: nat, area: Rect, imgH: real)
    requires 1 <= count <= MAX_COLUMNS
    ensures var row := Row(count, area, imgH);
      && (forall i :: 0 <= i < count ==> row[i].h == imgH && 9.0 * row[i].w == 16.0 * imgH)
      && (forall i :: 0 <= i < count - 1 ==> row[i + 1].x == row[i].Right() + IMG_GAP)
      && row[0].x - area.x == area.Right() - row[count - 1].Right()
      && (forall i :: 0 <= i < count ==> row[i].y - area.y == area.Bottom() - row[i].Bottom())
  {
    var row := Row(count, area, imgH);
    var imgW := imgH * 16.0 / 9.0;
    if count == 1 {
    } else if count == 2 {
      assert row[1].x == row[0].x + imgW + IMG_GAP;
    } else {
      assert row[1].x == row[0].x + imgW + IMG_GAP;
      assert row[2].x == row[0].x + 2.0 * (imgW + IMG_GAP);
    }
  }

  /** The corrected slot height keeps the row inside any area wide enough for the gaps alone. */
  lemma {:induction false} SlotsInside(urlCount: nat, area: Rect)
    requires urlCount >= 1 && area.h >= 0.0
    requires area.w >= IMG_GAP * ((Columns(urlCount) - 1) as real)
    ensures |Slots(urlCount, area)| == Columns(urlCount)
    ensures forall i :: 0 <= i < |Slots(urlCount, area)| ==> Inside(Slots(urlCount, area)[i], area)
  {
    var count := Columns(urlCount);
    var imgH := SlotHeight(count, area);
    var row := Row(count, area, imgH);
    var imgW := imgH * 16.0 / 9.0;
    var free := area.w - IMG_GAP * ((count - 1) as real);
    assert 0.0 <= imgH <= area.h * IMG_HEIGHT_RATIO;
    assert imgH * (16.0 * (count as real)) <= free * 9.0 by {
      SlotHeightBound(free, count as real, imgH);
    }
    forall i | 0 <= i < count
      ensures Inside(row[i], area)
    {
      if count == 1 {
      } else if count == 2 {
      } else {
      }
    }
  }

  /** imgH <= free * 9 / (16 * c) gives imgH * (16 * c) <= free * 9. */
  lemma SlotHeightBound(free: real, c: real, imgH: real)
    requires c >= 1.0 && imgH <= free * 9.0 / (16.0 * c)
    ensures imgH * (16.0 * c) <= free * 9.0
  {
    var d := 16.0 * c;
    var q := free * 9.0 / d;
    assert q * d == free * 9.0;
    assert imgH * d <= q * d;
  }

  /**
   * As written, a column layout (four or more images) gets a row 2142.4 wide
   * in an area 1112 wide: the first image covers the text column and the
   * last one runs past the slide's right edge.
   */
  lemma ColumnRowOverflows(imageCount: nat, hasText: bool)
    requires imageCount > MAX_COLUMNS
    ensures var l := PlanLayout(imageCount, hasText); var row := SlotsAsWritten(imageCount, l.imagesArea.value);
      && |row| == 3
      && !Inside(row[0], l.imagesArea.value)
      && !Disjoint(row[0], l.text)
      && row[2].Right() > SLIDE_W
  {
    var l := PlanLayout(imageCount, hasText);
    var area := l.imagesArea.value;
    assert area == Rect(808.0, 204.0, 1112.0, 876.0);
    var row := SlotsAsWritten(imageCount, area);
    assert row[0] == Rect(292.8, 444.9, 700.8, 394.2);
    assert row[2] == Rect(1734.4, 444.9, 700.8, 394.2);
  }

  /** In the stacked layout the width never binds: the corrected row is the row as written. */
  lemma StackedRowUnchanged(imageCount: nat, hasText: bool)
    requires 1 <= imageCount <= MAX_COLUMNS
    ensures var area := PlanLayout(imageCount, hasText).imagesArea.value;
      Slots(imageCount, area) == SlotsAsWritten(imageCount, area)
  {
    var area := PlanLayout(imageCount, hasText).imagesArea.value;
    assert area == Rect(32.0, 416.72, 1856.0, 663.28);
    assert SlotHeight(imageCount, area) == area.h * IMG_HEIGHT_RATIO;
  }

  /**
   * With the corrected slot height, every image of every slide lies in its
   * images area, on the slide, below the title bar and clear of the text box.
   */
  lemma ImagesPlaced(imageCount: nat, hasText: bool)
    requires imageCount >= 1
    ensures var l := PlanLayout(imageCount, hasText); var row := Slots(imageCount, l.imagesArea.value);
      && |row| == Columns(imageCount)
      && forall i :: 0 <= i < |row| ==>
           Inside(row[i], l.imagesArea.value) && Inside(row[i], SLIDE) && TITLE_BOX.Bottom() < row[i].y && Disjoint(row[i], l.text)
  {
    var l := PlanLayout(imageCount, hasText);
    var area, text := l.imagesArea.value, l.text;
    AreaPlacement(imageCount, hasText);
    SlotsInside(imageCount, area);
    var row := Slots(imageCount, area);
    forall i | 0 <= i < |row|
      ensures Inside(row[i], SLIDE) && TITLE_BOX.Bottom() < row[i].y && Disjoint(row[i], text)
    {
      InsideArea(row[i], area, text);
    }
  }

  /** In either layout the images area lies on the slide, below the title bar, clear of the text box. */
  lemma AreaPlacement(imageCount: nat, hasText: bool)
    requires imageCount >= 1
    ensures var l := PlanLayout(imageCount, hasText);
      && l.imagesArea.Some? && Inside(l.imagesArea.value, SLIDE) && TITLE_BOX.Bottom() < l.imagesArea.value.y
      && Disjoint(l.imagesArea.value, l.text)
      && l.imagesArea.value.h >= 0.0 && l.imagesArea.value.w >= IMG_GAP * ((Columns(imageCount) - 1) as real)
  {
    if imageCount <= MAX_COLUMNS {
      StackedGeometry(imageCount, hasText);
    } else {
      ColumnGeometry(imageCount, hasText);
    }
  }

  /** What lies inside an area on the slide lies on the slide, no higher than the area, and clear of whatever the area is clear of. */
  lemma InsideArea(r: Rect, area: Rect, other: Rect)
    requires Inside(r, area) && Inside(area, SLIDE) && Disjoint(area, other)
    ensures Inside(r, SLIDE) && area.y <= r.y && Disjoint(r, other)
  {}
}
