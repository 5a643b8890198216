/**
 * The box finder of `generate_rect_coordiante` (identical in main.py and
 * script.py) and the anchor collection of `redact_first_page`.
 *
 * Given the top-left corner of a form box in page coordinates, the page is
 * rendered to a pixmap; from the anchor pixel the scan walks right along the
 * row until the first dark pixel (channel sum below 100) or the image edge,
 * backs off 4 pixels, then walks down that column the same way and backs off
 * 4 pixels again. The pixel corner found is scaled back to page coordinates.
 *
 * The pixmap is given here as a 2-D array of channel sums `r + g + b`,
 * indexed `[x, y]` like `pix.pixel(x, y)`; page coordinates are reals.
 */
module Boundary {

  /** `r + g + b < 100`: dark enough to be a ruled line of the form. */
  predicate IsDark(sum: int) { sum < 100 }

  /** How far each scan steps back from the line it hit, to stay inside the box. */
  const BackOff: int := 4

  /** A rectangle in page coordinates: top-left `(x0, y0)`, bottom-right `(x1, y1)`. */
  datatype Rect = Rect(x0: real, y0: real, x1: real, y1: real)

  /** `pix.width / page.rect.width`: pixels per page unit. */
  function Scale(pixels: nat, points: real): (s: real)
    requires points > 0.0
    ensures pixels > 0 ==> s > 0.0
  {
    pixels as real / points
  }

  /** `int(coord * scale)`: truncation, which is the floor for non-negative page coordinates. */
  function ToPixel(coord: real, scale: real): (n: int)
    requires coord >= 0.0 && scale >= 0.0
    ensures n >= 0
  {
    (coord * scale).Floor
  }

  /**
   * The anchor lands on the pixmap at least `BackOff` columns from its left
   * edge, so that both scans stay inside the image.
   */
  predicate AnchorInside(pix: array2<int>, pageWidth: real, pageHeight: real, x: real, y: real)
  {
    && pageWidth > 0.0 && pageHeight > 0.0 && x >= 0.0 && y >= 0.0
    && BackOff <= ToPixel(x, Scale(pix.Length0, pageWidth)) < pix.Length0
    && ToPixel(y, Scale(pix.Length1, pageHeight)) < pix.Length1
  }

  /**
   * The column where the rightward scan of row `y` from column `x` stops:
   * the first dark pixel at or after `x`, or the image width. Every pixel it
   * passes over is light.
   */
  function FirstDarkInRow(pix: array2<int>, x: int, y: int): (e: int)
    reads pix
    requires 0 <= x <= pix.Length0 && 0 <= y < pix.Length1
    ensures x <= e <= pix.Length0
    ensures forall t :: x <= t < e ==> !IsDark(pix[t, y])
    ensures e < pix.Length0 ==> IsDark(pix[e, y])
    decreases pix.Length0 - x
  {
    if x == pix.Length0 || IsDark(pix[x, y]) then x else FirstDarkInRow(pix, x + 1, y)
  }

  /**
   * The row where the downward scan of column `x` from row `y` stops: the
   * first dark pixel at or below `y`, or the image height. Every pixel it
   * passes over is light.
   */
  function FirstDarkInColumn(pix: array2<int>, x: int, y: int): (e: int)
    reads pix
    requires 0 <= x < pix.Length0 && 0 <= y <= pix.Length1
    ensures y <= e <= pix.Length1
    ensures forall t :: y <= t < e ==> !IsDark(pix[x, t])
    ensures e < pix.Length1 ==> IsDark(pix[x, e])
    decreases pix.Length1 - y
  {
    if y == pix.Length1 || IsDark(pix[x, y]) then y else FirstDarkInColumn(pix, x, y + 1)
  }

  /** The rectangle `generate_rect_coordiante` returns for the anchor `(x, y)`. */
  function BoxRect(pix: array2<int>, pageWidth: real, pageHeight: real, x: real, y: real): (r: Rect)
    reads pix
    requires AnchorInside(pix, pageWidth, pageHeight, x, y)
    ensures r.x0 == x && r.y0 == y
  {
    var sx, sy := Scale(pix.Length0, pageWidth), Scale(pix.Length1, pageHeight);
    var px, py := ToPixel(x, sx), ToPixel(y, sy);
    var right := FirstDarkInRow(pix, px, py) - BackOff;
    var bottom := FirstDarkInColumn(pix, right, py) - BackOff;
    Rect(x, y, right as real / sx, bottom as real / sy)
  }

  /**
   * Where the box's corners lie: its top-left corner is the anchor; scaled
   * to pixels, its right edge is `BackOff` columns before where the scan of
   * the anchor's row stops, and its bottom edge is `BackOff` rows above where
   * the scan down that inset column stops.
   */
  lemma BoxRectCorners(pix: array2<int>, pageWidth: real, pageHeight: real, x: real, y: real)
    requires AnchorInside(pix, pageWidth, pageHeight, x, y)
    ensures var r := BoxRect(pix, pageWidth, pageHeight, x, y);
      var sx, sy := Scale(pix.Length0, pageWidth), Scale(pix.Length1, pageHeight);
      var px, py := ToPixel(x, sx), ToPixel(y, sy);
      var right := FirstDarkInRow(pix, px, py) - BackOff;
      && r.x0 == x && r.y0 == y
      && 0 <= right < pix.Length0
      && r.x1 * sx == right as real
      && r.y1 * sy == (FirstDarkInColumn(pix, right, py) - BackOff) as real
  {
    var sx, sy := Scale(pix.Length0, pageWidth), Scale(pix.Length1, pageHeight);
    var px, py := ToPixel(x, sx), ToPixel(y, sy);
    var right := FirstDarkInRow(pix, px, py) - BackOff;
    var bottom := FirstDarkInColumn(pix, right, py) - BackOff;
    DivMul(right as real, sx);
    DivMul(bottom as real, sy);
  }

  lemma DivMul(a: real, s: real)
    requires s > 0.0
    ensures (a / s) * s == a
  {
  }

  /**
   * `generate_rect_coordiante(document, page_number, start_x, start_y)` on a
   * page of `pageWidth` by `pageHeight` units rendered as `pix`.
   */
  method GenerateRect(pix: array2<int>, pageWidth: real, pageHeight: real, startX: real, startY: real)
    returns (rect: Rect)
    requires AnchorInside(pix, pageWidth, pageHeight, startX, startY)
    ensures rect == BoxRect(pix, pageWidth, pageHeight, startX, startY)
    ensures rect.x0 == startX && rect.y0 == startY
  {
    var scaleX := Scale(pix.Length0, pageWidth);
    var scaleY := Scale(pix.Length1, pageHeight);
    var pxStartX := ToPixel(startX, scaleX);
    var pxStartY := ToPixel(startY, scaleY);

    var currX := pxStartX;
    while currX < pix.Length0
      invariant pxStartX <= currX <= pix.Length0
      invariant FirstDarkInRow(pix, currX, pxStartY) == FirstDarkInRow(pix, pxStartX, pxStartY)
      decreases pix.Length0 - currX
    {
      if IsDark(pix[currX, pxStartY]) {
        break;
      }
      currX := currX + 1;
    }
    currX := currX - BackOff;

    var currY := pxStartY;
    while currY < pix.Length1
      invariant pxStartY <= currY <= pix.Length1
      invariant FirstDarkInColumn(pix, currX, currY) == FirstDarkInColumn(pix, currX, pxStartY)
      decreases pix.Length1 - currY
    {
      if IsDark(pix[currX, currY]) {
        break;
      }
      currY := currY + 1;
    }
    currY := currY - BackOff;

    rect := Rect(startX, startY, currX as real / scaleX, currY as real / scaleY);
  }

  // ---- redact_first_page ------------------------------------------------------------

  /** The numbered boxes of the first page whose contents are redacted, in search order. */
  const FirstPageLabels: seq<string> :=
    ["7.", "8.", "15A.", "16.", "17A.", "18.", "19A.", "19B.", "20B.", "30A.", "30B.", "31A.", "31B."]

  /** One search hit on the page, `(x0, y0, x1, y1)`. */
  datatype Hit = Hit(x0: real, y0: real, x1: real, y1: real)

  /** A box anchor: the bottom-left corner `(x0, y1)` of a label's first hit. */
  datatype Anchor = Anchor(x: real, y: real)

  /** The anchors of the labels that were found, in label order; a label with no hit adds nothing. */
  function Anchors(labels: seq<string>, search: string -> seq<Hit>): (r: seq<Anchor>)
    ensures |r| <= |labels|
  {
    if labels == [] then []
    else
      var init, hits := Anchors(labels[..|labels| - 1], search), search(labels[|labels| - 1]);
      if hits == [] then init else init + [Anchor(hits[0].x0, hits[0].y1)]
  }

  /** An anchor is collected exactly for a label with a hit, from that label's first hit. */
  lemma {:induction false} AnchorsMeaning(labels: seq<string>, search: string -> seq<Hit>, a: Anchor)
    ensures a in Anchors(labels, search) <==>
              exists i :: 0 <= i < |labels| && search(labels[i]) != []
                          && a == Anchor(search(labels[i])[0].x0, search(labels[i])[0].y1)
  {
    if labels != [] {
      var init := labels[..|labels| - 1];
      AnchorsMeaning(init, search, a);
      if exists i :: 0 <= i < |init| && search(init[i]) != []
                    && a == Anchor(search(init[i])[0].x0, search(init[i])[0].y1) {
        var i :| 0 <= i < |init| && search(init[i]) != []
                 && a == Anchor(search(init[i])[0].x0, search(init[i])[0].y1);
        assert labels[i] == init[i];
      }
      if exists i :: 0 <= i < |labels| && search(labels[i]) != []
                    && a == Anchor(search(labels[i])[0].x0, search(labels[i])[0].y1) {
        var i :| 0 <= i < |labels| && search(labels[i]) != []
                 && a == Anchor(search(labels[i])[0].x0, search(labels[i])[0].y1);
        if i < |init| {
          assert init[i] == labels[i];
        }
      }
    }
  }

  /** Every label that is found gives an anchor the box scan can start from. */
  predicate AnchorsInside(pix: array2<int>, pageWidth: real, pageHeight: real, labels: seq<string>,
                          search: string -> seq<Hit>)
  {
    forall i :: 0 <= i < |labels| && search(labels[i]) != [] ==>
      AnchorInside(pix, pageWidth, pageHeight, search(labels[i])[0].x0, search(labels[i])[0].y1)
  }

  /** The rectangles collected for `labels`, one per label that is found, in label order. */
  function FirstPageRects(pix: array2<int>, pageWidth: real, pageHeight: real, labels: seq<string>,
                          search: string -> seq<Hit>): seq<Rect>
    reads pix
    requires AnchorsInside(pix, pageWidth, pageHeight, labels, search)
  {
    if labels == [] then []
    else
      var init, hits := labels[..|labels| - 1], search(labels[|labels| - 1]);
      assert forall i :: 0 <= i < |init| ==> init[i] == labels[i];
      FirstPageRects(pix, pageWidth, pageHeight, init, search)
        + if hits == [] then [] else [BoxRect(pix, pageWidth, pageHeight, hits[0].x0, hits[0].y1)]
  }

  /** The collected rectangles are the boxes at the collected anchors, one for one and in order. */
  lemma {:induction false} FirstPageRectsMeaning(pix: array2<int>, pageWidth: real, pageHeight: real,
                                                 labels: seq<string>, search: string -> seq<Hit>)
    requires AnchorsInside(pix, pageWidth, pageHeight, labels, search)
    ensures var rects, anchors := FirstPageRects(pix, pageWidth, pageHeight, labels, search), Anchors(labels, search);
      && |rects| == |anchors|
      && forall k :: 0 <= k < |rects| ==>
           AnchorInside(pix, pageWidth, pageHeight, anchors[k].x, anchors[k].y)
           && rects[k] == BoxRect(pix, pageWidth, pageHeight, anchors[k].x, anchors[k].y)
  {
    if labels != [] {
      var init := labels[..|labels| - 1];
      assert forall i :: 0 <= i < |init| ==> init[i] == labels[i];
      FirstPageRectsMeaning(pix, pageWidth, pageHeight, init, search);
    }
  }

  /**
   * The first loop of `redact_first_page`: search each label, skip those
   * not found, and collect the box anchored at the bottom-left corner of the
   * first hit of the others. All boxes are collected before any redaction.
   */
  method CollectFirstPageRects(pix: array2<int>, pageWidth: real, pageHeight: real, search: string -> seq<Hit>)
    returns (rects: seq<Rect>)
    requires AnchorsInside(pix, pageWidth, pageHeight, FirstPageLabels, search)
    ensures rects == FirstPageRects(pix, pageWidth, pageHeight, FirstPageLabels, search)
  {
    rects := [];
    var i := 0;
    while i < |FirstPageLabels|
      invariant 0 <= i <= |FirstPageLabels|
      invariant AnchorsInside(pix, pageWidth, pageHeight, FirstPageLabels[..i], search)
      invariant rects == FirstPageRects(pix, pageWidth, pageHeight, FirstPageLabels[..i], search)
    {
      var instance := search(FirstPageLabels[i]);
      assert FirstPageLabels[..i + 1][..i] == FirstPageLabels[..i];
      if instance != [] {
        var rect := GenerateRect(pix, pageWidth, pageHeight, instance[0].x0, instance[0].y1);
        rects := rects + [rect];
      }
      i := i + 1;
    }
    assert FirstPageLabels[..i] == FirstPageLabels;
  }
}
