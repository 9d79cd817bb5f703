/**
  The analysis of one ROI crop after the foreign image library has produced
  its 8-bit gradient magnitude and its contours: binarisation, the wrinkle
  percentage and the defect count with the boxes drawn for it.
*/
module Detect {
  import opened Common

  type Grid = seq<seq<int>>

  predicate Rectangular(g: Grid)
  {
    |g| > 0 && forall i :: 0 <= i < |g| ==> |g[i]| == |g[0]|
  }

  /** `cv2.threshold(..., THRESH_BINARY)` with maximum 255: a pixel is white exactly when its magnitude exceeds the threshold. */
  function Binarize(mag: Grid, t: int): (b: Grid)
    ensures |b| == |mag|
    ensures forall i :: 0 <= i < |b| ==> |b[i]| == |mag[i]|
    ensures forall i, j :: 0 <= i < |b| && 0 <= j < |b[i]| ==>
      (b[i][j] == 255 <==> mag[i][j] > t) && (b[i][j] == 0 <==> mag[i][j] <= t)
  {
    seq(|mag|, i requires 0 <= i < |mag| =>
      seq(|mag[i]|, j requires 0 <= j < |mag[i]| => if mag[i][j] > t then 255 else 0))
  }

  /** Number of pixels in a grid whose rows may differ in length. */
  function CellCount(g: Grid): nat
  {
    if g == [] then 0 else |g[0]| + CellCount(g[1..])
  }

  function RowNonZero(row: seq<int>): (n: nat)
    ensures n <= |row|
  {
    if row == [] then 0 else (if row[0] != 0 then 1 else 0) + RowNonZero(row[1..])
  }

  /** `cv2.countNonZero`: the number of non-zero pixels, never more than there are pixels. */
  function CountNonZero(g: Grid): (n: nat)
    ensures n <= CellCount(g)
  {
    if g == [] then 0 else RowNonZero(g[0]) + CountNonZero(g[1..])
  }

  function RowAbove(row: seq<int>, t: int): nat
  {
    if row == [] then 0 else (if row[0] > t then 1 else 0) + RowAbove(row[1..], t)
  }

  /** Reference count: magnitudes strictly above the threshold. */
  function CountAbove(mag: Grid, t: int): nat
  {
    if mag == [] then 0 else RowAbove(mag[0], t) + CountAbove(mag[1..], t)
  }

  lemma {:induction false} RowWhiteIsRowAbove(row: seq<int>, t: int)
    ensures RowNonZero(seq(|row|, j requires 0 <= j < |row| => if row[j] > t then 255 else 0)) == RowAbove(row, t)
  {
    var b := seq(|row|, j requires 0 <= j < |row| => if row[j] > t then 255 else 0);
    if row != [] {
      var tail := row[1..];
      var bt := seq(|tail|, j requires 0 <= j < |tail| => if tail[j] > t then 255 else 0);
      assert b[1..] == bt;
      RowWhiteIsRowAbove(tail, t);
    }
  }

  /** The white pixels of the mask are exactly the pixels whose magnitude is strictly above the threshold; ties stay black. */
  lemma {:induction false} WhiteCountsStrictlyAbove(mag: Grid, t: int)
    ensures CountNonZero(Binarize(mag, t)) == CountAbove(mag, t)
  {
    if mag != [] {
      var b := Binarize(mag, t);
      assert b[1..] == Binarize(mag[1..], t);
      assert b[0] == seq(|mag[0]|, j requires 0 <= j < |mag[0]| => if mag[0][j] > t then 255 else 0);
      RowWhiteIsRowAbove(mag[0], t);
      WhiteCountsStrictlyAbove(mag[1..], t);
    }
  }

  /** A rectangular grid has rows times columns pixels. */
  lemma {:induction false} CellCountOfRectangle(g: Grid, cols: nat)
    requires forall i :: 0 <= i < |g| ==> |g[i]| == cols
    ensures CellCount(g) == |g| * cols
  {
    if g != [] {
      CellCountOfRectangle(g[1..], cols);
    }
  }

  /**
    `(white / cells) * 100` computed exactly: the share of `white` pixels
    among `cells`, as a percentage.
  */
  function Percent(white: nat, cells: nat): (p: real)
    requires 0 < cells
    ensures p * (cells as real) == 100.0 * (white as real)
    ensures white <= cells ==> 0.0 <= p <= 100.0
    ensures p == 100.0 <==> white == cells
    ensures p == 0.0 <==> white == 0
  {
    var w, c := white as real, cells as real;
    var q := w / c;
    assert q * c == w;
    assert white <= cells ==> 0.0 <= q <= 1.0;
    assert q == 1.0 ==> w == c;
    assert w == c ==> q == 1.0 by {
      if w == c {
        assert (q - 1.0) * c == 0.0;
      }
    }
    assert q == 0.0 <==> w == 0.0;
    assert (q * 100.0) * c == (q * c) * 100.0;
    q * 100.0
  }

  /**
    The wrinkle percentage of a mask: its white pixels as a percentage of
    all `rows * cols` pixels of the ROI, so between 0 and 100.
  */
  function WrinklePercent(mask: Grid): (p: real)
    requires Rectangular(mask) && |mask[0]| > 0
    ensures 0.0 <= p <= 100.0
    ensures p * ((|mask| * |mask[0]|) as real) == 100.0 * (CountNonZero(mask) as real)
  {
    CellCountOfRectangle(mask, |mask[0]|);
    Percent(CountNonZero(mask), |mask| * |mask[0]|)
  }

  /** A grid of `rows` rows of `cols` pixels. */
  predicate Shaped(g: Grid, rows: nat, cols: nat)
  {
    |g| == rows && forall i :: 0 <= i < |g| ==> |g[i]| == cols
  }

  /**
    The wrinkle percentage of one ROI from its magnitude grid: threshold,
    then count white pixels. It is the share, in percent, of the pixels whose
    magnitude is strictly above the threshold.
  */
  function RoiWrinkle(mag: Grid, t: int, rows: nat, cols: nat): (p: real)
    requires Shaped(mag, rows, cols) && rows > 0 && cols > 0
    ensures 0.0 <= p <= 100.0
    ensures p == Percent(CountAbove(mag, t), rows * cols)
  {
    var mask := Binarize(mag, t);
    assert |mask| == rows && |mask[0]| == cols;
    CellCountOfRectangle(mask, cols);
    WhiteCountsStrictlyAbove(mag, t);
    WrinklePercent(mask)
  }

  /** `cv2.boundingRect` of a contour, in ROI coordinates. */
  datatype Box = Box(x: int, y: int, w: int, h: int)

  /** A contour as the foreign library reports it: its `contourArea` and its bounding box. */
  datatype Contour = Contour(area: real, bbox: Box)

  /** A rectangle drawn on the annotated frame, from corner (left, top) to (right, bottom). */
  datatype Rectangle = Rectangle(left: int, top: int, right: int, bottom: int)

  /** `max(0, int(entry_area.get()))`, or 0 when the field does not parse. */
  function MinAreaValue(areaText: Option<int>): (m: int)
    ensures m >= 0
    ensures areaText.Some? && areaText.value >= 0 ==> m == areaText.value
    ensures areaText.None? || areaText.value < 0 ==> m == 0
  {
    if areaText.Some? then Max(0, areaText.value) else 0
  }

  predicate Kept(c: Contour, minArea: int)
  {
    c.area > minArea as real
  }

  /** The contours that pass the area filter, in their original order. */
  function Survivors(cs: seq<Contour>, minArea: int): seq<Contour>
  {
    if cs == [] then []
    else Survivors(cs[..|cs| - 1], minArea) + (if Kept(cs[|cs| - 1], minArea) then [cs[|cs| - 1]] else [])
  }

  /** The box drawn for a kept contour: its local box shifted to frame coordinates by the ROI origin. */
  function Drawn(b: Box, roiX: int, roiY: int): (r: Rectangle)
    ensures r.right - r.left == b.w && r.bottom - r.top == b.h
    ensures r.left - b.x == roiX && r.top - b.y == roiY
  {
    Rectangle(roiX + b.x, roiY + b.y, roiX + b.x + b.w, roiY + b.y + b.h)
  }

  function DrawnAll(cs: seq<Contour>, roiX: int, roiY: int): (rs: seq<Rectangle>)
    ensures |rs| == |cs|
    ensures forall k :: 0 <= k < |cs| ==> rs[k] == Drawn(cs[k].bbox, roiX, roiY)
  {
    seq(|cs|, k requires 0 <= k < |cs| => Drawn(cs[k].bbox, roiX, roiY))
  }

  /**
    Exactly the contours with area strictly above the bound survive, each as
    often as it occurs in the input.
  */
  lemma {:induction false} SurvivorsExact(cs: seq<Contour>, minArea: int)
    ensures forall c :: multiset(Survivors(cs, minArea))[c] == if Kept(c, minArea) then multiset(cs)[c] else 0
  {
    if cs != [] {
      var init, last := cs[..|cs| - 1], cs[|cs| - 1];
      SurvivorsExact(init, minArea);
      assert cs == init + [last];
      assert multiset(cs) == multiset(init) + multiset{last};
    }
  }

  /** Raising the minimum area never increases the defect count. */
  lemma {:induction false} SurvivorsShrink(cs: seq<Contour>, lo: int, hi: int)
    requires lo <= hi
    ensures |Survivors(cs, hi)| <= |Survivors(cs, lo)| <= |cs|
  {
    if cs != [] {
      SurvivorsShrink(cs[..|cs| - 1], lo, hi);
    }
  }

  /**
    The contour loop: count the contours whose area exceeds the bound and
    draw each one's box shifted by the ROI origin.
  */
  method CountDefects(contours: seq<Contour>, minArea: int, roiX: int, roiY: int)
    returns (count: nat, boxes: seq<Rectangle>)
    ensures count == |Survivors(contours, minArea)|
    ensures boxes == DrawnAll(Survivors(contours, minArea), roiX, roiY)
  {
    count, boxes := 0, [];
    for i := 0 to |contours|
      invariant count == |Survivors(contours[..i], minArea)|
      invariant boxes == DrawnAll(Survivors(contours[..i], minArea), roiX, roiY)
    {
      var cnt := contours[i];
      assert contours[..i + 1][..i] == contours[..i];
      if cnt.area > minArea as real {
        boxes := boxes + [Drawn(cnt.bbox, roiX, roiY)];
        count := count + 1;
      }
    }
    assert contours[..|contours|] == contours;
  }
}
