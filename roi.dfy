/**
  The region of interest (ROI): the rectangle of the 320x240 grey frame that is
  analysed, resized from two text fields (`update_roi`) and moved by a mouse
  drag (`start_drag`, `drag_roi`, `end_drag`), and the crop that cuts it out.
*/
module Roi {
  import opened Common

  const FrameWidth: int := 320
  const FrameHeight: int := 240
  const MinSide: int := 10

  datatype Rect = Rect(x: int, y: int, w: int, h: int)

  /** The design invariant: the ROI lies inside the frame and is at least 10x10. */
  predicate Inside(r: Rect)
  {
    && 0 <= r.x && 0 <= r.y
    && r.x + r.w <= FrameWidth && r.y + r.h <= FrameHeight
    && MinSide <= r.w && MinSide <= r.h
  }

  /**
    What every ROI operation keeps, including an `update_roi` whose height
    field fails to parse after the width was already stored: sizes in range,
    an origin that leaves room for the smallest ROI, and the bottom edge
    inside the frame. Only the height is guarded by the second parse, so
    only `x + w` can leave the frame.
  */
  predicate Sane(r: Rect)
  {
    && MinSide <= r.w <= FrameWidth && MinSide <= r.h <= FrameHeight
    && 0 <= r.x <= FrameWidth - MinSide && 0 <= r.y && r.y + r.h <= FrameHeight
  }

  /**
    `update_roi`: the width is parsed and stored first, then the height; only
    when both parsed is the origin pulled back so that the ROI fits. An
    unparseable width changes nothing; an unparseable height keeps the new width.
  */
  function Resized(r: Rect, wText: Option<int>, hText: Option<int>): (r': Rect)
    ensures wText.None? ==> r' == r
    ensures wText.Some? ==> MinSide <= r'.w <= FrameWidth
    ensures wText.Some? && MinSide <= wText.value <= FrameWidth ==> r'.w == wText.value
    ensures wText.Some? && hText.None? ==> r'.x == r.x && r'.y == r.y && r'.h == r.h
    ensures wText.Some? && hText.Some? ==> MinSide <= r'.h <= FrameHeight
    ensures wText.Some? && hText.Some? && MinSide <= hText.value <= FrameHeight ==> r'.h == hText.value
    ensures wText.Some? && hText.Some? ==> r'.x <= r.x && r'.y <= r.y
    ensures wText.Some? && hText.Some? && r.x + r'.w <= FrameWidth ==> r'.x == r.x
    ensures wText.Some? && hText.Some? && r.y + r'.h <= FrameHeight ==> r'.y == r.y
    ensures wText.Some? && hText.Some? && 0 <= r.x && 0 <= r.y ==> Inside(r')
    ensures Sane(r) ==> Sane(r')
  {
    match wText
    case None => r
    case Some(wv) =>
      var w := Clamp(wv, MinSide, FrameWidth);
      match hText
      case None => r.(w := w)
      case Some(hv) =>
        var h := Clamp(hv, MinSide, FrameHeight);
        Rect(Min(r.x, FrameWidth - w), Min(r.y, FrameHeight - h), w, h)
  }

  /** The hit test of `start_drag`: the point lies in the ROI, borders included. */
  predicate Hit(r: Rect, px: int, py: int)
  {
    r.x <= px <= r.x + r.w && r.y <= py <= r.y + r.h
  }

  /**
    One `drag_roi` motion event from the last pointer position `from` to `to`:
    the origin follows the pointer, clamped so that the ROI stays in the frame.
  */
  function Dragged(r: Rect, from: (int, int), to: (int, int)): (r': Rect)
    requires Sane(r)
    ensures r'.w == r.w && r'.h == r.h
    ensures Inside(r')
    ensures 0 <= r.x + (to.0 - from.0) <= FrameWidth - r.w ==> r'.x == r.x + (to.0 - from.0)
    ensures 0 <= r.y + (to.1 - from.1) <= FrameHeight - r.h ==> r'.y == r.y + (to.1 - from.1)
    ensures r.x + (to.0 - from.0) < 0 ==> r'.x == 0
    ensures r.y + (to.1 - from.1) < 0 ==> r'.y == 0
    ensures r.x + (to.0 - from.0) > FrameWidth - r.w ==> r'.x == FrameWidth - r.w
    ensures r.y + (to.1 - from.1) > FrameHeight - r.h ==> r'.y == FrameHeight - r.h
  {
    var dx := to.0 - from.0;
    var dy := to.1 - from.1;
    r.(x := Clamp(r.x + dx, 0, FrameWidth - r.w), y := Clamp(r.y + dy, 0, FrameHeight - r.h))
  }

  /**
    A failed height parse after a successful width parse is the one way the
    design invariant is lost: from an ROI inside the frame, the result is
    inside exactly when the new width still fits from the old origin.
  */
  lemma PartialResizeKeepsInsideIff(r: Rect, wv: int)
    requires Inside(r)
    ensures Inside(Resized(r, Some(wv), None)) <==> r.x + Clamp(wv, MinSide, FrameWidth) <= FrameWidth
  {
  }

  /** A concrete instance: widening a ROI at x = 200 to 300 with an unreadable height. */
  lemma PartialResizeLeavesFrame()
    ensures Inside(Rect(200, 60, 100, 120))
    ensures Resized(Rect(200, 60, 100, 120), Some(300), None) == Rect(200, 60, 300, 120)
    ensures !Inside(Resized(Rect(200, 60, 100, 120), Some(300), None))
  {
  }

  /** The grey frame after `cv2.resize(frame, (320, 240))`: 240 rows of 320 samples. */
  predicate IsFrame(g: seq<seq<int>>)
  {
    |g| == FrameHeight && forall i :: 0 <= i < |g| ==> |g[i]| == FrameWidth
  }

  /**
    Rows of the crop: numpy stops the slice `y:y+h` at the frame's last row,
    but the bottom edge never leaves the frame, so no row is ever cut.
  */
  function CropRows(r: Rect): (n: int)
    requires Sane(r)
    ensures MinSide <= n == r.h
  {
    Min(r.y + r.h, FrameHeight) - r.y
  }

  /** Columns of the crop: the slice `x:x+w` stops at the frame's last column, the one place numpy clips. */
  function CropCols(r: Rect): (n: int)
    requires Sane(r)
    ensures MinSide <= n <= r.w
    ensures Inside(r) ==> n == r.w
  {
    Min(r.x + r.w, FrameWidth) - r.x
  }

  /**
    `gray[y:y+h, x:x+w]` with numpy's slicing, which stops at the frame edge
    instead of failing. Under `Sane` the crop is `h` rows, never empty and
    never reads outside the frame; under `Inside` its rows are exactly `w` wide.
  */
  function Crop(g: seq<seq<int>>, r: Rect): (c: seq<seq<int>>)
    requires IsFrame(g) && Sane(r)
    ensures |c| == CropRows(r) == r.h
    ensures forall i :: 0 <= i < |c| ==> |c[i]| == CropCols(r)
    ensures forall i, j :: 0 <= i < |c| && 0 <= j < |c[i]| ==>
      r.y + i < FrameHeight && r.x + j < FrameWidth && c[i][j] == g[r.y + i][r.x + j]
    ensures Inside(r) ==> forall i :: 0 <= i < |c| ==> |c[i]| == r.w
  {
    seq(CropRows(r), i requires 0 <= i < CropRows(r) => g[r.y + i][r.x..r.x + CropCols(r)])
  }

  /**
    The ROI globals `roi_x`, `roi_y`, `roi_w`, `roi_h` and `drag_start`,
    updated in place by the resize button and the mouse handlers.
  */
  class RoiState {
    var x: int
    var y: int
    var w: int
    var h: int
    var dragStart: Option<(int, int)>

    function Bounds(): Rect
      reads this
    {
      Rect(x, y, w, h)
    }

    predicate Valid()
      reads this
    {
      Sane(Bounds())
    }

    /** The start-up values `80, 60, 160, 120` with no drag in progress. */
    constructor ()
      ensures Valid() && Inside(Bounds())
      ensures Bounds() == Rect(80, 60, 160, 120) && dragStart == None
    {
      x, y, w, h := 80, 60, 160, 120;
      dragStart := None;
    }

    /** `update_roi`, with the two fields' parse results as inputs. */
    method UpdateRoi(wText: Option<int>, hText: Option<int>)
      requires Valid()
      modifies this`x, this`y, this`w, this`h
      ensures Valid()
      ensures Bounds() == Resized(old(Bounds()), wText, hText)
    {
      if wText.None? {
        return;
      }
      w := Clamp(wText.value, MinSide, FrameWidth);
      if hText.None? {
        return;
      }
      h := Clamp(hText.value, MinSide, FrameHeight);
      x := Min(x, FrameWidth - w);
      y := Min(y, FrameHeight - h);
    }

    /** `start_drag`: a press inside the ROI records the pointer; a press outside leaves `drag_start` as it was. */
    method StartDrag(px: int, py: int)
      requires Valid()
      modifies this`dragStart
      ensures Valid()
      ensures Hit(Bounds(), px, py) ==> dragStart == Some((px, py))
      ensures !Hit(Bounds(), px, py) ==> dragStart == old(dragStart)
    {
      if x <= px <= x + w && y <= py <= y + h {
        dragStart := Some((px, py));
      }
    }

    /** `drag_roi`: with a drag in progress, move by the pointer delta (clamped) and remember the pointer. */
    method DragRoi(px: int, py: int)
      requires Valid()
      modifies this`x, this`y, this`dragStart
      ensures Valid()
      ensures old(dragStart).None? ==> Bounds() == old(Bounds()) && dragStart == None
      ensures old(dragStart).Some? ==>
        Bounds() == Dragged(old(Bounds()), old(dragStart).value, (px, py))
        && Inside(Bounds()) && dragStart == Some((px, py))
    {
      if dragStart.Some? {
        var dx := px - dragStart.value.0;
        var dy := py - dragStart.value.1;
        x := Clamp(x + dx, 0, FrameWidth - w);
        y := Clamp(y + dy, 0, FrameHeight - h);
        dragStart := Some((px, py));
      }
    }

    /** `end_drag`: releasing the button ends any drag. */
    method EndDrag()
      requires Valid()
      modifies this`dragStart
      ensures Valid()
      ensures dragStart == None
    {
      dragStart := None;
    }
  }
}
