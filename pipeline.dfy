/**
  One tick of `update_frame` after a frame was read: crop the ROI, threshold
  the gradient magnitude, count defects, compute the wrinkle percentage,
  record the sample and evaluate the capture trigger.
*/
module Pipeline {
  import opened Common
  import opened Roi
  import opened Detect
  import Recording
  import Trigger

  /** What a tick shows and does: the metrics, the boxes drawn and whether a capture was taken. */
  datatype Readout = Readout(defects: nat, wrinkle: real, boxes: seq<Rectangle>, captured: bool)

  /**
    `magnitude` is the foreign Sobel magnitude of the crop, already clipped
    to 8 bits, so it has the crop's shape; `contours` are the foreign
    contours of the mask. `ts` and `now` are the two clock readings of the
    tick (recording, then trigger), in milliseconds, and `frame2Ok` says
    whether the second camera delivered a frame.
  */
  method UpdateFrame(
    roi: RoiState, recorder: Recording.Recorder, timer: Trigger.TriggerTimer,
    gray: Grid, magnitude: Grid, edgeThreshold: int, contours: seq<Contour>,
    areaText: Option<int>, countText: Option<int>, timeText: Option<int>, gapText: Option<int>,
    ts: nat, now: nat, frame2Ok: bool)
    returns (out: Readout)
    requires roi.Valid() && recorder.Valid() && timer.Valid()
    requires IsFrame(gray)
    requires Shaped(magnitude, CropRows(roi.Bounds()), CropCols(roi.Bounds()))
    modifies recorder, timer
    ensures recorder.Valid() && timer.Valid()
    ensures out.defects == |Survivors(contours, MinAreaValue(areaText))|
    ensures out.boxes == DrawnAll(Survivors(contours, MinAreaValue(areaText)), roi.x, roi.y)
    ensures out.wrinkle == RoiWrinkle(magnitude, edgeThreshold, CropRows(roi.Bounds()), CropCols(roi.Bounds()))
    ensures recorder.State() == Recording.Recorded(old(recorder.State()), out.defects, out.wrinkle, ts)
    ensures Trigger.Decision(timer.State(), out.captured) ==
      Trigger.Step(old(timer.State()), old(recorder.recording), out.defects,
                   Trigger.Parsed(countText, timeText, gapText), now, old(recorder.screenshotDirSet), frame2Ok)
  {
    var roiGray := Crop(gray, roi.Bounds());
    var minArea := MinAreaValue(areaText);
    var defects, boxes := CountDefects(contours, minArea, roi.x, roi.y);
    var wrinkle := RoiWrinkle(magnitude, edgeThreshold, |roiGray|, |roiGray[0]|);
    recorder.RecordTick(defects, wrinkle, ts);
    var captured := timer.Evaluate(recorder.recording, defects, countText, timeText, gapText, now,
                                   recorder.screenshotDirSet, frame2Ok);
    out := Readout(defects, wrinkle, boxes, captured);
  }
}
