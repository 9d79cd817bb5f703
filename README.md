# Wrinkle inspector core, modelled in Dafny

`main.py` is a Tk desktop inspector. It reads a camera frame every 50 ms and
resizes it to 320x240 grey. It cuts out a movable, resizable region of
interest (ROI) and thresholds the ROI's Sobel gradient magnitude into a
black/white mask. It counts the mask's contours whose area exceeds a
minimum (the *defects*) and reports the share of white pixels (the
*wrinkle percentage*). While a recording session runs, it logs at most one
sample per wall-clock second and keeps the last 30 samples for a live chart.
It also saves a frame of a second camera once the defect count has stayed
at or above a threshold for a sustain time, with a cooldown between
captures.

This project models that logic and proves what it promises:

- `common.dfy`, module `Common`: `Option`, `Min`, `Max` and `Clamp` (`max(lo, min(v, hi))`).
- `roi.dfy`, module `Roi`: the ROI rectangle, `update_roi` and the three drag handlers as the class `RoiState`, whose methods update `roi_x`, `roi_y`, `roi_w`, `roi_h` and `drag_start` in place. The pure functions `Resized` and `Dragged` specify those methods. The file also holds the numpy crop of the ROI, including numpy's clipping at the frame edge. That clipping only ever cuts columns: the bottom edge `y + h` never leaves the frame, while a partial resize can push `x + w` past it.
- `detect.dfy`, module `Detect`: the strict `>` binarisation and `countNonZero`. It also holds the wrinkle percentage (exact rational arithmetic), the area filter over contours, the boxes drawn for surviving contours, and the contour loop as a method.
- `recording.dfy`, module `Recording`: the session globals as the class `Recorder`, covering `toggle_record` and the recording step of `update_frame`. The pure functions `Toggled` and `Recorded` specify them, and the lemmas state the invariant they keep: the chart buffer is the last 30 samples of the log, neighbouring samples differ in their second, and the dedup key is the last sample's time.
- `trigger.dfy`, module `Trigger`: the capture trigger as the class `TriggerTimer` over the attributes `start_time` and `last_capture_time`, specified by the pure step function `Step`. `Run` folds `Step` over a sequence of ticks to state properties of whole runs.
- `pipeline.dfy`, module `Pipeline`: one tick of `update_frame`, composed from the above.

Behaviour is modelled as the code is written, including its quirks:

- an `update_roi` whose height fails to parse keeps the new width, and the ROI can then stick out of the frame;
- the tick that arms the trigger never captures, even with a sustain time of 0;
- arming resets `last_capture_time` to 0, so one tick below the threshold clears the cooldown;
- the trigger arms only while recording;
- a capture needs `screenshot_dir` to be set;
- the dedup key `last_record_time` survives a stop and restart, so the first tick of a new session in the same second as the previous session's last sample is not logged.

One behaviour is modelled both as written and corrected (see "## Findings"). A capture that falls due while the second camera gives no frame stops the tick loop in the code as written. The corrected trigger, which the rest of the model uses, skips that capture and keeps ticking.

Conventions:

- Clock readings (`time.time()`) are whole milliseconds of type `nat`, so `int(ts)` is `ts / 1000`, and a test `now - start >= trigger_time` in seconds becomes `now - start >= 1000 * trigger_time`.
- The parse of a text field (`int(entry.get())`) is an input of type `Option<int>`: `None` stands for the `ValueError` that the source's `except` catches.
- The Sobel magnitude and the contours come from OpenCV, which is not part of this model. They are inputs. The magnitude must have the crop's shape, and each contour is given as its area and its bounding box.

## Model

| member | source | states |
|---|---|---|
| Common.Clamp | main.py:302-303 | `max(lo, min(v, hi))` lies in `[lo, hi]`, equals `v` when `v` is in range, and equals `lo` or `hi` when `v` is below or above |
| Roi.Resized | main.py:299-307 | an unparseable width changes nothing; the width is clamped to 10..320 and kept when in range; an unparseable height keeps the origin and the height but the new width; with both parsed, the height is clamped to 10..240, the origin never moves right or down, stays put when the ROI still fits, and the ROI ends inside the frame; the bounds `Sane` (sizes in range, origin at least 0, `x <= 310`, bottom edge inside the frame) are preserved |
| Roi.PartialResizeKeepsInsideIff | main.py:302-306 | from a ROI inside the frame, a resize whose height does not parse leaves it inside exactly when the clamped new width still fits from the old `x` |
| Roi.PartialResizeLeavesFrame | main.py:302-306 | the ROI at (200, 60) of 100x120 widened to 300 with an unreadable height becomes 300 wide at x = 200, outside the frame |
| Roi.Dragged | main.py:506-513 | a drag keeps the size and leaves the ROI inside the frame; the origin moves by the pointer delta when there is room, and otherwise sticks to 0 or to `320 - w` / `240 - h` |
| Roi.CropRows | main.py:540 | the row slice `y:y+h` is never cut: it yields exactly `h` rows, at least 10 |
| Roi.CropCols | main.py:540 | the column slice `x:x+w` yields between 10 and `w` columns, and exactly `w` when the ROI is inside the frame |
| Roi.Crop | main.py:540 | the crop has exactly `h` rows of `CropCols` samples, each sample is the frame sample at the ROI offset and never outside the frame, and an ROI inside the frame gives rows exactly `w` wide |
| Roi.RoiState.constructor | main.py:68-69 | the ROI starts at (80, 60), 160x120, inside the frame, with no drag in progress |
| Roi.RoiState.UpdateRoi | main.py:299-307 | the new rectangle is `Resized` of the old one and the fields' parses; the size/origin bounds are kept |
| Roi.RoiState.StartDrag | main.py:501-504 | a press inside the ROI (borders included) records the pointer; a press outside leaves `drag_start` unchanged |
| Roi.RoiState.DragRoi | main.py:506-513 | without a drag nothing changes; with one, the rectangle is `Dragged` from the recorded to the current pointer, it ends inside the frame, and the current pointer is recorded |
| Roi.RoiState.EndDrag | main.py:515-517 | releasing ends the drag |
| Detect.Binarize | main.py:547 | the mask has the magnitude's shape and a pixel is 255 exactly when its magnitude is strictly above the threshold, 0 exactly when at or below |
| Detect.CountNonZero | main.py:564 | the non-zero count never exceeds the number of pixels |
| Detect.WhiteCountsStrictlyAbove | main.py:547-564 | the white count of the mask equals the number of magnitudes strictly above the threshold (ties stay black) |
| Detect.Percent | main.py:565 | `(white / cells) * 100` times `cells` is `100 * white`; it lies in 0..100 when `white <= cells`, is 100 exactly when every pixel is white and 0 exactly when none is |
| Detect.WrinklePercent | main.py:564-565 | the wrinkle of a rows x cols mask lies in 0..100 and is `100 * countNonZero / (rows * cols)` |
| Detect.RoiWrinkle | main.py:547-565 | the wrinkle of a ROI lies in 0..100 and is the percentage of its pixels whose magnitude is strictly above the threshold |
| Detect.MinAreaValue | main.py:553-556 | the minimum area is the parsed value when non-negative, 0 when negative or unparseable, never negative |
| Detect.SurvivorsExact | main.py:558-559 | a contour survives the filter exactly when its area is strictly above the minimum, as often as it occurs in the input |
| Detect.SurvivorsShrink | main.py:558-559 | raising the minimum area never increases the defect count, and the count never exceeds the number of contours |
| Detect.Drawn | main.py:560-561 | a drawn box has the bounding box's size and is shifted by the ROI origin |
| Detect.DrawnAll | main.py:558-561 | one drawn box per contour given, in the given order |
| Detect.CountDefects | main.py:550-562 | the loop's count is the number of contours with area strictly above the minimum, and its boxes are those contours' boxes shifted by the ROI origin, in order |
| Recording.Recent | main.py:584-585 | the trimmed buffer has `min(n, 30)` entries, which are the last ones of the log in their order |
| Recording.Toggled | main.py:438-468 | starting needs a chosen path and then clears both logs, sets the capture directory and starts recording; a cancelled dialog changes nothing; stopping only clears the flag; the dedup key is never touched |
| Recording.Appended | main.py:574-582 | appending keeps the recording flag and the capture directory |
| Recording.Recorded | main.py:574-585 | a tick keeps the recording flag and the capture directory and leaves at most 30 chart entries |
| Recording.RecentTwice | main.py:584-585 | trimming is idempotent |
| Recording.RecentAppend | main.py:577-585 | appending to the trimmed buffer and trimming again equals trimming the full log plus the sample |
| Recording.InitialConsistent | main.py:59-61 | the start-up state satisfies the session invariant |
| Recording.ToggledKeepsConsistent | main.py:459-461 | starting or stopping keeps the session invariant |
| Recording.SecondsChangeAppend | main.py:576-577 | appending a sample whose second differs from the last one keeps neighbouring seconds distinct |
| Recording.RecordedKeepsConsistent | main.py:574-585 | a tick keeps the session invariant: the chart buffer is the last 30 log entries, neighbouring samples differ in their second, the dedup key is the last sample's time |
| Recording.RecordedAppendsIffDue | main.py:574-582 | a tick appends the same sample to both logs and updates the dedup key exactly when recording in a new second; otherwise both logs and the key are unchanged |
| Recording.SameSecondAppendsOnce | main.py:576 | two ticks in the same second log at most one sample |
| Recording.RestartInSameSecondSkips | main.py:576 | after a stop and a restart, a tick in the same second as the previous session's last sample logs nothing |
| Recording.OneSamplePerSecond | main.py:576-582 | with a clock that never goes back, the logged samples' seconds strictly increase: at most one sample per second |
| Recording.Recorder.constructor | main.py:59-66 | the session starts stopped, with empty logs, no dedup key and no capture directory, and satisfies the invariant |
| Recording.Recorder.ToggleRecord | main.py:438-468 | the new session state is `Toggled` of the old one; the invariant is kept |
| Recording.Recorder.RecordTick | main.py:574-585 | the new session state is `Recorded` of the old one for the tick's metrics and clock; the invariant is kept |
| Trigger.Parsed | main.py:610-619 | count and sustain time are the parsed values when both parse and are both 9999 otherwise; the cooldown is the parsed value or 10 |
| Trigger.Step | main.py:623-638 | a capture sets `last_capture_time` to now and keeps the start time; the well-formedness "armed implies a last capture time" is preserved; a due capture without a second-camera frame is skipped (see Findings) |
| Trigger.FiresIff | main.py:623-636 | a capture happens exactly when recording, the count is at or above the threshold, the timer was already armed, the sustain time has passed, the cooldown since the last capture has passed, the capture directory is set and the second camera delivered a frame |
| Trigger.ArmingTickNeverFires | main.py:623-626 | the tick that arms records now as the start, resets the last capture time to 0 and does not capture |
| Trigger.DisarmsWhenNotQualifying | main.py:623-638 | not recording, or a count below the threshold, disarms and keeps the last capture time, without capturing |
| Trigger.ArmedTimerHasLastCapture | main.py:627-636 | for an armed timer the last capture time only changes by a capture, so the `hasattr` fallback is never needed |
| Trigger.CapturesSpacedByGap | main.py:627-636 | while the condition holds, every capture comes at least the sustain time after arming, the first at least the cooldown after the previous capture, and each later one at least the cooldown after the one before |
| Trigger.SustainedRunFromIdle | main.py:623-636 | from an idle timer under a steady condition, every capture is at least the sustain time after the first tick, and captures are at least the cooldown apart |
| Trigger.DipClearsCooldown | main.py:623-638 | with a 10 s cooldown and no sustain time, one tick below the threshold lets two captures come 3 ms apart, where the same run without the dip captures once |
| Trigger.SkippedCaptureRetried | main.py:601-636 | a capture that is due but has no second-camera frame is not taken, and the next tick with a frame, no earlier and under the same condition, takes it |
| Trigger.StepAsWritten | main.py:601-639 | the code as written halts only on a tick without a second-camera frame |
| Trigger.AsWrittenHaltsOnlyOnMissingFrame | main.py:601-639 | the code as written stops the loop exactly when a capture is due and the second camera gave no frame; on every other tick it does what the skipping trigger `Step` does |
| Trigger.MissingFrameHaltsLoop | main.py:601-639 | armed at 0 with no sustain time and a 10 s cooldown, a tick at 20 s without a second-camera frame halts the code as written, and the skipping trigger does not capture |
| Trigger.TriggerTimer.constructor | main.py:624-629 | before the first tick neither timer attribute exists |
| Trigger.TriggerTimer.Evaluate | main.py:610-638 | the new timer and the capture decision are `Step` of the old timer under the parsed thresholds and the second camera's frame status; an armed timer always has a last capture time |
| Pipeline.UpdateFrame | main.py:538-638 | one tick reports the filtered contour count and its boxes, the wrinkle percentage of the clipped crop, leaves the session in `Recorded` state and the timer in `Step` state (reading the recording flag and capture directory as they were), and keeps all invariants |

## Left out

- The Tk user interface: widgets, labels, the status line, the buttons' texts and the parameter sliders. Their values are inputs.
- The live chart (`show_chart`, `update_chart`) and the mosaic of the four views shown on screen: display only.
- Camera I/O: opening, reading and resizing frames. A failed read of the first camera ends the tick early, and the model starts from the resized grey frame. Whether the second camera delivered a frame is the input `frameOk` (`frame2Ok` in `Pipeline.UpdateFrame`).
- `cv2.Sobel`, `cv2.magnitude`, the 8-bit clip, `cv2.findContours`, `cv2.contourArea` and `cv2.boundingRect`: OpenCV is foreign code. Its results are inputs: the clipped magnitude of the crop, and per contour the area and the bounding box.
- Drawing on the annotated frame: only the rectangles' coordinates are modelled. The ROI outline at main.py:567 and the frame copy kept for saving are left out.
- File writes: the log header and log lines, the float and time formatting, `localtime`, `os.makedirs` and the saved capture's file name and `cv2.imwrite`. A capture is the `fired`/`captured` result. Writing a capture is taken to succeed whenever a frame exists; disk errors in `cv2.imwrite` are not modelled. I/O errors in `toggle_record` are not modelled.
- The save dialog: only whether it returned a path is an input.
- Saving and loading the configuration, memory and CPU monitoring (`psutil`, `gc`), and the scheduling with `root.after`: side concerns outside the core.
- Detect.Percent: uses exact rational arithmetic, not 64-bit floating point, so rounding of `white / cells * 100` is not modelled.
- Trigger.Step: clock readings are whole milliseconds, not floating-point seconds, so sub-millisecond comparisons are not modelled.
- Trigger.TriggerTimer.Evaluate: the `hasattr` fallback for `last_capture_time` (main.py:628-629) is not written out. It is dead code: an armed timer always has the attribute (`Trigger.ArmedTimerHasLastCapture`).
- Detect.WrinklePercent: the division by zero of an empty mask is not modelled, because the crop is never empty (`Roi.CropRows`, `Roi.CropCols`).
- Pipeline.UpdateFrame: uses the skipping trigger `Trigger.Step`, not the halting code as written (see Findings).

## Findings

| source | as written | input that shows it | evidently intended | confidence | as-written member | corrected member |
|---|---|---|---|---|---|---|
| main.py:601-639 | when the second camera returns no frame, `frame2` stays `None`. A capture due on that tick calls `cv2.imwrite(path, None)`, which raises. So `last_capture_time = now` and `root.after(50, update_frame)` never run, and the tick loop stops for good | trigger armed at 0 with sustain 0 and cooldown 10 s, a tick at 20 s with 7 defects against a threshold of 6, a capture directory set and no second-camera frame | a failed acquisition is skipped and the loop keeps ticking: no capture on that tick, the cooldown left as it was, and the capture taken at the next tick that has a frame | medium, not executed | Trigger.StepAsWritten, Trigger.MissingFrameHaltsLoop, Trigger.AsWrittenHaltsOnlyOnMissingFrame | Trigger.Step, Trigger.SkippedCaptureRetried |
