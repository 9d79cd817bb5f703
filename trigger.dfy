/**
  The capture trigger of `update_frame`: while recording, once the defect
  count has stayed at or above a threshold for long enough, a frame of the
  second camera is captured, at most once per cooldown. Its state is the
  pair of attributes `start_time` and `last_capture_time` hung on
  `update_frame`; times are wall-clock milliseconds and the thresholds are
  whole seconds.
*/
module Trigger {
  import opened Common

  /** The value used for both the count and the sustain time when either field does not parse. */
  const Disabled: int := 9999
  /** The cooldown used when its field does not parse. */
  const DefaultGap: int := 10

  /** `trigger_count`, `trigger_time` (seconds) and `capture_gap` (seconds) as read this tick. */
  datatype Thresholds = Thresholds(count: int, sustain: int, gap: int)

  /**
    The two `try` blocks: count and sustain time are parsed together and both
    fall back to 9999 if either fails; the cooldown falls back to 10 alone.
  */
  function Parsed(countText: Option<int>, timeText: Option<int>, gapText: Option<int>): (p: Thresholds)
    ensures countText.Some? && timeText.Some? ==> p.count == countText.value && p.sustain == timeText.value
    ensures countText.None? || timeText.None? ==> p.count == Disabled && p.sustain == Disabled
    ensures gapText.Some? ==> p.gap == gapText.value
    ensures gapText.None? ==> p.gap == DefaultGap
  {
    var (count, sustain) :=
      if countText.Some? && timeText.Some? then (countText.value, timeText.value) else (Disabled, Disabled);
    Thresholds(count, sustain, if gapText.Some? then gapText.value else DefaultGap)
  }

  /**
    `start_time` (None when the attribute is absent or None) and
    `last_capture_time` (None while the attribute is absent).
  */
  datatype Timer = Timer(startTime: Option<nat>, lastCapture: Option<nat>)

  datatype Decision = Decision(timer: Timer, fired: bool)

  /** Once armed, the timer always has a last capture time (arming sets it to 0). */
  predicate WellFormed(t: Timer)
  {
    t.startTime.Some? ==> t.lastCapture.Some?
  }

  /** `last_capture_time` as the cooldown test reads it, an absent attribute being set to 0 first. */
  function LastOrZero(t: Timer): nat
  {
    if t.lastCapture.Some? then t.lastCapture.value else 0
  }

  /**
    One evaluation of the trigger. `now` is the tick's clock reading in
    milliseconds, `dirSet` says whether `screenshot_dir` has been set and
    `frameOk` whether the second camera delivered a frame this tick. A
    capture that is due without a frame is skipped like one without a
    directory: the cooldown is left as it was and the loop goes on.
  */
  function Step(t: Timer, recording: bool, defects: nat, p: Thresholds, now: nat, dirSet: bool, frameOk: bool)
    : (d: Decision)
    ensures d.fired ==> d.timer.lastCapture == Some(now) && d.timer.startTime == t.startTime
    ensures WellFormed(t) ==> WellFormed(d.timer)
  {
    if recording && defects >= p.count then
      if t.startTime.None? then
        Decision(Timer(Some(now), Some(0)), false)
      else if now - t.startTime.value >= 1000 * p.sustain then
        var last := LastOrZero(t);
        if now - last >= 1000 * p.gap && dirSet && frameOk then
          Decision(Timer(t.startTime, Some(now)), true)
        else
          Decision(Timer(t.startTime, Some(last)), false)
      else
        Decision(t, false)
    else
      Decision(t.(startTime := None), false)
  }

  /**
    A capture happens exactly when recording, the count is at or above the
    threshold, the timer was already armed, the sustain time has passed, the
    cooldown since the last capture has passed and the capture directory is set.
  */
  lemma FiresIff(t: Timer, recording: bool, defects: nat, p: Thresholds, now: nat, dirSet: bool, frameOk: bool)
    ensures Step(t, recording, defects, p, now, dirSet, frameOk).fired <==>
      && recording && defects >= p.count
      && t.startTime.Some? && now - t.startTime.value >= 1000 * p.sustain
      && now - LastOrZero(t) >= 1000 * p.gap
      && dirSet && frameOk
  {
  }

  /** The tick that arms the timer never captures, even with a sustain time of 0, and it clears the cooldown. */
  lemma ArmingTickNeverFires(t: Timer, defects: nat, p: Thresholds, now: nat, dirSet: bool,
                             frameOk: bool)
    requires t.startTime.None? && defects >= p.count
    ensures Step(t, true, defects, p, now, dirSet, frameOk) == Decision(Timer(Some(now), Some(0)), false)
  {
  }

  /** Not recording, or a count below the threshold, disarms the timer and keeps the last capture time. */
  lemma DisarmsWhenNotQualifying(t: Timer, recording: bool, defects: nat, p: Thresholds, now: nat,
                                 dirSet: bool, frameOk: bool)
    requires !recording || defects < p.count
    ensures Step(t, recording, defects, p, now, dirSet, frameOk) == Decision(Timer(None, t.lastCapture), false)
  {
  }

  /** For an armed, well-formed timer the `hasattr` fallback for `last_capture_time` is never taken. */
  lemma ArmedTimerHasLastCapture(t: Timer, defects: nat, p: Thresholds, now: nat, dirSet: bool,
                                 frameOk: bool)
    requires WellFormed(t) && t.startTime.Some?
    ensures var d := Step(t, true, defects, p, now, dirSet, frameOk);
      d.timer.lastCapture == t.lastCapture || (d.fired && d.timer.lastCapture == Some(now))
  {
  }

  /**
    A missing frame is skipped, not lost: when the capture was due but the
    second camera gave no frame, the next tick that has one, no earlier and
    under the same condition, captures.
  */
  lemma SkippedCaptureRetried(t: Timer, defects: nat, p: Thresholds, now: nat, later: nat)
    requires Step(t, true, defects, p, now, true, true).fired
    requires now <= later
    ensures !Step(t, true, defects, p, now, true, false).fired
    ensures Step(Step(t, true, defects, p, now, true, false).timer, true, defects, p, later, true, true).fired
  {
  }

  /** How a tick of `update_frame` ends: it schedules the next one, or an exception ends the loop. */
  datatype Outcome = Continued(d: Decision) | Halted

  /**
    The trigger as written: it never looks at whether the second camera
    delivered a frame. When a capture is due without one, `cv2.imwrite`
    raises on the empty image, so neither `last_capture_time = now` nor
    `root.after(50, update_frame)` runs and no further tick is scheduled.
  */
  function StepAsWritten(t: Timer, recording: bool, defects: nat, p: Thresholds, now: nat, dirSet: bool,
                         frameOk: bool): (o: Outcome)
    ensures o.Halted? ==> !frameOk
  {
    var d := Step(t, recording, defects, p, now, dirSet, true);
    if d.fired && !frameOk then Halted else Continued(d)
  }

  /**
    The code as written and the skipping trigger agree on every tick but
    one kind: a due capture without a frame, where the code as written stops.
  */
  lemma AsWrittenHaltsOnlyOnMissingFrame(t: Timer, recording: bool, defects: nat, p: Thresholds, now: nat,
                                         dirSet: bool, frameOk: bool)
    ensures StepAsWritten(t, recording, defects, p, now, dirSet, frameOk).Halted? <==>
      !frameOk && Step(t, recording, defects, p, now, dirSet, true).fired
    ensures StepAsWritten(t, recording, defects, p, now, dirSet, frameOk).Continued? ==>
      StepAsWritten(t, recording, defects, p, now, dirSet, frameOk).d ==
        Step(t, recording, defects, p, now, dirSet, frameOk)
  {
  }

  /**
    A concrete halt: armed at time 0 with no sustain time and a 10 s
    cooldown, a tick at 20 s with a capture directory but no second-camera
    frame ends the loop.
  */
  lemma MissingFrameHaltsLoop()
    ensures StepAsWritten(Timer(Some(0), Some(0)), true, 7, Thresholds(6, 0, 10), 20000, true, false) == Halted
    ensures !Step(Timer(Some(0), Some(0)), true, 7, Thresholds(6, 0, 10), 20000, true, false).fired
  {
  }

  /** The inputs of one tick. */
  datatype Tick = Tick(recording: bool, defects: nat, p: Thresholds, now: nat, dirSet: bool, frameOk: bool)

  datatype RunResult = RunResult(timer: Timer, fires: seq<nat>)

  /** A sequence of ticks: the final timer and the times at which captures fired. */
  function Run(t: Timer, ticks: seq<Tick>): (r: RunResult)
    ensures |r.fires| <= |ticks|
    decreases |ticks|
  {
    if ticks == [] then RunResult(t, [])
    else
      var k := ticks[0];
      var d := Step(t, k.recording, k.defects, k.p, k.now, k.dirSet, k.frameOk);
      var rest := Run(d.timer, ticks[1..]);
      RunResult(rest.timer, (if d.fired then [k.now] else []) + rest.fires)
  }

  /** A tick that keeps the trigger condition true under fixed thresholds `p`. */
  predicate Qualifying(k: Tick, p: Thresholds)
  {
    k.recording && k.p == p && k.defects >= p.count
  }

  /**
    While the condition holds without a dip, every capture comes at least the
    sustain time after arming, the first at least the cooldown after the last
    capture before the run, and each later one at least the cooldown after
    the previous one.
  */
  lemma {:induction false} CapturesSpacedByGap(t: Timer, ticks: seq<Tick>, p: Thresholds)
    requires t.startTime.Some? && t.lastCapture.Some?
    requires forall i :: 0 <= i < |ticks| ==> Qualifying(ticks[i], p)
    ensures var fires := Run(t, ticks).fires;
      && (forall i :: 0 <= i < |fires| ==> fires[i] - t.startTime.value >= 1000 * p.sustain)
      && (|fires| > 0 ==> fires[0] - t.lastCapture.value >= 1000 * p.gap)
      && (forall i :: 0 < i < |fires| ==> fires[i] - fires[i - 1] >= 1000 * p.gap)
    decreases |ticks|
  {
    if ticks != [] {
      var k := ticks[0];
      var d := Step(t, k.recording, k.defects, k.p, k.now, k.dirSet, k.frameOk);
      assert d.timer.startTime == t.startTime && d.timer.lastCapture.Some?;
      assert forall i :: 0 <= i < |ticks[1..]| ==> Qualifying(ticks[1..][i], p);
      CapturesSpacedByGap(d.timer, ticks[1..], p);
      var rest := Run(d.timer, ticks[1..]).fires;
      if d.fired {
        FiresIff(t, k.recording, k.defects, k.p, k.now, k.dirSet, k.frameOk);
        assert Run(t, ticks).fires == [k.now] + rest;
      } else {
        assert d.timer.lastCapture == t.lastCapture;
        assert Run(t, ticks).fires == rest;
      }
    }
  }

  /**
    A run of ticks that keep the condition true from an idle timer: the first
    tick only arms, every capture waits the sustain time from that tick, and
    captures are at least the cooldown apart.
  */
  lemma SustainedRunFromIdle(t: Timer, ticks: seq<Tick>, p: Thresholds)
    requires t.startTime.None?
    requires |ticks| > 0 && forall i :: 0 <= i < |ticks| ==> Qualifying(ticks[i], p)
    ensures var fires := Run(t, ticks).fires;
      && (forall i :: 0 <= i < |fires| ==> fires[i] - ticks[0].now >= 1000 * p.sustain)
      && (forall i :: 0 < i < |fires| ==> fires[i] - fires[i - 1] >= 1000 * p.gap)
  {
    var k := ticks[0];
    var armed := Timer(Some(k.now), Some(0));
    assert Step(t, k.recording, k.defects, k.p, k.now, k.dirSet, k.frameOk) == Decision(armed, false);
    assert forall i :: 0 <= i < |ticks[1..]| ==> Qualifying(ticks[1..][i], p);
    CapturesSpacedByGap(armed, ticks[1..], p);
    assert Run(t, ticks).fires == Run(armed, ticks[1..]).fires;
  }

  /**
    A single tick below the threshold re-arms with `last_capture_time = 0`,
    so the cooldown does not survive it: with a 10 s cooldown and no sustain
    time, captures 3 ms apart, where the same ticks without the dip capture once.
  */
  lemma DipClearsCooldown()
    ensures var p := Thresholds(6, 0, 10);
      && Run(Timer(None, None),
             [Tick(true, 7, p, 100000, true, true), Tick(true, 7, p, 100001, true, true), Tick(true, 5, p, 100002, true, true),
              Tick(true, 7, p, 100003, true, true), Tick(true, 7, p, 100004, true, true)]).fires == [100001, 100004]
      && Run(Timer(None, None),
             [Tick(true, 7, p, 100000, true, true), Tick(true, 7, p, 100001, true, true), Tick(true, 7, p, 100002, true, true),
              Tick(true, 7, p, 100003, true, true), Tick(true, 7, p, 100004, true, true)]).fires == [100001]
  {
    var p := Thresholds(6, 0, 10);
    var a, b, c, d, e := Tick(true, 7, p, 100000, true, true), Tick(true, 7, p, 100001, true, true),
      Tick(true, 5, p, 100002, true, true), Tick(true, 7, p, 100003, true, true), Tick(true, 7, p, 100004, true, true);
    var c' := Tick(true, 7, p, 100002, true, true);
    var armed, fired := Timer(Some(100000), Some(0)), Timer(Some(100000), Some(100001));
    // with the dip: arm, capture, disarm, re-arm with the cooldown cleared, capture again
    var dipped, rearmed := Timer(None, Some(100001)), Timer(Some(100003), Some(0));
    assert Run(Timer(Some(100003), Some(100004)), []).fires == [];
    assert Run(rearmed, [e]).fires == [100004];
    assert Run(dipped, [d, e]).fires == [100004];
    assert Run(fired, [c, d, e]).fires == [100004];
    assert Run(armed, [b, c, d, e]).fires == [100001, 100004];
    assert [a, b, c, d, e][1..] == [b, c, d, e];
    // without the dip: the cooldown holds back every later tick
    assert Run(fired, []).fires == [];
    assert Run(fired, [e]).fires == [];
    assert Run(fired, [d, e]).fires == [];
    assert Run(fired, [c', d, e]).fires == [];
    assert Run(armed, [b, c', d, e]).fires == [100001];
    assert [a, b, c', d, e][1..] == [b, c', d, e];
  }

  /** The attributes `update_frame.start_time` and `update_frame.last_capture_time`. */
  class TriggerTimer {
    var startTime: Option<nat>
    var lastCaptureTime: Option<nat>

    function State(): Timer
      reads this
    {
      Timer(startTime, lastCaptureTime)
    }

    predicate Valid()
      reads this
    {
      WellFormed(State())
    }

    /** Before the first tick neither attribute exists. */
    constructor ()
      ensures Valid() && State() == Timer(None, None)
    {
      startTime, lastCaptureTime := None, None;
    }

    /**
      The trigger block of `update_frame`: read the three fields, then arm,
      capture or disarm. Returns whether the second camera's frame was saved.
    */
    method Evaluate(recording: bool, defects: nat, countText: Option<int>, timeText: Option<int>,
                    gapText: Option<int>, now: nat, dirSet: bool, frameOk: bool) returns (fired: bool)
      requires Valid()
      modifies this
      ensures Valid()
      ensures Decision(State(), fired) ==
        Step(old(State()), recording, defects, Parsed(countText, timeText, gapText), now, dirSet, frameOk)
    {
      var p := Parsed(countText, timeText, gapText);
      fired := false;
      if recording && defects >= p.count {
        if startTime.None? {
          startTime := Some(now);
          lastCaptureTime := Some(0);
        } else if now - startTime.value >= 1000 * p.sustain {
          if now - lastCaptureTime.value >= 1000 * p.gap {
            if dirSet && frameOk {
              lastCaptureTime := Some(now);
              fired := true;
            }
          }
        }
      } else {
        startTime := None;
      }
    }
  }
}
