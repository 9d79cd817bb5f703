/**
  The recording session: the start/stop toggle, the once-per-second sample
  log (`record_log`) and the live-chart buffer of the last 30 samples
  (`display_log`), with the dedup key `last_record_time`.
*/
module Recording {
  import opened Common

  const MaxDisplay: nat := 30

  /** One `(defect_count, wrinkle, ts)` tuple; `ts` is wall-clock time in milliseconds. */
  datatype Sample = Sample(defects: nat, wrinkle: real, ts: nat)

  /** `int(ts)`: the whole second a millisecond timestamp falls in. */
  function Second(ts: nat): nat
  {
    ts / 1000
  }

  /** `display_log[-30:]` when it is longer than 30: the most recent entries in their original order. */
  function Recent(log: seq<Sample>): (r: seq<Sample>)
    ensures |r| == Min(|log|, MaxDisplay)
    ensures forall k :: 0 <= k < |r| ==> r[k] == log[|log| - |r| + k]
  {
    if |log| > MaxDisplay then log[|log| - MaxDisplay..] else log
  }

  /** The dedup test: no sample yet, or the current second differs from the last sample's. */
  predicate Due(last: Option<nat>, ts: nat)
  {
    last.None? || Second(ts) != Second(last.value)
  }

  /** The module globals the recorder owns; `screenshotDirSet` says whether `screenshot_dir` has been set. */
  datatype Session = Session(
    recording: bool,
    recordLog: seq<Sample>,
    displayLog: seq<Sample>,
    lastRecordTime: Option<nat>,
    screenshotDirSet: bool)

  /** The state at program start. */
  function Initial(): Session
  {
    Session(false, [], [], None, false)
  }

  /**
    `toggle_record`. Starting needs a log path from the save dialog
    (`pathChosen`); starting clears both logs and sets the capture
    directory. Stopping only clears the flag. Neither touches the dedup key.
  */
  function Toggled(s: Session, pathChosen: bool): (s': Session)
    ensures !s.recording && pathChosen ==>
      s'.recording && s'.recordLog == [] && s'.displayLog == [] && s'.screenshotDirSet
    ensures !s.recording && !pathChosen ==> s' == s
    ensures s.recording ==>
      !s'.recording && s'.recordLog == s.recordLog && s'.displayLog == s.displayLog
      && s'.screenshotDirSet == s.screenshotDirSet
    ensures s'.lastRecordTime == s.lastRecordTime
  {
    if !s.recording then
      if pathChosen then s.(recording := true, recordLog := [], displayLog := [], screenshotDirSet := true)
      else s
    else s.(recording := false)
  }

  /** While recording, a sample in a new second goes to both logs and becomes the dedup key. */
  function Appended(s: Session, defects: nat, wrinkle: real, ts: nat): (s': Session)
    ensures s'.recording == s.recording && s'.screenshotDirSet == s.screenshotDirSet
  {
    if s.recording && Due(s.lastRecordTime, ts) then
      var e := Sample(defects, wrinkle, ts);
      s.(recordLog := s.recordLog + [e], displayLog := s.displayLog + [e], lastRecordTime := Some(ts))
    else s
  }

  /**
    The recording part of one tick: the append above, then the chart buffer
    is cut back to its last 30 entries whether recording or not.
  */
  function Recorded(s: Session, defects: nat, wrinkle: real, ts: nat): (s': Session)
    ensures s'.recording == s.recording && s'.screenshotDirSet == s.screenshotDirSet
    ensures |s'.displayLog| <= MaxDisplay
  {
    var a := Appended(s, defects, wrinkle, ts);
    a.(displayLog := Recent(a.displayLog))
  }

  /** Neighbouring samples of the log lie in different seconds. */
  ghost predicate SecondsChange(log: seq<Sample>)
  {
    forall i :: 0 <= i < |log| - 1 ==> Second(log[i].ts) != Second(log[i + 1].ts)
  }

  /**
    The session invariant: the chart buffer is the tail of the sample log,
    neighbouring samples differ in their second, and the dedup key is the
    time of the last sample.
  */
  ghost predicate Consistent(s: Session)
  {
    && s.displayLog == Recent(s.recordLog)
    && SecondsChange(s.recordLog)
    && (s.recordLog != [] ==> s.lastRecordTime == Some(s.recordLog[|s.recordLog| - 1].ts))
  }

  lemma RecentTwice(log: seq<Sample>)
    ensures Recent(Recent(log)) == Recent(log)
  {
  }

  /** Appending to the trimmed buffer and trimming again is trimming the full log. */
  lemma RecentAppend(log: seq<Sample>, e: Sample)
    ensures Recent(Recent(log) + [e]) == Recent(log + [e])
  {
  }

  lemma InitialConsistent()
    ensures Consistent(Initial())
  {
  }

  lemma ToggledKeepsConsistent(s: Session, pathChosen: bool)
    requires Consistent(s)
    ensures Consistent(Toggled(s, pathChosen))
  {
  }

  lemma SecondsChangeAppend(log: seq<Sample>, e: Sample)
    requires SecondsChange(log)
    requires log != [] ==> Second(log[|log| - 1].ts) != Second(e.ts)
    ensures SecondsChange(log + [e])
  {
  }

  lemma RecordedKeepsConsistent(s: Session, defects: nat, wrinkle: real, ts: nat)
    requires Consistent(s)
    ensures Consistent(Recorded(s, defects, wrinkle, ts))
  {
    var s' := Recorded(s, defects, wrinkle, ts);
    if s.recording && Due(s.lastRecordTime, ts) {
      var e := Sample(defects, wrinkle, ts);
      RecentAppend(s.recordLog, e);
      SecondsChangeAppend(s.recordLog, e);
      assert s'.recordLog == s.recordLog + [e];
      assert s'.displayLog == Recent(Recent(s.recordLog) + [e]);
      assert s'.lastRecordTime == Some(ts);
    } else {
      RecentTwice(s.recordLog);
      assert s'.recordLog == s.recordLog && s'.lastRecordTime == s.lastRecordTime;
      assert s'.displayLog == Recent(Recent(s.recordLog));
    }
  }

  /** The values `update_frame` leaves in the globals are those of `Recorded`, and they keep the invariant. */
  lemma RecordTickSound(s: Session, records: seq<Sample>, shown: seq<Sample>, last: Option<nat>,
                        defects: nat, wrinkle: real, ts: nat)
    requires Consistent(s)
    requires var a := Appended(s, defects, wrinkle, ts);
      records == a.recordLog && last == a.lastRecordTime && shown == Recent(a.displayLog)
    ensures Session(s.recording, records, shown, last, s.screenshotDirSet) == Recorded(s, defects, wrinkle, ts)
    ensures Consistent(Recorded(s, defects, wrinkle, ts))
  {
    RecordedKeepsConsistent(s, defects, wrinkle, ts);
  }

  /**
    A tick appends exactly when recording and the second changed, and then
    the same sample ends both logs; otherwise the sample log is untouched.
  */
  lemma RecordedAppendsIffDue(s: Session, defects: nat, wrinkle: real, ts: nat)
    requires Consistent(s)
    ensures var s' := Recorded(s, defects, wrinkle, ts);
      && (s.recording && Due(s.lastRecordTime, ts) ==>
            && s'.recordLog == s.recordLog + [Sample(defects, wrinkle, ts)]
            && s'.displayLog[|s'.displayLog| - 1] == Sample(defects, wrinkle, ts)
            && s'.lastRecordTime == Some(ts))
      && (!(s.recording && Due(s.lastRecordTime, ts)) ==>
            s'.recordLog == s.recordLog && s'.displayLog == s.displayLog && s'.lastRecordTime == s.lastRecordTime)
  {
  }

  /** Two ticks in the same second append at most one sample. */
  lemma SameSecondAppendsOnce(s: Session, d1: nat, w1: real, t1: nat, d2: nat, w2: real, t2: nat)
    requires Consistent(s)
    requires Second(t1) == Second(t2)
    ensures |Recorded(Recorded(s, d1, w1, t1), d2, w2, t2).recordLog| <= |s.recordLog| + 1
  {
  }

  /**
    The dedup key survives a restart: a new session's first tick in the same
    second as the previous session's last sample records nothing.
  */
  lemma RestartInSameSecondSkips(s: Session, defects: nat, wrinkle: real, ts: nat)
    requires Consistent(s) && !s.recording && s.recordLog != []
    requires Second(ts) == Second(s.recordLog[|s.recordLog| - 1].ts)
    ensures Recorded(Toggled(s, true), defects, wrinkle, ts).recordLog == []
  {
  }

  /**
    With a clock that never goes back, a log whose neighbours differ in
    their second holds at most one sample per second: seconds strictly rise.
  */
  lemma {:induction false} OneSamplePerSecond(log: seq<Sample>)
    requires SecondsChange(log)
    requires forall i :: 0 <= i < |log| - 1 ==> log[i].ts <= log[i + 1].ts
    ensures forall i, j :: 0 <= i < j < |log| ==> Second(log[i].ts) < Second(log[j].ts)
  {
    if |log| > 1 {
      var init := log[..|log| - 1];
      OneSamplePerSecond(init);
      var n := |log| - 1;
      assert Second(log[n - 1].ts) <= Second(log[n].ts);
      forall i, j | 0 <= i < j < |log|
        ensures Second(log[i].ts) < Second(log[j].ts)
      {
        if j < n {
          assert init[i] == log[i] && init[j] == log[j];
        } else if i < n - 1 {
          assert init[i] == log[i] && init[n - 1] == log[n - 1];
        }
      }
    }
  }

  /**
    The globals `recording`, `record_log`, `display_log`, `screenshot_dir`
    and the attribute `update_frame.last_record_time`.
  */
  class Recorder {
    var recording: bool
    var recordLog: seq<Sample>
    var displayLog: seq<Sample>
    var lastRecordTime: Option<nat>
    var screenshotDirSet: bool

    function State(): Session
      reads this
    {
      Session(recording, recordLog, displayLog, lastRecordTime, screenshotDirSet)
    }

    ghost predicate Valid()
      reads this
    {
      Consistent(State())
    }

    constructor ()
      ensures Valid() && State() == Initial()
    {
      recording, recordLog, displayLog := false, [], [];
      lastRecordTime, screenshotDirSet := None, false;
    }

    /** `toggle_record`, with whether the save dialog returned a path as input. */
    method ToggleRecord(pathChosen: bool)
      requires Valid()
      modifies this
      ensures Valid()
      ensures State() == Toggled(old(State()), pathChosen)
    {
      ghost var before := State();
      ToggledKeepsConsistent(before, pathChosen);
      if !recording {
        if pathChosen {
          screenshotDirSet := true;
          recordLog := [];
          displayLog := [];
          recording := true;
        }
      } else {
        recording := false;
      }
      assert State() == Toggled(before, pathChosen);
    }

    /** The recording step of `update_frame` for the tick's metrics and clock reading `ts`. */
    method RecordTick(defects: nat, wrinkle: real, ts: nat)
      requires Valid()
      modifies this
      ensures Valid()
      ensures State() == Recorded(old(State()), defects, wrinkle, ts)
    {
      ghost var before := State();
      var records, shown, last := recordLog, displayLog, lastRecordTime;
      if recording && Due(last, ts) {
        var e := Sample(defects, wrinkle, ts);
        records := records + [e];
        shown := shown + [e];
        last := Some(ts);
      }
      if |shown| > MaxDisplay {
        shown := shown[|shown| - MaxDisplay..];
      }
      RecordTickSound(before, records, shown, last, defects, wrinkle, ts);
      recordLog, displayLog, lastRecordTime := records, shown, last;
    }
  }
}
