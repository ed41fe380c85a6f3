// The speedrun timer: a stopwatch state machine with cumulative split and
// per-segment duration records. Wall-clock readings are integer milliseconds
// passed in as `now`.

module Timer {
  import opened TimerState

  /** The snapshot sent to observers on every tick. */
  datatype TickData = TickData(
    elapsedMS: int,
    state: string,
    currentSegment: int,
    splitTimesMS: seq<int>,
    segmentTimesMS: seq<int>,
    splitNames: seq<string>)

  /** The split before index i, or 0 before the first one. */
  function PreviousSplit(splits: seq<int>, i: nat): int
    requires i < |splits|
  {
    if i == 0 then 0 else splits[i - 1]
  }

  /** Every duration entry is either an explicit skip (both entries 0) or the
      cumulative split minus the one before it. */
  ghost predicate DurationsMatch(splits: seq<int>, segs: seq<int>) {
    |splits| == |segs| &&
    forall i {:trigger segs[i]} :: 0 <= i < |splits| ==>
      (splits[i] == 0 && segs[i] == 0) || segs[i] == splits[i] - PreviousSplit(splits, i)
  }

  /** Recorded splits are never negative and never drop below an earlier one,
      zeros (skips) aside. */
  ghost predicate NonDecreasingSplits(splits: seq<int>) {
    (forall i :: 0 <= i < |splits| ==> splits[i] >= 0) &&
    (forall i, j :: 0 <= i < j < |splits| && splits[j] != 0 ==> splits[i] <= splits[j])
  }

  /** All recorded splits are at most the given elapsed time. */
  ghost predicate SplitsAtMost(splits: seq<int>, elapsed: int) {
    forall i :: 0 <= i < |splits| ==> splits[i] <= elapsed
  }

  /** Appending a split taken at `elapsed`, no earlier than every recorded
      one, keeps the records consistent. */
  lemma AppendSplitKeepsRecords(splits: seq<int>, segs: seq<int>, elapsed: int)
    requires DurationsMatch(splits, segs) && NonDecreasingSplits(splits)
    requires SplitsAtMost(splits, elapsed) && elapsed >= 0
    ensures var previous := if splits == [] then 0 else splits[|splits| - 1];
      DurationsMatch(splits + [elapsed], segs + [elapsed - previous]) &&
      NonDecreasingSplits(splits + [elapsed]) &&
      SplitsAtMost(splits + [elapsed], elapsed)
  {
    var previous := if splits == [] then 0 else splits[|splits| - 1];
    DurationsAppend(splits, segs, elapsed, elapsed - previous);
    NonDecreasingAppend(splits, elapsed);
    AtMostAppend(splits, elapsed);
  }

  lemma DurationsAppend(splits: seq<int>, segs: seq<int>, x: int, d: int)
    requires DurationsMatch(splits, segs)
    requires d == x - (if splits == [] then 0 else splits[|splits| - 1])
    ensures DurationsMatch(splits + [x], segs + [d])
  {
    var s, t := splits + [x], segs + [d];
    forall i | 0 <= i < |s|
      ensures (s[i] == 0 && t[i] == 0) || t[i] == s[i] - PreviousSplit(s, i)
    {
      if i < |splits| {
        assert s[i] == splits[i] && t[i] == segs[i];
        assert PreviousSplit(s, i) == PreviousSplit(splits, i);
      } else {
        assert PreviousSplit(s, i) == (if splits == [] then 0 else splits[|splits| - 1]);
      }
    }
  }

  lemma NonDecreasingAppend(splits: seq<int>, x: int)
    requires NonDecreasingSplits(splits) && SplitsAtMost(splits, x) && x >= 0
    ensures NonDecreasingSplits(splits + [x])
  {
    var s := splits + [x];
    forall i, j | 0 <= i < j < |s| && s[j] != 0
      ensures s[i] <= s[j]
    {
      assert s[i] == splits[i];
      if j < |splits| {
        assert s[j] == splits[j];
      }
    }
    assert forall i :: 0 <= i < |s| ==> s[i] >= 0 by {
      forall i | 0 <= i < |s| ensures s[i] >= 0 {
        if i < |splits| { assert s[i] == splits[i]; }
      }
    }
  }

  lemma AtMostAppend(splits: seq<int>, x: int)
    requires SplitsAtMost(splits, x)
    ensures SplitsAtMost(splits + [x], x)
  {
    var s := splits + [x];
    forall i | 0 <= i < |s| ensures s[i] <= x {
      if i < |splits| { assert s[i] == splits[i]; }
    }
  }

  /** What Restore needs of its arguments for the restored run to be consistent. */
  ghost predicate RestorableRun(elapsedMS: int, currentSegment: int, splits: seq<int>,
                                segs: seq<int>, segmentCount: nat)
  {
    elapsedMS >= 0 && currentSegment == |splits| &&
    (currentSegment < segmentCount || currentSegment == 0) &&
    DurationsMatch(splits, segs) && NonDecreasingSplits(splits) &&
    SplitsAtMost(splits, elapsedMS)
  }

  class Engine {
    var state: State
    var startTime: int
    var pauseTime: int
    var pauseAccum: int
    var segmentNames: seq<string>
    var splitTimesMS: seq<int>     // cumulative split times
    var segmentTimesMS: seq<int>   // individual segment durations
    var currentSegment: int
    var sampling: bool             // the periodic sampler (ticker) is running
    ghost var lastNow: int         // latest clock reading an operation acted on

    /** The invariant every engine keeps. */
    ghost predicate Valid()
      reads this
    {
      IsKnown(state) &&
      (sampling <==> state == Running) &&
      (state == Idle ==> currentSegment == 0 && splitTimesMS == [] && segmentTimesMS == [])
    }

    /** The invariant of a run begun by Start (or restored from consistent data),
        given a clock that does not go backwards. */
    ghost predicate RunConsistent()
      reads this
    {
      |splitTimesMS| == currentSegment &&
      DurationsMatch(splitTimesMS, segmentTimesMS) &&
      NonDecreasingSplits(splitTimesMS) &&
      (state == Running ==>
        startTime + pauseAccum <= lastNow &&
        SplitsAtMost(splitTimesMS, lastNow - startTime - pauseAccum)) &&
      (state == Paused ==>
        startTime + pauseAccum <= pauseTime <= lastNow &&
        SplitsAtMost(splitTimesMS, pauseTime - startTime - pauseAccum)) &&
      (state == Running || state == Paused ==>
        currentSegment < |segmentNames| || currentSegment == 0) &&
      (state == Finished ==> currentSegment >= |segmentNames|)
    }

    /** A fresh engine: Idle (the zero state), nothing recorded. */
    constructor (segmentNames: seq<string>)
      ensures Valid() && RunConsistent()
      ensures state == Idle && this.segmentNames == segmentNames
      ensures currentSegment == 0 && splitTimesMS == [] && segmentTimesMS == []
      ensures !sampling
    {
      state := Idle;
      startTime, pauseTime, pauseAccum := 0, 0, 0;
      this.segmentNames := segmentNames;
      splitTimesMS, segmentTimesMS := [], [];
      currentSegment := 0;
      sampling := false;
    }

    /** Elapsed milliseconds of the run as seen at clock reading `now`. */
    function ElapsedMS(now: int): int
      reads this
    {
      if state == Idle then 0
      else if state == Running then now - startTime - pauseAccum
      else if state == Paused then pauseTime - startTime - pauseAccum
      else if state == Finished then
        (if |splitTimesMS| > 0 then splitTimesMS[|splitTimesMS| - 1] else 0)
      else 0
    }

    /** The tick payload: copies of the recorded data and the state's name. */
    function GetTickData(now: int): (t: TickData)
      reads this
      ensures t.elapsedMS == ElapsedMS(now) && t.state == StateString(state)
      ensures t.currentSegment == currentSegment && t.splitNames == segmentNames
      ensures t.splitTimesMS == splitTimesMS && t.segmentTimesMS == segmentTimesMS
    {
      TickData(ElapsedMS(now), StateString(state), currentSegment,
               splitTimesMS, segmentTimesMS, segmentNames)
    }

    /** Replaces the segment names; ignored outside Idle. */
    method SetSegments(names: seq<string>)
      requires Valid()
      modifies this
      ensures Valid()
      ensures segmentNames == if old(state) == Idle then names else old(segmentNames)
      ensures state == old(state) && currentSegment == old(currentSegment)
      ensures splitTimesMS == old(splitTimesMS) && segmentTimesMS == old(segmentTimesMS)
      ensures startTime == old(startTime) && pauseTime == old(pauseTime)
      ensures pauseAccum == old(pauseAccum) && sampling == old(sampling) && lastNow == old(lastNow)
      ensures old(RunConsistent()) ==> RunConsistent()
    {
      if state != Idle {
        return;
      }
      segmentNames := names;
    }

    /** Starts a run at clock reading `now`; ignored outside Idle. */
    method Start(now: int)
      requires Valid()
      modifies this
      ensures Valid()
      ensures old(state) != Idle ==> unchanged(this)
      ensures old(state) == Idle ==>
        state == Running && startTime == now && pauseAccum == 0 &&
        currentSegment == 0 && splitTimesMS == [] && segmentTimesMS == [] &&
        sampling && lastNow == now && ElapsedMS(now) == 0 &&
        pauseTime == old(pauseTime) && segmentNames == old(segmentNames)
      ensures old(state) == Idle ==> RunConsistent()
    {
      if state != Idle {
        return;
      }
      state := Running;
      startTime := now;
      pauseAccum := 0;
      currentSegment := 0;
      splitTimesMS := [];
      segmentTimesMS := [];
      sampling := true;
      lastNow := now;
    }

    /** Records the current segment's time at clock reading `now`; ignored
        outside Running. Finishes the run after the last segment. */
    method Split(now: int)
      requires Valid()
      requires state == Running ==> now >= lastNow
      modifies this
      ensures Valid()
      ensures old(state) != Running ==> unchanged(this)
      ensures old(state) == Running ==>
        var elapsed := now - startTime - pauseAccum;
        var previous := if old(splitTimesMS) == [] then 0 else old(splitTimesMS)[|old(splitTimesMS)| - 1];
        elapsed == old(ElapsedMS(now)) &&
        splitTimesMS == old(splitTimesMS) + [elapsed] &&
        segmentTimesMS == old(segmentTimesMS) + [elapsed - previous] &&
        currentSegment == old(currentSegment) + 1 &&
        (state == Finished <==> currentSegment >= |segmentNames|) &&
        (state != Finished ==> state == Running) &&
        startTime == old(startTime) && pauseTime == old(pauseTime) &&
        pauseAccum == old(pauseAccum) && segmentNames == old(segmentNames) &&
        lastNow == now
      ensures old(RunConsistent()) ==> RunConsistent()
    {
      if state != Running {
        return;
      }
      RecordSplit(now);
    }

    /** The recording half of Split, in Running. */
    method RecordSplit(now: int)
      requires Valid() && state == Running && now >= lastNow
      modifies this
      ensures Valid()
      ensures var elapsed := now - startTime - pauseAccum;
        var previous := if old(splitTimesMS) == [] then 0 else old(splitTimesMS)[|old(splitTimesMS)| - 1];
        elapsed == old(ElapsedMS(now)) &&
        splitTimesMS == old(splitTimesMS) + [elapsed] &&
        segmentTimesMS == old(segmentTimesMS) + [elapsed - previous] &&
        currentSegment == old(currentSegment) + 1 &&
        (state == Finished <==> currentSegment >= |segmentNames|) &&
        (state != Finished ==> state == Running) &&
        startTime == old(startTime) && pauseTime == old(pauseTime) &&
        pauseAccum == old(pauseAccum) && segmentNames == old(segmentNames) &&
        lastNow == now
      ensures old(RunConsistent()) ==> RunConsistent()
    {
      var elapsed := ElapsedMS(now);
      var previous := if splitTimesMS == [] then 0 else splitTimesMS[|splitTimesMS| - 1];
      if RunConsistent() {
        AppendSplitKeepsRecords(splitTimesMS, segmentTimesMS, elapsed);
      }
      splitTimesMS := splitTimesMS + [elapsed];
      segmentTimesMS := segmentTimesMS + [elapsed - previous];
      currentSegment := currentSegment + 1;
      lastNow := now;
      if currentSegment >= |segmentNames| {
        state := Finished;
        sampling := false;
      }
    }

    /** Skips the current segment, recording 0 in both arrays; ignored outside
        Running. Finishes the run after the last segment. */
    method SkipSplit()
      requires Valid()
      modifies this
      ensures Valid()
      ensures old(state) != Running ==> unchanged(this)
      ensures old(state) == Running ==>
        splitTimesMS == old(splitTimesMS) + [0] &&
        segmentTimesMS == old(segmentTimesMS) + [0] &&
        currentSegment == old(currentSegment) + 1 &&
        (state == Finished <==> currentSegment >= |segmentNames|) &&
        (state != Finished ==> state == Running) &&
        startTime == old(startTime) && pauseTime == old(pauseTime) &&
        pauseAccum == old(pauseAccum) && segmentNames == old(segmentNames) &&
        lastNow == old(lastNow)
      ensures old(RunConsistent()) ==> RunConsistent()
    {
      if state != Running {
        return;
      }
      splitTimesMS := splitTimesMS + [0];
      segmentTimesMS := segmentTimesMS + [0];
      currentSegment := currentSegment + 1;
      if currentSegment >= |segmentNames| {
        state := Finished;
        sampling := false;
      }
    }

    /** Drops the last recorded split; ignored unless Running with a non-zero cursor. */
    method UndoSplit()
      requires Valid()
      requires state == Running && currentSegment != 0 ==>
        |splitTimesMS| > 0 && |segmentTimesMS| > 0
      modifies this
      ensures Valid()
      ensures old(state) != Running || old(currentSegment) == 0 ==> unchanged(this)
      ensures old(state) == Running && old(currentSegment) != 0 ==>
        splitTimesMS == old(splitTimesMS)[..|old(splitTimesMS)| - 1] &&
        segmentTimesMS == old(segmentTimesMS)[..|old(segmentTimesMS)| - 1] &&
        currentSegment == old(currentSegment) - 1 &&
        state == Running && sampling &&
        startTime == old(startTime) && pauseTime == old(pauseTime) &&
        pauseAccum == old(pauseAccum) && segmentNames == old(segmentNames) &&
        lastNow == old(lastNow)
      ensures old(RunConsistent()) ==> RunConsistent()
    {
      if state != Running || currentSegment == 0 {
        return;
      }
      splitTimesMS := splitTimesMS[..|splitTimesMS| - 1];
      segmentTimesMS := segmentTimesMS[..|segmentTimesMS| - 1];
      currentSegment := currentSegment - 1;
    }

    /** Pauses at clock reading `now`; ignored outside Running. Elapsed time
        is frozen at its value at `now`. */
    method Pause(now: int)
      requires Valid()
      requires state == Running ==> now >= lastNow
      modifies this
      ensures Valid()
      ensures old(state) != Running ==> unchanged(this)
      ensures old(state) == Running ==>
        state == Paused && pauseTime == now && !sampling &&
        (forall t :: ElapsedMS(t) == old(ElapsedMS(now))) &&
        startTime == old(startTime) && pauseAccum == old(pauseAccum) &&
        currentSegment == old(currentSegment) && segmentNames == old(segmentNames) &&
        splitTimesMS == old(splitTimesMS) && segmentTimesMS == old(segmentTimesMS) &&
        lastNow == now
      ensures old(RunConsistent()) ==> RunConsistent()
    {
      if state != Running {
        return;
      }
      state := Paused;
      pauseTime := now;
      sampling := false;
      lastNow := now;
    }

    /** Resumes at clock reading `now`; ignored outside Paused. The paused
        interval is added to the pause total, so elapsed time continues from
        the frozen value. */
    method Resume(now: int)
      requires Valid()
      requires state == Paused ==> now >= lastNow
      modifies this
      ensures Valid()
      ensures old(state) != Paused ==> unchanged(this)
      ensures old(state) == Paused ==>
        state == Running && sampling &&
        pauseAccum == old(pauseAccum) + (now - old(pauseTime)) &&
        ElapsedMS(now) == old(ElapsedMS(now)) &&
        startTime == old(startTime) && pauseTime == old(pauseTime) &&
        currentSegment == old(currentSegment) && segmentNames == old(segmentNames) &&
        splitTimesMS == old(splitTimesMS) && segmentTimesMS == old(segmentTimesMS) &&
        lastNow == now
      ensures old(RunConsistent()) ==> RunConsistent()
    {
      if state != Paused {
        return;
      }
      pauseAccum := pauseAccum + (now - pauseTime);
      state := Running;
      sampling := true;
      lastNow := now;
    }

    /** Reconstructs a paused run that had been running for `elapsedMS` at
        clock reading `now`, by back-dating the start; ignored outside Idle. */
    method Restore(now: int, elapsedMS: int, currentSegment: int,
                   splitTimesMS: seq<int>, segmentTimesMS: seq<int>)
      requires Valid()
      modifies this
      ensures Valid()
      ensures old(state) != Idle ==> unchanged(this)
      ensures old(state) == Idle ==>
        state == Paused && !sampling &&
        startTime == now - elapsedMS && pauseTime == now && pauseAccum == 0 &&
        (forall t :: ElapsedMS(t) == elapsedMS) &&
        this.currentSegment == currentSegment &&
        this.splitTimesMS == splitTimesMS && this.segmentTimesMS == segmentTimesMS &&
        segmentNames == old(segmentNames) && lastNow == now
      ensures old(state) == Idle ==>
        (RunConsistent() <==>
         RestorableRun(elapsedMS, currentSegment, splitTimesMS, segmentTimesMS, |segmentNames|))
    {
      if state != Idle {
        return;
      }
      state := Paused;
      startTime := now - elapsedMS;
      pauseTime := now;
      pauseAccum := 0;
      this.currentSegment := currentSegment;
      this.splitTimesMS := splitTimesMS;
      this.segmentTimesMS := segmentTimesMS;
      lastNow := now;
    }

    /** Abandons the run and clears its data; ignored in Idle. */
    method Reset()
      requires Valid()
      modifies this
      ensures Valid() && RunConsistent()
      ensures old(state) == Idle ==> unchanged(this)
      ensures old(state) != Idle ==>
        state == Idle && !sampling && currentSegment == 0 &&
        splitTimesMS == [] && segmentTimesMS == [] &&
        startTime == old(startTime) && pauseTime == old(pauseTime) &&
        pauseAccum == old(pauseAccum) && segmentNames == old(segmentNames) &&
        lastNow == old(lastNow)
    {
      if state == Idle {
        return;
      }
      sampling := false;
      state := Idle;
      currentSegment := 0;
      splitTimesMS := [];
      segmentTimesMS := [];
    }

    /** A copy of the recorded cumulative splits. */
    method SplitTimes() returns (r: seq<int>)
      ensures r == splitTimesMS
    {
      r := splitTimesMS;
    }

    /** A copy of the recorded segment durations. */
    method SegmentTimes() returns (r: seq<int>)
      ensures r == segmentTimesMS
    {
      r := segmentTimesMS;
    }

    /** The segment cursor. */
    method CurrentSegment() returns (r: int)
      ensures r == currentSegment
    {
      r := currentSegment;
    }

    /** The current state. */
    method CurrentState() returns (r: State)
      ensures r == state
    {
      r := state;
    }
  }

  /** In a consistent run, a split taken at a later clock reading is never
      smaller than any split already recorded. */
  lemma SplitNeverBelowRecorded(e: Engine, now: int)
    requires e.Valid() && e.RunConsistent() && e.state == Running && now >= e.lastNow
    ensures forall i :: 0 <= i < |e.splitTimesMS| ==> 0 <= e.splitTimesMS[i] <= e.ElapsedMS(now)
  {
  }

  /** In Finished, elapsed time is the last recorded split (0 when none),
      whatever the clock says. */
  lemma FinishedElapsedIsLastSplit(e: Engine, now: int)
    requires e.state == Finished
    ensures e.ElapsedMS(now) == if e.splitTimesMS == [] then 0 else e.splitTimesMS[|e.splitTimesMS| - 1]
  {
  }

  /** A split that does not finish the run, followed by an undo, restores the
      recorded arrays and the cursor. */
  method SplitThenUndo(e: Engine, now: int)
    requires e.Valid() && e.RunConsistent() && e.state == Running && now >= e.lastNow
    requires e.currentSegment + 1 < |e.segmentNames|
    modifies e
    ensures e.Valid() && e.RunConsistent() && e.state == Running
    ensures e.splitTimesMS == old(e.splitTimesMS) && e.segmentTimesMS == old(e.segmentTimesMS)
    ensures e.currentSegment == old(e.currentSegment)
  {
    e.Split(now);
    e.UndoSplit();
    assert e.splitTimesMS == old(e.splitTimesMS);
  }

  /** Pausing at `pausedAt` and resuming at `resumedAt`: afterwards, elapsed
      time at any clock reading t is what it was at the pause plus t - resumedAt,
      so the paused interval never counts. */
  method PauseThenResume(e: Engine, pausedAt: int, resumedAt: int)
    requires e.Valid() && e.state == Running && pausedAt >= e.lastNow && resumedAt >= pausedAt
    modifies e
    ensures e.Valid() && e.state == Running
    ensures forall t :: e.ElapsedMS(t) == old(e.ElapsedMS(pausedAt)) + (t - resumedAt)
  {
    e.Pause(pausedAt);
    ghost var frozen := e.ElapsedMS(resumedAt);
    e.Resume(resumedAt);
  }
}
