// The attempt history of one run category and the imperative operations on
// it: history queries, history edits, maintenance of the cached personal-best
// and best-segment times, and per-segment deltas for a live run.

module Split {
  import opened SplitSpec

  class Attempts {
    var id: string
    var templateId: string
    var name: string
    var categoryName: string
    var segments: seq<Segment>
    var attemptCount: int
    var history: seq<Attempt>

    /** A new aggregate with one segment per name and no attempts. */
    constructor (id: string, templateId: string, name: string, categoryName: string,
                 segmentNames: seq<string>)
      ensures this.id == id && this.templateId == templateId
      ensures this.name == name && this.categoryName == categoryName
      ensures segments == FreshSegments(segmentNames)
      ensures attemptCount == 0 && history == []
    {
      var segs: seq<Segment> := [];
      var i := 0;
      while i < |segmentNames|
        invariant 0 <= i <= |segmentNames| && |segs| == i
        invariant forall k :: 0 <= k < i ==> segs[k] == Segment(segmentNames[k], 0, 0)
      {
        segs := segs + [Segment(segmentNames[i], 0, 0)];
        i := i + 1;
      }
      this.id := id;
      this.templateId := templateId;
      this.name := name;
      this.categoryName := categoryName;
      segments := segs;
      attemptCount := 0;
      history := [];
    }

    /** The segment names, in order. */
    method SegmentNames() returns (names: seq<string>)
      ensures names == Names(segments)
    {
      names := [];
      var i := 0;
      while i < |segments|
        invariant 0 <= i <= |segments| && |names| == i
        invariant forall k :: 0 <= k < i ==> names[k] == segments[k].name
      {
        names := names + [segments[i].name];
        i := i + 1;
      }
    }

    /** Appends an attempt numbered with the incremented attempt count. */
    method AddAttempt(splitTimesMS: seq<int>, completed: bool)
      modifies this
      ensures attemptCount == old(attemptCount) + 1
      ensures history == old(history) + [Attempt(attemptCount, splitTimesMS, completed)]
      ensures segments == old(segments)
      ensures id == old(id) && templateId == old(templateId)
      ensures name == old(name) && categoryName == old(categoryName)
    {
      attemptCount := attemptCount + 1;
      history := history + [Attempt(attemptCount, splitTimesMS, completed)];
    }

    /** The split times of the personal-best attempt, None when there is none. */
    method PersonalBestSplits() returns (r: Option<seq<int>>)
      ensures r == PersonalBestSplitsOf(history)
    {
      var bestTime := 0;
      r := None;
      ghost var bestIndex: Option<nat> := None;
      var i := 0;
      while i < |history|
        invariant 0 <= i <= |history|
        invariant bestIndex == PersonalBestIndex(history[..i])
        invariant bestIndex.None? ==> r.None?
        invariant bestIndex.Some? ==>
          bestIndex.value < i && r == Some(history[bestIndex.value].splitTimesMS) &&
          bestTime == FinalTime(history[bestIndex.value])
      {
        var att := history[i];
        assert history[..i + 1][..i] == history[..i];
        if att.completed && |att.splitTimesMS| > 0 {
          var finalTime := att.splitTimesMS[|att.splitTimesMS| - 1];
          if finalTime != 0 && (r.None? || finalTime < bestTime) {
            bestTime := finalTime;
            r := Some(att.splitTimesMS);
            bestIndex := Some(i);
          }
        }
        i := i + 1;
      }
      assert history[..i] == history;
    }

    /** Cumulative times built from the cached best segments, None when some
        segment has no best recorded. */
    method BestSegmentsCumulative() returns (r: Option<seq<int>>)
      ensures r == BestSegmentsCumulativeOf(segments)
    {
      var segs := segments;
      var cumulative: seq<int> := [];
      var sum := 0;
      var i := 0;
      while i < |segs|
        invariant 0 <= i <= |segs| && |cumulative| == i
        invariant sum == SumOfBests(segs[..i])
        invariant forall k :: 0 <= k < i ==>
          segs[k].bestSegmentMS != 0 && cumulative[k] == SumOfBests(segs[..k + 1])
      {
        if segs[i].bestSegmentMS == 0 {
          return None;
        }
        assert segs[..i + 1][..i] == segs[..i];
        sum := sum + segs[i].bestSegmentMS;
        cumulative := cumulative + [sum];
        i := i + 1;
      }
      assert AllBestsRecorded(segs);
      assert cumulative == seq(|segs|, k requires 0 <= k < |segs| => SumOfBests(segs[..k + 1]));
      r := Some(cumulative);
    }

    /** Per-segment integer mean of the non-zero splits of completed,
        full-length attempts with a non-zero final time; None without data. */
    method AverageSplits() returns (r: Option<seq<int>>)
      requires ReplaySafe(|segments|, history)
      ensures r == AverageSplitsOf(segments, history)
    {
      var hist := history;
      var n := |segments|;
      var sums: seq<int> := seq(n, _ => 0);
      var counts: seq<nat> := seq(n, _ => 0);
      var j := 0;
      while j < |hist|
        invariant 0 <= j <= |hist| && |sums| == n && |counts| == n
        invariant forall k :: 0 <= k < n ==>
          sums[k] == SampleSum(hist[..j], n, k) && counts[k] == SampleCount(hist[..j], n, k)
      {
        var att := hist[j];
        assert hist[..j + 1][..j] == hist[..j];
        if att.completed && |att.splitTimesMS| == n {
          assert n > 0;
          var finalTime := att.splitTimesMS[n - 1];
          if finalTime != 0 {
            var i := 0;
            while i < n
              invariant 0 <= i <= n && |sums| == n && |counts| == n
              invariant forall k :: 0 <= k < n ==>
                sums[k] == SampleSum(hist[..j], n, k) + (if k < i && IsSample(att, n, k) then att.splitTimesMS[k] else 0) &&
                counts[k] == SampleCount(hist[..j], n, k) + (if k < i && IsSample(att, n, k) then 1 else 0)
            {
              var t := att.splitTimesMS[i];
              if t != 0 {
                sums := sums[i := sums[i] + t];
                counts := counts[i := counts[i] + 1];
              }
              i := i + 1;
            }
          }
        }
        j := j + 1;
      }
      assert hist[..j] == hist;
      var result: seq<int> := [];
      var hasData := false;
      var i := 0;
      while i < n
        invariant 0 <= i <= n && |result| == i
        invariant forall k :: 0 <= k < i ==> result[k] == AverageAt(hist, n, k)
        invariant hasData <==> exists k :: 0 <= k < i && counts[k] > 0
      {
        if counts[i] == 0 {
          result := result + [0];
        } else {
          result := result + [TruncDiv(sums[i], counts[i])];
          hasData := true;
        }
        i := i + 1;
      }
      assert forall k :: 0 <= k < n ==> counts[k] == SampleCount(hist, n, k);
      if !hasData {
        assert !exists k :: 0 <= k < n && SampleCount(hist, n, k) > 0;
        return None;
      }
      assert result == seq(n, k requires 0 <= k < n => AverageAt(hist, n, k));
      r := Some(result);
    }

    /** The split times of the latest completed attempt with a non-zero final
        time, found by scanning from the end; None when there is none. */
    method LatestCompletedSplits() returns (r: Option<seq<int>>)
      ensures r == LatestCompletedSplitsOf(history)
    {
      var i := |history| - 1;
      assert history[..i + 1] == history;
      while i >= 0
        invariant -1 <= i < |history|
        invariant LatestCompletedIndex(history) == LatestCompletedIndex(history[..i + 1])
      {
        var att := history[i];
        assert history[..i + 1][..i] == history[..i];
        if att.completed && |att.splitTimesMS| > 0 {
          var finalTime := att.splitTimesMS[|att.splitTimesMS| - 1];
          if finalTime != 0 {
            return Some(att.splitTimesMS);
          }
        }
        i := i - 1;
      }
      r := None;
    }

    /** Removes the first attempt with the given id, decrements the attempt
        count and recomputes the cache; false (and no change) when no attempt
        has the id. */
    method DeleteAttempt(attemptID: int) returns (ok: bool)
      requires FirstIndexOf(history, attemptID).Some? ==>
        ReplaySafe(|segments|, DeletedHistory(history, attemptID))
      modifies this
      ensures ok <==> exists j :: 0 <= j < |old(history)| && old(history)[j].id == attemptID
      ensures !ok ==> unchanged(this)
      ensures ok ==>
        history == DeletedHistory(old(history), attemptID) &&
        attemptCount == old(attemptCount) - 1 &&
        ReplaySafe(|old(segments)|, history) &&
        segments == Recalculated(old(segments), history)
      ensures id == old(id) && templateId == old(templateId)
      ensures name == old(name) && categoryName == old(categoryName)
    {
      var idx := -1;
      var i := 0;
      while i < |history|
        invariant 0 <= i <= |history| && idx == -1
        invariant forall j :: 0 <= j < i ==> history[j].id != attemptID
      {
        if history[i].id == attemptID {
          idx := i;
          break;
        }
        i := i + 1;
      }
      if idx == -1 {
        return false;
      }
      assert FirstIndexOf(history, attemptID) == Some(idx);
      history := history[..idx] + history[idx + 1..];
      attemptCount := attemptCount - 1;
      RecalculatePersonalBest(this);
      ok := true;
    }

    /** Replaces the splits of the first attempt with the given id and
        recomputes the cache. False (and no change) when the new splits do not
        have one entry per segment, when their non-zero values are not
        positive and strictly increasing, or when no attempt has the id. */
    method EditAttemptSplits(attemptID: int, newSplits: seq<int>) returns (ok: bool)
      requires |newSplits| == |segments| && FirstIndexOf(history, attemptID).Some? ==>
        ReplaySafe(|segments|, EditedHistory(history, attemptID, newSplits))
      modifies this
      ensures ok <==>
        |newSplits| == |segments| && IncreasingNonZero(newSplits) &&
        exists j :: 0 <= j < |old(history)| && old(history)[j].id == attemptID
      ensures !ok ==> unchanged(this)
      ensures ok ==>
        history == EditedHistory(old(history), attemptID, newSplits) &&
        attemptCount == old(attemptCount) &&
        ReplaySafe(|old(segments)|, history) &&
        segments == Recalculated(old(segments), history)
      ensures id == old(id) && templateId == old(templateId)
      ensures name == old(name) && categoryName == old(categoryName)
    {
      if |newSplits| != |segments| {
        return false;
      }
      var valid := CheckIncreasingNonZero(newSplits);
      if !valid {
        return false;
      }
      var i := 0;
      while i < |history|
        invariant 0 <= i <= |history|
        invariant forall j :: 0 <= j < i ==> history[j].id != attemptID
      {
        if history[i].id == attemptID {
          assert FirstIndexOf(history, attemptID) == Some(i);
          history := history[i := history[i].(splitTimesMS := newSplits)];
          RecalculatePersonalBest(this);
          return true;
        }
        i := i + 1;
      }
      ok := false;
    }
  }

  /** The validation loop of an edit: non-zero values must be positive and
      strictly increasing. */
  method CheckIncreasingNonZero(splits: seq<int>) returns (ok: bool)
    ensures ok == IncreasingNonZero(splits)
  {
    var lastNonZero := 0;
    var i := 0;
    while i < |splits|
      invariant 0 <= i <= |splits| && lastNonZero >= 0
      invariant IncreasingNonZero(splits[..i])
      invariant forall k :: 0 <= k < i && splits[k] != 0 ==> splits[k] <= lastNonZero
      invariant lastNonZero != 0 ==> exists k :: 0 <= k < i && splits[k] == lastNonZero
    {
      var v := splits[i];
      if v != 0 {
        if v <= lastNonZero {
          if lastNonZero == 0 {
            assert splits[i] != 0 && !(splits[i] > 0);
          } else {
            var w :| 0 <= w < i && splits[w] == lastNonZero;
            assert splits[w] != 0 && splits[i] != 0 && !(splits[w] < splits[i]);
          }
          return false;
        }
        lastNonZero := v;
      }
      assert splits[..i + 1] == splits[..i] + [v];
      i := i + 1;
    }
    assert splits[..i] == splits;
    ok := true;
  }

  /** The comparison series chosen by a mode string; any unrecognised string
      selects the personal best. */
  method ComparisonSplits(att: Attempts, comparison: string) returns (r: Option<seq<int>>)
    requires comparison == "average_segments" ==> ReplaySafe(|att.segments|, att.history)
    ensures r == ComparisonSeries(att.segments, att.history, comparison)
    ensures comparison == "best_segments" ==> r == BestSegmentsCumulativeOf(att.segments)
    ensures comparison == "average_segments" ==> r == AverageSplitsOf(att.segments, att.history)
    ensures comparison == "latest_run" ==> r == LatestCompletedSplitsOf(att.history)
    ensures (comparison != "best_segments" && comparison != "average_segments" &&
             comparison != "latest_run") ==> r == PersonalBestSplitsOf(att.history)
  {
    if comparison == "best_segments" {
      r := att.BestSegmentsCumulative();
    } else if comparison == "average_segments" {
      r := att.AverageSplits();
    } else if comparison == "latest_run" {
      r := att.LatestCompletedSplits();
    } else {
      r := att.PersonalBestSplits();
    }
  }

  /** One delta record per split of the live run, against the series chosen by
      `comparison`, and flagged against the cached best segments. */
  method ComputeSplitDeltas(att: Attempts, currentSplitsMS: seq<int>, comparison: string)
    returns (deltas: seq<Delta>)
    requires comparison == "average_segments" ==> ReplaySafe(|att.segments|, att.history)
    ensures |deltas| == |currentSplitsMS|
    ensures forall i :: 0 <= i < |deltas| ==>
      deltas[i] == DeltaFor(att.segments, ComparisonSeries(att.segments, att.history, comparison),
                            currentSplitsMS, i)
  {
    var pbSplits := ComparisonSplits(att, comparison);
    deltas := [];
    var i := 0;
    while i < |currentSplitsMS|
      invariant 0 <= i <= |currentSplitsMS| && |deltas| == i
      invariant forall k :: 0 <= k < i ==> deltas[k] == DeltaFor(att.segments, pbSplits, currentSplitsMS, k)
    {
      var splitMS := currentSplitsMS[i];
      var d := Delta(i, 0, false, false, false, false);
      if splitMS == 0 || (i > 0 && currentSplitsMS[i - 1] == 0) {
        d := d.(skipped := true);
      } else {
        var segTimeMS := if i == 0 then splitMS else splitMS - currentSplitsMS[i - 1];
        if i < |att.segments| && att.segments[i].bestSegmentMS > 0 {
          d := d.(isBestEver := segTimeMS < att.segments[i].bestSegmentMS);
        }
        if pbSplits.Some? && i < |pbSplits.value| && pbSplits.value[i] > 0 {
          var comp := pbSplits.value;
          d := d.(deltaMS := ComputeDelta(splitMS, comp[i]));
          d := d.(isAhead := d.deltaMS < 0);
          var compSegTimeMS := 0;
          if i == 0 {
            compSegTimeMS := comp[i];
          } else if comp[i - 1] > 0 {
            compSegTimeMS := comp[i] - comp[i - 1];
          }
          if compSegTimeMS > 0 {
            d := d.(gainedTime := segTimeMS < compSegTimeMS);
          }
        }
      }
      deltas := deltas + [d];
      i := i + 1;
    }
  }

  /** Lowers each segment's cached best time where the run's own segment time
      is computable and smaller (or no best is recorded). */
  method UpdateBestSegments(att: Attempts, splitTimesMS: seq<int>)
    modifies att
    ensures att.segments == WithBestSegments(old(att.segments), splitTimesMS)
    ensures att.history == old(att.history) && att.attemptCount == old(att.attemptCount)
    ensures att.id == old(att.id) && att.templateId == old(att.templateId)
    ensures att.name == old(att.name) && att.categoryName == old(att.categoryName)
  {
    ghost var target := WithBestSegments(att.segments, splitTimesMS);
    var i := 0;
    while i < |splitTimesMS|
      invariant 0 <= i <= |splitTimesMS| && |att.segments| == |old(att.segments)|
      invariant forall k :: 0 <= k < |att.segments| ==>
        att.segments[k] == if k < i then target[k] else old(att.segments)[k]
      invariant att.history == old(att.history) && att.attemptCount == old(att.attemptCount)
      invariant att.id == old(att.id) && att.templateId == old(att.templateId)
      invariant att.name == old(att.name) && att.categoryName == old(att.categoryName)
    {
      var splitMS := splitTimesMS[i];
      if splitMS != 0 && i < |att.segments| {
        var segTime: Option<int> := None;
        if i == 0 {
          segTime := Some(splitMS);
        } else if splitTimesMS[i - 1] > 0 {
          segTime := Some(splitMS - splitTimesMS[i - 1]);
        }
        if segTime.Some? {
          var best := att.segments[i].bestSegmentMS;
          if best == 0 || segTime.value < best {
            att.segments := att.segments[i := att.segments[i].(bestSegmentMS := segTime.value)];
          }
        }
      }
      i := i + 1;
    }
    assert att.segments == target;
  }

  /** Takes one run into the cache: best segments always, personal-best
      times when its non-zero final beats the stored final. No-op on a
      length mismatch. */
  method UpdatePersonalBest(att: Attempts, splitTimesMS: seq<int>)
    requires |splitTimesMS| > 0 || |att.segments| > 0
    modifies att
    ensures att.segments == UpdatedSegments(old(att.segments), splitTimesMS)
    ensures att.history == old(att.history) && att.attemptCount == old(att.attemptCount)
    ensures att.id == old(att.id) && att.templateId == old(att.templateId)
    ensures att.name == old(att.name) && att.categoryName == old(att.categoryName)
  {
    if |splitTimesMS| != |att.segments| {
      return;
    }
    var finalTime := splitTimesMS[|splitTimesMS| - 1];
    if finalTime == 0 {
      UpdateBestSegments(att, splitTimesMS);
      return;
    }
    var currentPBFinal := att.segments[|att.segments| - 1].personalBestMS;
    var isNewPB := currentPBFinal == 0 || finalTime < currentPBFinal;
    UpdateBestSegments(att, splitTimesMS);
    if isNewPB {
      TakePersonalBestTimes(att, splitTimesMS);
    }
  }

  /** The personal-best half of `UpdatePersonalBest`: every positive split of
      the run becomes the stored personal-best time of its segment. */
  method TakePersonalBestTimes(att: Attempts, splitTimesMS: seq<int>)
    modifies att
    ensures att.segments == WithPersonalBest(old(att.segments), splitTimesMS)
    ensures att.history == old(att.history) && att.attemptCount == old(att.attemptCount)
    ensures att.id == old(att.id) && att.templateId == old(att.templateId)
    ensures att.name == old(att.name) && att.categoryName == old(att.categoryName)
  {
    ghost var bests := att.segments;
    var i := 0;
    while i < |splitTimesMS|
      invariant 0 <= i <= |splitTimesMS| && |att.segments| == |bests|
      invariant forall k :: 0 <= k < |bests| ==>
        att.segments[k] == if k < i then WithPersonalBest(bests, splitTimesMS)[k] else bests[k]
      invariant att.history == old(att.history) && att.attemptCount == old(att.attemptCount)
      invariant att.id == old(att.id) && att.templateId == old(att.templateId)
      invariant att.name == old(att.name) && att.categoryName == old(att.categoryName)
    {
      var splitMS := splitTimesMS[i];
      if i < |att.segments| && splitMS > 0 {
        att.segments := att.segments[i := att.segments[i].(personalBestMS := splitMS)];
      }
      i := i + 1;
    }
    assert att.segments == WithPersonalBest(bests, splitTimesMS);
  }

  /** Clears the cache and replays every completed, full-length attempt in order. */
  method RecalculatePersonalBest(att: Attempts)
    requires ReplaySafe(|att.segments|, att.history)
    modifies att
    ensures att.history == old(att.history) && att.attemptCount == old(att.attemptCount)
    ensures att.segments == Recalculated(old(att.segments), att.history)
    ensures att.id == old(att.id) && att.templateId == old(att.templateId)
    ensures att.name == old(att.name) && att.categoryName == old(att.categoryName)
  {
    var i := 0;
    while i < |att.segments|
      invariant 0 <= i <= |att.segments| && |att.segments| == |old(att.segments)|
      invariant forall k :: 0 <= k < |att.segments| ==>
        att.segments[k] == if k < i then Cleared(old(att.segments))[k] else old(att.segments)[k]
      invariant att.history == old(att.history) && att.attemptCount == old(att.attemptCount)
      invariant att.id == old(att.id) && att.templateId == old(att.templateId)
      invariant att.name == old(att.name) && att.categoryName == old(att.categoryName)
    {
      att.segments := att.segments[i := att.segments[i].(personalBestMS := 0, bestSegmentMS := 0)];
      i := i + 1;
    }
    assert att.segments == Cleared(old(att.segments));
    var h := att.history;
    var j := 0;
    while j < |h|
      invariant 0 <= j <= |h| && ReplaySafe(|att.segments|, h[..j])
      invariant att.segments == Replay(Cleared(old(att.segments)), h[..j])
      invariant att.history == old(att.history) && att.attemptCount == old(att.attemptCount)
      invariant att.id == old(att.id) && att.templateId == old(att.templateId)
      invariant att.name == old(att.name) && att.categoryName == old(att.categoryName)
    {
      var a := h[j];
      assert h[..j + 1][..j] == h[..j];
      assert ReplaySafe(|att.segments|, h[..j + 1]);
      if a.completed && |a.splitTimesMS| == |att.segments| {
        UpdatePersonalBest(att, a.splitTimesMS);
      }
      j := j + 1;
    }
    assert h[..j] == h;
  }
}
