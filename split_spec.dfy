// Values of the attempt history and the pure definitions that the imperative
// queries and cache updates of the split package are proved against.

module SplitSpec {

  datatype Option<T> = None | Some(value: T)

  /** A named segment with its cached cumulative personal-best time and its
      best individual segment time (0 = none recorded). */
  datatype Segment = Segment(name: string, personalBestMS: int, bestSegmentMS: int)

  /** One recorded attempt: cumulative split times, 0 meaning skipped. The
      start timestamp is not modelled. */
  datatype Attempt = Attempt(id: int, splitTimesMS: seq<int>, completed: bool)

  /** One comparison record per segment of the live run. */
  datatype Delta = Delta(
    segmentIndex: int,
    deltaMS: int,       // positive = behind, negative = ahead
    isBestEver: bool,
    isAhead: bool,
    gainedTime: bool,
    skipped: bool)

  // ---------------------------------------------------------------------------
  // Segments

  /** Segments with the given names and no cached times. */
  function FreshSegments(names: seq<string>): seq<Segment> {
    seq(|names|, i requires 0 <= i < |names| => Segment(names[i], 0, 0))
  }

  /** The names of the segments, in order. */
  function Names(segs: seq<Segment>): seq<string> {
    seq(|segs|, i requires 0 <= i < |segs| => segs[i].name)
  }

  /** Creating segments from names and reading the names back is the identity,
      and the new segments carry no cached times. */
  lemma FreshSegmentsRoundTrip(names: seq<string>)
    ensures Names(FreshSegments(names)) == names
    ensures forall i :: 0 <= i < |names| ==>
      FreshSegments(names)[i].personalBestMS == 0 && FreshSegments(names)[i].bestSegmentMS == 0
  {
  }

  // ---------------------------------------------------------------------------
  // Personal best and latest completed run

  /** The last cumulative split of an attempt. */
  function FinalTime(a: Attempt): int
    requires |a.splitTimesMS| > 0
  {
    a.splitTimesMS[|a.splitTimesMS| - 1]
  }

  /** A completed attempt with at least one split and a non-zero final time:
      the only kind the personal-best and latest-run queries consider. */
  predicate IsFinishedRun(a: Attempt) {
    a.completed && |a.splitTimesMS| > 0 && FinalTime(a) != 0
  }

  /** Index of the personal-best attempt: a scan that replaces its candidate
      only on a strictly smaller final time. */
  function PersonalBestIndex(h: seq<Attempt>): (r: Option<nat>)
    ensures r.Some? ==> r.value < |h| && IsFinishedRun(h[r.value])
    decreases |h|
  {
    if h == [] then None
    else
      var k := PersonalBestIndex(h[..|h| - 1]);
      var a := h[|h| - 1];
      if IsFinishedRun(a) && (k.None? || FinalTime(a) < FinalTime(h[k.value])) then Some(|h| - 1)
      else k
  }

  /** The personal-best split times, None when no attempt qualifies. */
  function PersonalBestSplitsOf(h: seq<Attempt>): Option<seq<int>> {
    match PersonalBestIndex(h)
    case None => None
    case Some(k) => Some(h[k].splitTimesMS)
  }

  /** The personal best is absent exactly when no attempt qualifies; otherwise
      it is a qualifying attempt with the smallest final time, and the earliest
      of those. */
  lemma {:induction false} PersonalBestIsEarliestMinimum(h: seq<Attempt>)
    ensures PersonalBestIndex(h).None? <==> forall j :: 0 <= j < |h| ==> !IsFinishedRun(h[j])
    ensures PersonalBestIndex(h).Some? ==>
      var k := PersonalBestIndex(h).value;
      (forall j :: 0 <= j < |h| && IsFinishedRun(h[j]) ==> FinalTime(h[k]) <= FinalTime(h[j])) &&
      (forall j :: 0 <= j < k && IsFinishedRun(h[j]) ==> FinalTime(h[k]) < FinalTime(h[j]))
    decreases |h|
  {
    if h != [] {
      var p := h[..|h| - 1];
      PersonalBestIsEarliestMinimum(p);
      assert forall j :: 0 <= j < |p| ==> p[j] == h[j];
    }
  }

  /** A later attempt that does not beat the personal best leaves it unchanged;
      one that strictly beats it becomes the personal best. */
  lemma PersonalBestAfterAppend(h: seq<Attempt>, a: Attempt)
    ensures var old_ := PersonalBestSplitsOf(h);
      PersonalBestSplitsOf(h + [a]) ==
        if IsFinishedRun(a) && (old_.None? || FinalTime(a) < old_.value[|old_.value| - 1])
        then Some(a.splitTimesMS) else old_
  {
    assert (h + [a])[..|h|] == h;
  }

  /** Index of the latest finished run, scanning from the end. */
  function LatestCompletedIndex(h: seq<Attempt>): (r: Option<nat>)
    ensures r.None? <==> forall j :: 0 <= j < |h| ==> !IsFinishedRun(h[j])
    ensures r.Some? ==>
      r.value < |h| && IsFinishedRun(h[r.value]) &&
      forall j :: r.value < j < |h| ==> !IsFinishedRun(h[j])
    decreases |h|
  {
    if h == [] then None
    else if IsFinishedRun(h[|h| - 1]) then Some(|h| - 1)
    else LatestCompletedIndex(h[..|h| - 1])
  }

  /** The split times of the latest finished run, None when there is none. */
  function LatestCompletedSplitsOf(h: seq<Attempt>): Option<seq<int>> {
    match LatestCompletedIndex(h)
    case None => None
    case Some(k) => Some(h[k].splitTimesMS)
  }

  // ---------------------------------------------------------------------------
  // Cumulative best segments

  /** Sum of the cached best segment times. */
  function SumOfBests(segs: seq<Segment>): int
    decreases |segs|
  {
    if segs == [] then 0 else SumOfBests(segs[..|segs| - 1]) + segs[|segs| - 1].bestSegmentMS
  }

  predicate AllBestsRecorded(segs: seq<Segment>) {
    forall i :: 0 <= i < |segs| ==> segs[i].bestSegmentMS != 0
  }

  /** Cumulative times built from the best segments: entry i sums the bests of
      segments 0..i. None when some segment has no best. */
  function BestSegmentsCumulativeOf(segs: seq<Segment>): Option<seq<int>> {
    if AllBestsRecorded(segs) then
      Some(seq(|segs|, i requires 0 <= i < |segs| => SumOfBests(segs[..i + 1])))
    else None
  }

  /** Consecutive differences of the cumulative series give back each
      segment's best time, so the series is strictly increasing when all bests
      are positive. */
  lemma CumulativeBestsDifferences(segs: seq<Segment>)
    requires AllBestsRecorded(segs)
    ensures var r := BestSegmentsCumulativeOf(segs).value;
      |r| == |segs| &&
      (|segs| > 0 ==> r[0] == segs[0].bestSegmentMS) &&
      (forall i :: 0 < i < |segs| ==> r[i] - r[i - 1] == segs[i].bestSegmentMS) &&
      ((forall i :: 0 <= i < |segs| ==> segs[i].bestSegmentMS > 0) ==>
         forall i :: 0 < i < |segs| ==> r[i - 1] < r[i])
  {
    var r := BestSegmentsCumulativeOf(segs).value;
    forall i | 0 < i < |segs|
      ensures r[i] - r[i - 1] == segs[i].bestSegmentMS
    {
      assert segs[..i + 1][..i] == segs[..i];
    }
    if |segs| > 0 {
      assert segs[..1][..0] == [];
      assert SumOfBests(segs[..1]) == SumOfBests(segs[..1][..0]) + segs[0].bestSegmentMS;
    }
  }

  // ---------------------------------------------------------------------------
  // Average splits

  /** Go's int64 division, which truncates toward zero. */
  function TruncDiv(a: int, b: int): int
    requires b > 0
  {
    if a >= 0 then a / b else -((-a) / b)
  }

  /** A completed, full-length attempt with a non-zero final time. */
  predicate CountsForAverage(a: Attempt, n: nat) {
    n > 0 && a.completed && |a.splitTimesMS| == n && a.splitTimesMS[n - 1] != 0
  }

  /** The attempt contributes a sample at index i: it counts and is non-zero there. */
  predicate IsSample(a: Attempt, n: nat, i: nat) {
    CountsForAverage(a, n) && i < n && a.splitTimesMS[i] != 0
  }

  function SampleSum(h: seq<Attempt>, n: nat, i: nat): int
    decreases |h|
  {
    if h == [] then 0
    else
      var a := h[|h| - 1];
      SampleSum(h[..|h| - 1], n, i) + (if IsSample(a, n, i) then a.splitTimesMS[i] else 0)
  }

  function SampleCount(h: seq<Attempt>, n: nat, i: nat): nat
    decreases |h|
  {
    if h == [] then 0
    else SampleCount(h[..|h| - 1], n, i) + (if IsSample(h[|h| - 1], n, i) then 1 else 0)
  }

  /** Integer mean of the samples at index i, or 0 without samples. */
  function AverageAt(h: seq<Attempt>, n: nat, i: nat): int {
    var c := SampleCount(h, n, i);
    if c == 0 then 0 else TruncDiv(SampleSum(h, n, i), c)
  }

  /** The average series over n = |segs| segments, None when no index has a sample. */
  function AverageSplitsOf(segs: seq<Segment>, h: seq<Attempt>): Option<seq<int>> {
    var n := |segs|;
    if exists i :: 0 <= i < n && SampleCount(h, n, i) > 0 then
      Some(seq(n, i requires 0 <= i < n => AverageAt(h, n, i)))
    else None
  }

  lemma {:induction false} SampleSumBounds(h: seq<Attempt>, n: nat, i: nat, lo: int, hi: int)
    requires forall j :: 0 <= j < |h| && IsSample(h[j], n, i) ==>
      lo <= h[j].splitTimesMS[i] <= hi
    ensures SampleCount(h, n, i) * lo <= SampleSum(h, n, i) <= SampleCount(h, n, i) * hi
    decreases |h|
  {
    if h != [] {
      var p := h[..|h| - 1];
      assert forall j :: 0 <= j < |p| ==> p[j] == h[j];
      SampleSumBounds(p, n, i, lo, hi);
      var c := SampleCount(p, n, i);
      if IsSample(h[|h| - 1], n, i) {
        assert SampleCount(h, n, i) == c + 1;
        assert (c + 1) * lo == c * lo + lo && (c + 1) * hi == c * hi + hi;
      } else {
        assert SampleCount(h, n, i) == c && SampleSum(h, n, i) == SampleSum(p, n, i);
      }
    }
  }

  lemma QuotientBounds(a: int, b: int, lo: int, hi: int)
    requires b > 0 && b * lo <= a <= b * hi
    ensures lo <= a / b <= hi
  {
    var q, r := a / b, a % b;
    assert a == b * q + r && 0 <= r < b;
    assert b * (q + 1 - lo) == b * q + b - b * lo;
    FactorSign(b, q + 1 - lo);
    assert b * (hi - q) == b * hi - b * q;
    FactorSign(b, hi - q);
  }

  lemma FactorSign(b: int, d: int)
    requires b > 0
    ensures b * d > 0 ==> d > 0
    ensures b * d >= 0 ==> d >= 0
  {
    if d < 0 {
      assert b * d == -(b * -d);
    }
  }

  /** When every sample at index i lies in [lo, hi] (lo positive), so does
      their average. */
  lemma AverageWithinSampleRange(h: seq<Attempt>, n: nat, i: nat, lo: int, hi: int)
    requires 0 < lo
    requires SampleCount(h, n, i) > 0
    requires forall j :: 0 <= j < |h| && IsSample(h[j], n, i) ==>
      lo <= h[j].splitTimesMS[i] <= hi
    ensures lo <= AverageAt(h, n, i) <= hi
  {
    SampleSumBounds(h, n, i, lo, hi);
    QuotientBounds(SampleSum(h, n, i), SampleCount(h, n, i), lo, hi);
  }

  /** With a single qualifying attempt, the average series is that attempt's
      splits (its zeros included). */
  lemma AverageOfSingleRun(segs: seq<Segment>, a: Attempt)
    requires CountsForAverage(a, |segs|)
    ensures AverageSplitsOf(segs, [a]) == Some(a.splitTimesMS)
  {
    var n := |segs|;
    assert [a][..0] == [];
    assert SampleCount([a], n, n - 1) > 0;
    var avg := seq(n, i requires 0 <= i < n => AverageAt([a], n, i));
    forall i | 0 <= i < n
      ensures avg[i] == a.splitTimesMS[i]
    {
      assert SampleCount([a], n, i) == if a.splitTimesMS[i] != 0 then 1 else 0;
      assert SampleSum([a], n, i) == if a.splitTimesMS[i] != 0 then a.splitTimesMS[i] else 0;
    }
    assert avg == a.splitTimesMS;
  }

  // ---------------------------------------------------------------------------
  // History edits

  /** Index of the first attempt with the given id. */
  function FirstIndexOf(h: seq<Attempt>, id: int): (r: Option<nat>)
    ensures r.None? <==> forall j :: 0 <= j < |h| ==> h[j].id != id
    ensures r.Some? ==>
      r.value < |h| && h[r.value].id == id && forall j :: 0 <= j < r.value ==> h[j].id != id
    decreases |h|
  {
    if h == [] then None
    else if h[0].id == id then Some(0)
    else
      match FirstIndexOf(h[1..], id)
      case None => None
      case Some(k) => Some(k + 1)
  }

  /** The history without its first attempt with the given id (unchanged when there is none). */
  function DeletedHistory(h: seq<Attempt>, id: int): seq<Attempt> {
    match FirstIndexOf(h, id)
    case None => h
    case Some(k) => h[..k] + h[k + 1..]
  }

  /** The history with the splits of its first attempt with the given id
      replaced (unchanged when there is none). */
  function EditedHistory(h: seq<Attempt>, id: int, splits: seq<int>): seq<Attempt> {
    match FirstIndexOf(h, id)
    case None => h
    case Some(k) => h[k := h[k].(splitTimesMS := splits)]
  }

  /** Deleting keeps every other attempt, in order, and removes exactly one
      attempt with the id when there is one. */
  lemma DeleteKeepsOthers(h: seq<Attempt>, id: int)
    ensures var d := DeletedHistory(h, id);
      (FirstIndexOf(h, id).None? ==> d == h) &&
      (FirstIndexOf(h, id).Some? ==>
        var k := FirstIndexOf(h, id).value;
        |d| == |h| - 1 &&
        (forall j :: 0 <= j < k ==> d[j] == h[j]) &&
        (forall j :: k <= j < |d| ==> d[j] == h[j + 1]) &&
        multiset(d) + multiset{h[k]} == multiset(h))
  {
    if FirstIndexOf(h, id).Some? {
      var k := FirstIndexOf(h, id).value;
      assert h == h[..k] + [h[k]] + h[k + 1..];
    }
  }

  /** Non-zero values are positive and strictly increasing; zeros may appear anywhere. */
  predicate IncreasingNonZero(s: seq<int>) {
    (forall i :: 0 <= i < |s| && s[i] != 0 ==> s[i] > 0) &&
    (forall i, j :: 0 <= i < j < |s| && s[i] != 0 && s[j] != 0 ==> s[i] < s[j])
  }

  // ---------------------------------------------------------------------------
  // Cached personal-best and best-segment data

  /** The duration of segment i of a split array as the cache update computes
      it: None for a skipped entry or when the previous split is not positive. */
  function CachedSegmentTime(splits: seq<int>, i: nat): Option<int>
    requires i < |splits|
  {
    if splits[i] == 0 then None
    else if i == 0 then Some(splits[0])
    else if splits[i - 1] > 0 then Some(splits[i] - splits[i - 1])
    else None
  }

  /** Segments with their best times lowered by the given run. */
  function WithBestSegments(segs: seq<Segment>, splits: seq<int>): seq<Segment> {
    seq(|segs|, i requires 0 <= i < |segs| =>
      if i < |splits| && CachedSegmentTime(splits, i).Some? &&
         (segs[i].bestSegmentMS == 0 || CachedSegmentTime(splits, i).value < segs[i].bestSegmentMS)
      then segs[i].(bestSegmentMS := CachedSegmentTime(splits, i).value)
      else segs[i])
  }

  /** Segments with their personal-best times taken from the given run, except
      where the run has no positive split. */
  function WithPersonalBest(segs: seq<Segment>, splits: seq<int>): seq<Segment> {
    seq(|segs|, i requires 0 <= i < |segs| =>
      if i < |splits| && splits[i] > 0 then segs[i].(personalBestMS := splits[i]) else segs[i])
  }

  /** The run beats the stored personal best: its final time is non-zero and
      either no final is stored or it is smaller. */
  predicate BeatsStoredFinal(segs: seq<Segment>, splits: seq<int>)
    requires |segs| > 0 && |splits| > 0
  {
    var final, stored := splits[|splits| - 1], segs[|segs| - 1].personalBestMS;
    final != 0 && (stored == 0 || final < stored)
  }

  /** The cache after one run is taken into account. */
  function UpdatedSegments(segs: seq<Segment>, splits: seq<int>): seq<Segment>
    requires |segs| > 0 || |splits| > 0
  {
    if |splits| != |segs| then segs
    else
      var bests := WithBestSegments(segs, splits);
      if BeatsStoredFinal(segs, splits) then WithPersonalBest(bests, splits) else bests
  }

  /** The rules of one cache update: names persist; a recorded best only moves
      down; personal-best times change only for a run that beats the stored
      final, and never at a non-positive entry. */
  lemma UpdateRules(segs: seq<Segment>, splits: seq<int>)
    requires |segs| > 0 || |splits| > 0
    ensures var u := UpdatedSegments(segs, splits);
      |u| == |segs| && Names(u) == Names(segs) &&
      (|splits| != |segs| ==> u == segs) &&
      (forall i :: 0 <= i < |segs| && segs[i].bestSegmentMS != 0 ==>
         u[i].bestSegmentMS <= segs[i].bestSegmentMS) &&
      (forall i :: 0 <= i < |segs| && u[i].personalBestMS != segs[i].personalBestMS ==>
         BeatsStoredFinal(segs, splits) && u[i].personalBestMS == splits[i] && splits[i] > 0) &&
      (|splits| == |segs| && BeatsStoredFinal(segs, splits) ==>
         forall i :: 0 <= i < |segs| && splits[i] > 0 ==> u[i].personalBestMS == splits[i])
  {
    var u := UpdatedSegments(segs, splits);
    assert Names(u) == Names(segs);
  }

  /** Segments with every cached time cleared. */
  function Cleared(segs: seq<Segment>): seq<Segment> {
    seq(|segs|, i requires 0 <= i < |segs| => Segment(segs[i].name, 0, 0))
  }

  /** A completed attempt with one split per segment: the runs replayed into the cache. */
  predicate CountsForReplay(a: Attempt, n: nat) {
    a.completed && |a.splitTimesMS| == n
  }

  /** Replaying cannot hit the empty-array case of the cache update. */
  predicate ReplaySafe(n: nat, h: seq<Attempt>) {
    n > 0 || forall j :: 0 <= j < |h| ==> !(h[j].completed && h[j].splitTimesMS == [])
  }

  /** The cache after replaying the qualifying attempts of h in order. */
  function Replay(segs: seq<Segment>, h: seq<Attempt>): (r: seq<Segment>)
    requires ReplaySafe(|segs|, h)
    ensures |r| == |segs|
    decreases |h|
  {
    if h == [] then segs
    else
      var p := h[..|h| - 1];
      assert ReplaySafe(|segs|, p) by {
        assert forall j :: 0 <= j < |p| ==> p[j] == h[j];
      }
      var before := Replay(segs, p);
      var a := h[|h| - 1];
      if CountsForReplay(a, |before|) then UpdatedSegments(before, a.splitTimesMS) else before
  }

  /** The cache recomputed from scratch from the history. */
  function Recalculated(segs: seq<Segment>, h: seq<Attempt>): seq<Segment>
    requires ReplaySafe(|segs|, h)
  {
    Replay(Cleared(segs), h)
  }

  lemma {:induction false} ReplayKeepsNames(segs: seq<Segment>, h: seq<Attempt>)
    requires ReplaySafe(|segs|, h)
    ensures Names(Replay(segs, h)) == Names(segs)
    decreases |h|
  {
    if h != [] {
      var p := h[..|h| - 1];
      assert forall j :: 0 <= j < |p| ==> p[j] == h[j];
      ReplayKeepsNames(segs, p);
      var before := Replay(segs, p);
      if CountsForReplay(h[|h| - 1], |before|) {
        UpdateRules(before, h[|h| - 1].splitTimesMS);
      }
    }
  }

  /** The recomputed cache depends only on the segment names and the history,
      and recomputing twice gives the same cache as recomputing once. */
  lemma RecalculateIsIdempotent(segs: seq<Segment>, h: seq<Attempt>)
    requires ReplaySafe(|segs|, h)
    ensures forall other: seq<Segment> :: Names(other) == Names(segs) ==>
      ReplaySafe(|other|, h) && Recalculated(other, h) == Recalculated(segs, h)
    ensures Recalculated(Recalculated(segs, h), h) == Recalculated(segs, h)
  {
    forall other: seq<Segment> | Names(other) == Names(segs)
      ensures ReplaySafe(|other|, h) && Recalculated(other, h) == Recalculated(segs, h)
    {
      assert |Names(other)| == |other| && |Names(segs)| == |segs|;
      assert Cleared(other) == Cleared(segs) by {
        forall i | 0 <= i < |segs| ensures other[i].name == segs[i].name {
          assert Names(other)[i] == Names(segs)[i];
        }
      }
    }
    ReplayKeepsNames(Cleared(segs), h);
    assert Names(Cleared(segs)) == Names(segs);
  }

  /** After recomputation, the last segment's personal-best time is the smallest
      positive final time among the replayed attempts, or 0 when there is none. */
  lemma {:induction false} RecalculatedFinalIsFastest(segs: seq<Segment>, h: seq<Attempt>)
    requires |segs| > 0
    ensures var n := |segs|;
      var pb := Recalculated(segs, h)[n - 1].personalBestMS;
      (pb == 0 <==> forall j :: 0 <= j < |h| && CountsForReplay(h[j], n) ==> h[j].splitTimesMS[n - 1] <= 0) &&
      (pb != 0 ==>
        (exists j :: 0 <= j < |h| && CountsForReplay(h[j], n) && h[j].splitTimesMS[n - 1] == pb) &&
        (forall j :: 0 <= j < |h| && CountsForReplay(h[j], n) && h[j].splitTimesMS[n - 1] > 0 ==>
           pb <= h[j].splitTimesMS[n - 1]))
    decreases |h|
  {
    var n := |segs|;
    if h == [] {
      assert Recalculated(segs, h) == Cleared(segs);
    } else {
      var p := h[..|h| - 1];
      assert forall j :: 0 <= j < |p| ==> p[j] == h[j];
      RecalculatedFinalIsFastest(segs, p);
      var before := Replay(Cleared(segs), p);
      var a := h[|h| - 1];
      var pb0 := before[n - 1].personalBestMS;
      var pb := Recalculated(segs, h)[n - 1].personalBestMS;
      if CountsForReplay(a, n) {
        var f := a.splitTimesMS[n - 1];
        assert pb == if f > 0 && (pb0 == 0 || f < pb0) then f else pb0;
        if pb != 0 && pb == pb0 {
          var w :| 0 <= w < |p| && CountsForReplay(p[w], n) && p[w].splitTimesMS[n - 1] == pb0;
          assert h[w] == p[w];
        }
        if pb != 0 && pb != pb0 {
          assert h[|h| - 1] == a;
        }
      } else {
        assert pb == pb0;
        if pb != 0 {
          var w :| 0 <= w < |p| && CountsForReplay(p[w], n) && p[w].splitTimesMS[n - 1] == pb0;
          assert h[w] == p[w];
        }
      }
    }
  }

  // ---------------------------------------------------------------------------
  // Comparison series

  /** The comparison series selected by a mode string; unknown modes select
      the personal best. */
  function ComparisonSeries(segs: seq<Segment>, h: seq<Attempt>, comparison: string): Option<seq<int>> {
    if comparison == "best_segments" then BestSegmentsCumulativeOf(segs)
    else if comparison == "average_segments" then AverageSplitsOf(segs, h)
    else if comparison == "latest_run" then LatestCompletedSplitsOf(h)
    else PersonalBestSplitsOf(h)
  }

  // ---------------------------------------------------------------------------
  // Deltas

  /** Delta of a cumulative split against a comparison split. */
  function ComputeDelta(currentSplitMS: int, comparisonSplitMS: int): (r: int)
    ensures comparisonSplitMS + r == currentSplitMS
    ensures r < 0 <==> currentSplitMS < comparisonSplitMS
  {
    currentSplitMS - comparisonSplitMS
  }

  /** The comparison series has a positive value at index i. */
  predicate HasComparison(comp: Option<seq<int>>, i: nat) {
    comp.Some? && i < |comp.value| && comp.value[i] > 0
  }

  /** The live run's own time for segment i; the caller excludes skipped records. */
  function RunSegmentTime(cur: seq<int>, i: nat): int
    requires i < |cur|
  {
    if i == 0 then cur[0] else cur[i] - cur[i - 1]
  }

  /** The comparison run's own time for segment i, 0 when its previous split is not positive. */
  function ComparisonSegmentTime(comp: seq<int>, i: nat): int
    requires i < |comp|
  {
    if i == 0 then comp[0] else if comp[i - 1] > 0 then comp[i] - comp[i - 1] else 0
  }

  /** The delta record for segment i of the live run `cur`. */
  function DeltaFor(segs: seq<Segment>, comp: Option<seq<int>>, cur: seq<int>, i: nat): (d: Delta)
    requires i < |cur|
    ensures d.segmentIndex == i
    ensures d.skipped <==> cur[i] == 0 || (i > 0 && cur[i - 1] == 0)
    ensures d.skipped ==> d == Delta(i, 0, false, false, false, true)
    ensures d.isAhead <==> d.deltaMS < 0
    ensures d.deltaMS != 0 ==> HasComparison(comp, i) && d.deltaMS == cur[i] - comp.value[i]
    ensures !d.skipped && HasComparison(comp, i) ==> d.deltaMS == cur[i] - comp.value[i]
    ensures d.isBestEver <==>
      !d.skipped && i < |segs| && segs[i].bestSegmentMS > 0 &&
      RunSegmentTime(cur, i) < segs[i].bestSegmentMS
    ensures d.gainedTime <==>
      !d.skipped && HasComparison(comp, i) && ComparisonSegmentTime(comp.value, i) > 0 &&
      RunSegmentTime(cur, i) < ComparisonSegmentTime(comp.value, i)
  {
    if cur[i] == 0 || (i > 0 && cur[i - 1] == 0) then Delta(i, 0, false, false, false, true)
    else
      var segTime := RunSegmentTime(cur, i);
      var bestEver := i < |segs| && segs[i].bestSegmentMS > 0 && segTime < segs[i].bestSegmentMS;
      if HasComparison(comp, i) then
        var delta := ComputeDelta(cur[i], comp.value[i]);
        var compSeg := ComparisonSegmentTime(comp.value, i);
        Delta(i, delta, bestEver, delta < 0, compSeg > 0 && segTime < compSeg, false)
      else Delta(i, 0, bestEver, false, false, false)
  }
}
