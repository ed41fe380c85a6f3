# goldsplit core, modelled in Dafny

goldsplit is a desktop speedrun split timer. This project models its core:

- the **timer engine** (`internal/timer`): a stopwatch state machine with the four states Idle, Running, Paused and Finished. It records cumulative split times and per-segment durations, and supports skip, undo, pause/resume and restoring a saved run.
- the **attempt aggregate** (`internal/split/attempts.go`): the segments of one game category with their cached personal-best and best-segment times, plus the attempt history. It answers queries for four comparison series: personal best, sum of best segments, average, and latest run. Deleting or editing an attempt recomputes the cache.
- the **comparison logic** (`internal/split/comparison.go`): per-segment delta records for a live run, and updating the cache after a run.
- **templates** (`internal/split/template.go`).
- the **time formatting utilities** of the front end (`frontend/src/lib/utils/format.ts`): three millisecond formatters, a delta formatter, and the inverse parser for typed-in times.

Modules follow the source:

| File | Module | Models |
|---|---|---|
| `timer_state.dfy` | `TimerState` | `state.go` |
| `timer_engine.dfy` | `Timer` | `engine.go`. `class Engine` holds the engine's fields and has one method per operation. |
| `split_spec.dfy` | `SplitSpec` | `attempts.go` and `comparison.go`. It holds the value types and the specification functions the methods are proved against, plus the lemmas about those functions. |
| `split_attempts.dfy` | `Split` | `class Attempts` and the comparison functions, written as imperative methods with loops, as in the source. |
| `template.dfy` | `Templates` | `template.go` |
| `format.dfy` | `Format` | `format.ts`, together with the JavaScript primitives it relies on (`trim`, `split`, `padStart`, `padEnd`, `String(n)`, `parseInt`). |

Modelling choices:

- **Clock.** The wall clock is a parameter `now` (integer milliseconds) of every engine operation that reads it. A ghost field `lastNow` records the latest reading used. `Split`, `Pause` and `Resume` require `now >= lastNow`, which models Go's monotonic clock. `Start` and `Restore` begin a new run and simply set `lastNow` to `now`.
- **Run invariant.** `Engine.RunConsistent` is the invariant of a run:
  - both arrays have one entry per passed segment, so their length is the cursor;
  - durations agree with the cumulative splits;
  - splits never decrease, skips aside;
  - no split exceeds the elapsed time.

  `Start` establishes it and the other operations preserve it. `Restore` re-establishes it exactly when its arguments satisfy `RestorableRun`.
- **Division.** Go's `int64` division truncates toward zero; `TruncDiv` models that explicitly.
- **Nulls.** `Option` stands for Go's `nil` slices and for JavaScript's `null`/`NaN`.

## Model

| member | source | states |
|---|---|---|
| TimerState.StateString | internal/timer/state.go:13-26 | Each of the four states maps to its own lower-case name, in both directions. Every other value maps to "unknown". |
| TimerState.StateStringInjective | internal/timer/state.go:13-26 | Two named states have the same name exactly when they are the same state. |
| Timer.Engine.constructor | internal/timer/engine.go:46-52 | A new engine is Idle with the given segment names and nothing recorded. It satisfies the engine invariant and the run invariant. |
| Timer.Engine.ElapsedMS | internal/timer/engine.go:82-99 | The elapsed time per state: 0 in Idle, the clock minus start and pause total in Running, frozen at the pause instant in Paused, the last split (or 0) in Finished, and 0 for any other value. It has no contract of its own. Its properties are stated by Timer.FinishedElapsedIsLastSplit, Timer.SplitNeverBelowRecorded, Timer.PauseThenResume and the Pause, Resume, Restore and Split contracts. |
| Timer.Engine.GetTickData | internal/timer/engine.go:261-286 | The tick payload carries the elapsed time, the state's name, the cursor and the recorded arrays and names of the engine. |
| Timer.Engine.SetSegments | internal/timer/engine.go:55-64 | The names are replaced only in Idle. Nothing else changes, and the run invariant is kept. |
| Timer.Engine.Start | internal/timer/engine.go:102-119 | Only from Idle: the engine is Running from `now`, nothing is recorded, the sampler is on, elapsed time is 0 and the run invariant holds. From any other state nothing changes. |
| Timer.Engine.Split | internal/timer/engine.go:122-149 | Only in Running, the split appends the elapsed time to the splits and elapsed minus the previous split to the durations, then advances the cursor. The state becomes Finished exactly when the cursor reaches the segment count. In any other state nothing changes. The run invariant is kept. |
| Timer.Engine.RecordSplit | internal/timer/engine.go:130-148 | The Running branch of Split. It appends the split and its duration, advances the cursor and finishes after the last segment. It preserves the run invariant. |
| Timer.AppendSplitKeepsRecords | internal/timer/engine.go:130-139 | Appending an elapsed time that is at least every recorded split, with its difference to the last split, keeps durations matching, splits non-decreasing and all splits at most the elapsed time. |
| Timer.Engine.SkipSplit | internal/timer/engine.go:152-170 | Only in Running, the skip appends 0 to both arrays and advances the cursor. It finishes after the last segment. Otherwise nothing changes. The run invariant is kept. |
| Timer.Engine.UndoSplit | internal/timer/engine.go:173-185 | Only in Running with a non-zero cursor, the undo drops the last entry of both arrays and moves the cursor back. The engine stays Running. Otherwise nothing changes. |
| Timer.Engine.Pause | internal/timer/engine.go:188-200 | Running becomes Paused at `now` and the sampler stops. Elapsed time then equals its value at `now` at every later clock reading. Otherwise nothing changes. |
| Timer.Engine.Resume | internal/timer/engine.go:203-215 | Paused becomes Running. The paused interval is added to the pause total, so elapsed time continues from its frozen value. Otherwise nothing changes. |
| Timer.Engine.Restore | internal/timer/engine.go:219-240 | Only from Idle, the engine is Paused with the given cursor and arrays. Its elapsed time is `elapsedMS` at every clock reading, by back-dating the start. The run invariant holds exactly when the restored data are consistent. |
| Timer.Engine.Reset | internal/timer/engine.go:243-258 | From any state but Idle, the engine returns to Idle with nothing recorded and the sampler off. In Idle nothing changes. |
| Timer.Engine.SplitTimes | internal/timer/engine.go:334-342 | Returns the recorded cumulative splits. |
| Timer.Engine.SegmentTimes | internal/timer/engine.go:345-353 | Returns the recorded segment durations. |
| Timer.Engine.CurrentSegment | internal/timer/engine.go:356-361 | Returns the segment cursor. |
| Timer.Engine.CurrentState | internal/timer/engine.go:67-72 | Returns the state. |
| Timer.SplitNeverBelowRecorded | internal/timer/engine.go:86-87 | In a consistent run with a clock that does not go back, every recorded split lies between 0 and the current elapsed time. |
| Timer.FinishedElapsedIsLastSplit | internal/timer/engine.go:90-95 | In Finished, elapsed time is the last split (0 when none), whatever the clock says. |
| Timer.SplitThenUndo | internal/timer/engine.go:122-185 | A split that does not finish the run, followed by an undo, restores both arrays and the cursor. |
| Timer.PauseThenResume | internal/timer/engine.go:188-215 | After a pause at one instant and a resume at a later one, elapsed time is the frozen value plus the time since the resume. The paused interval never counts. |
| Split.Attempts.constructor | internal/split/attempts.go:35-52 | Identity fields as given. Each segment has a name from the list and no cached times, with no history and a count of 0. |
| SplitSpec.FreshSegmentsRoundTrip | internal/split/attempts.go:35-62 | Reading the names back from freshly snapshotted segments gives the original list, and the new segments have zero cached times. |
| Split.Attempts.SegmentNames | internal/split/attempts.go:55-62 | Returns the segment names in order. |
| Split.Attempts.AddAttempt | internal/split/attempts.go:65-74 | The count goes up by one. The history gains one attempt whose id is the new count, holding the given splits and flag. Nothing else changes. |
| Split.Attempts.PersonalBestSplits | internal/split/attempts.go:78-100 | The scan returns the splits of the attempt the personal-best specification selects, or None. |
| SplitSpec.PersonalBestIndex | internal/split/attempts.go:78-100 | The selected attempt, if any, is in range and is a completed run with a non-zero final time. |
| SplitSpec.PersonalBestIsEarliestMinimum | internal/split/attempts.go:78-100 | There is no personal best exactly when no attempt qualifies. Otherwise the personal best is a qualifying attempt with the smallest final time, and the earliest of those. |
| SplitSpec.PersonalBestAfterAppend | internal/split/attempts.go:83-96 | A new attempt becomes the personal best exactly when it qualifies and its final time is strictly smaller. Otherwise the personal best is unchanged. |
| Split.Attempts.BestSegmentsCumulative | internal/split/attempts.go:104-118 | Returns the running sums of the best segment times, or None when any segment lacks one. |
| SplitSpec.CumulativeBestsDifferences | internal/split/attempts.go:104-118 | The first entry is the first best time. Consecutive differences give back each segment's best time. With positive bests the series is strictly increasing. |
| Split.Attempts.AverageSplits | internal/split/attempts.go:122-166 | Returns, per index, the truncated mean of the non-zero splits of the completed full-length attempts with a non-zero final time. The entry is 0 where there is no sample, and the result is None when no index has a sample. |
| SplitSpec.SampleSumBounds | internal/split/attempts.go:137-144 | When every sample at an index lies in [lo, hi], their sum lies between count×lo and count×hi. |
| SplitSpec.AverageWithinSampleRange | internal/split/attempts.go:150-158 | The average at an index lies within any positive range containing all its samples. |
| SplitSpec.AverageOfSingleRun | internal/split/attempts.go:122-166 | With one qualifying attempt, the average series is that attempt's splits. |
| Split.Attempts.LatestCompletedSplits | internal/split/attempts.go:170-189 | Returns the splits of the latest completed attempt with a non-zero final time, or None. |
| SplitSpec.LatestCompletedIndex | internal/split/attempts.go:170-189 | None exactly when no attempt qualifies. Otherwise the index is a qualifying attempt and no later attempt qualifies. |
| SplitSpec.FirstIndexOf | internal/split/attempts.go:193-200 | None exactly when no attempt has the id. Otherwise the index is the first attempt with that id. |
| Split.Attempts.DeleteAttempt | internal/split/attempts.go:192-212 | Returns true exactly when some attempt has the id. In that case the first such attempt is removed, the count drops by one and the cache is recomputed from the new history. Otherwise nothing changes. |
| SplitSpec.DeleteKeepsOthers | internal/split/attempts.go:206 | Deleting removes exactly the first attempt with the id and keeps the others in order, so the multisets differ by that attempt. With no match the history is unchanged. |
| Split.Attempts.EditAttemptSplits | internal/split/attempts.go:217-248 | Returns true exactly when the new splits have one entry per segment, their non-zero entries are positive and strictly increasing, and some attempt has the id. In that case the first such attempt gets the new splits and the cache is recomputed. Otherwise nothing changes. |
| Split.CheckIncreasingNonZero | internal/split/attempts.go:222-235 | The validation loop accepts exactly the arrays whose non-zero entries are positive and strictly increasing. |
| SplitSpec.ComputeDelta | internal/split/comparison.go:14-16 | The delta added to the comparison split gives the current split. It is negative exactly when the current split is smaller. |
| Split.ComparisonSplits | internal/split/comparison.go:19-30 | "best_segments", "average_segments" and "latest_run" select their series. Any other string selects the personal best. |
| Split.ComputeSplitDeltas | internal/split/comparison.go:33-91 | There is one delta record per live split, and record i is the specified delta for segment i against the selected series. |
| SplitSpec.DeltaFor | internal/split/comparison.go:37-88 | A record is skipped exactly when its split or the previous one is 0, and then carries nothing else. The delta is nonzero only against a positive comparison value, and is then the difference. "Ahead" means a negative delta. "Best ever" means beating a recorded best segment. "Gained" means beating a positive comparison segment time. |
| Split.UpdateBestSegments | internal/split/comparison.go:143-162 | Each segment's best time is lowered to the run's segment time where that is computable and smaller, or where no best is recorded. Nothing else changes. |
| Split.UpdatePersonalBest | internal/split/comparison.go:94-123 | The segments become the specified cache update for the run. Nothing else changes. |
| Split.TakePersonalBestTimes | internal/split/comparison.go:116-122 | Every segment whose run split is positive takes that split as its personal-best time. The others keep theirs. |
| SplitSpec.UpdateRules | internal/split/comparison.go:94-123 | Names persist. A run of the wrong length changes nothing. A recorded best never goes up. A personal-best time changes only for a run that beats the stored final, and only to a positive split. Such a run sets every positive entry. |
| Split.RecalculatePersonalBest | internal/split/comparison.go:126-141 | The segments become the cache recomputed from cleared times by replaying the history. Nothing else changes. |
| SplitSpec.Replay | internal/split/comparison.go:133-140 | Replaying keeps the number of segments. |
| SplitSpec.ReplayKeepsNames | internal/split/comparison.go:126-141 | Replaying keeps the segment names. |
| SplitSpec.RecalculateIsIdempotent | internal/split/comparison.go:126-141 | The recomputed cache depends only on the names and the history, and recomputing twice equals recomputing once. |
| SplitSpec.RecalculatedFinalIsFastest | internal/split/comparison.go:126-141 | After recomputation, the last segment's personal best is 0 exactly when no replayed run has a positive final time. Otherwise it is a replayed run's final time, and the smallest positive one. |
| Templates.NewTemplate | internal/split/template.go:15-25 | A template stores id, name and segment names as given, and both timestamps are the creation instant. |
| Templates.SnapshotKeepsTemplateNames | internal/split/template.go:21 | Snapshotting a template's names into segments gives back the names in order, with no cached times. |
| Format.NatToString | frontend/src/lib/utils/format.ts:10-22 | `String(n)` of a natural is a non-empty digit string whose value is n, with no leading zero except for 0 itself. |
| Format.PadStart | frontend/src/lib/utils/format.ts:10-11 | The result has the target width or the input's width, the input is at its end, and the fill is before it. |
| Format.Padded | frontend/src/lib/utils/format.ts:10-14 | A zero-padded number below 10^w is exactly w digits reading back as the number. |
| Format.PadEnd | frontend/src/lib/utils/format.ts:116 | The result has the target width or the input's width, the input is its prefix, and the fill is after it. |
| Format.SplitOn | frontend/src/lib/utils/format.ts:81 | Splitting gives at least one part, and no part contains the separator. |
| Format.SplitOnJoin | frontend/src/lib/utils/format.ts:81 | Joining the parts with the separator gives back the input. |
| Format.TrimStart | frontend/src/lib/utils/format.ts:77 | The result is a suffix of the input that does not start with JavaScript whitespace, and everything removed is whitespace. |
| Format.TrimEnd | frontend/src/lib/utils/format.ts:77 | The result is a prefix of the input that does not end with JavaScript whitespace, and everything removed is whitespace. |
| Format.TrimUntouched | frontend/src/lib/utils/format.ts:77 | Trimming leaves a string without whitespace at either end unchanged. |
| Format.LeadingDigits | frontend/src/lib/utils/format.ts:108 | `parseInt` reads the longest digit prefix: it is a prefix of the input and the next character is not a digit. |
| Format.ParseIntDigits | frontend/src/lib/utils/format.ts:108 | `parseInt` of a digit string, with or without a leading '+', is its decimal value. |
| Format.Trim | frontend/src/lib/utils/format.ts:77 | `trim()` gives a result no longer than the input, with no JavaScript whitespace at either end. |
| Format.ParseSigned | frontend/src/lib/utils/format.ts:90-116 | What `parseInt` reads after skipping whitespace: an optional sign and the leading digits. The result is negative only when the text starts with '-'. |
| Format.ParseInt | frontend/src/lib/utils/format.ts:90-116 | `parseInt(s, 10)` is negative only when the first non-whitespace character is '-'. Format.ParseIntDigits gives its value on digit strings. |
| Format.FormatTime | frontend/src/lib/utils/format.ts:1-23 | Only computes. Format.FormatTimeClampsNegatives, Format.FormatTimeLayout and Format.ParseFormatTime state its properties: negatives clamp to "0.000", the layout depends on magnitude, and parsing inverts it. |
| Format.FormatTimeClampsNegatives | frontend/src/lib/utils/format.ts:2 | Every negative time formats as "0.000". |
| Format.FormatTimeLayout | frontend/src/lib/utils/format.ts:1-23 | The colon fields are 3 from one hour, 2 from one minute and 1 below. A leading hour or minute field has no leading zero and minutes are two digits. The seconds field has three fractional digits, zero-padded to two integer digits after a colon. |
| Format.ParseFormatTime | frontend/src/lib/utils/format.ts:1-23 | Parsing the formatted text of any non-negative time gives back that time. |
| Format.FormatSplitTime | frontend/src/lib/utils/format.ts:44-47 | The result is "-" exactly for 0. Otherwise it is the plain time format. |
| Format.ParseFormatSplitTime | frontend/src/lib/utils/format.ts:44-47 | Parsing the formatted text of any non-negative split time gives back that time. "-" reads back as 0. |
| Format.FormatRunTime | frontend/src/lib/utils/format.ts:50-69 | Only computes. Format.FormatRunTimeLayout and Format.ParseFormatRunTime state its properties: "-" for non-positive times, minutes always shown, and parsing inverts it. |
| Format.FormatRunTimeLayout | frontend/src/lib/utils/format.ts:50-69 | The result is "-" exactly for non-positive times. Otherwise it has 3 fields from one hour and always at least minutes and seconds, with a two-digit seconds field and three fractional digits. |
| Format.ParseFormatRunTime | frontend/src/lib/utils/format.ts:50-69 | Parsing a formatted run time gives back the time. Non-positive times give 0. |
| Format.FormatDelta | frontend/src/lib/utils/format.ts:25-42 | Only computes: the sign followed by the magnitude text. Format.FormatDeltaSign, Format.FormatDeltaTail and Format.FormatDeltaMagnitude state its properties. |
| Format.DeltaMagnitude | frontend/src/lib/utils/format.ts:29-41 | Only computes: the unsigned delta text. Format.DeltaTotal and Format.FormatDeltaMagnitude state its properties: the fields recompose the magnitude truncated to 10 ms, and a minutes field appears exactly from one minute. |
| Format.Magnitude | frontend/src/lib/utils/format.ts:27 | The magnitude is the time or its negation, and never negative. |
| Format.FormatDeltaSign | frontend/src/lib/utils/format.ts:25-26 | The first character is '-' exactly for negative deltas and '+' otherwise, followed by at least one character. |
| Format.FormatDeltaTail | frontend/src/lib/utils/format.ts:25-42 | After the sign comes the text of the magnitude. |
| Format.DeltaTotal | frontend/src/lib/utils/format.ts:29-32 | The minutes, seconds and centiseconds shown recompose the magnitude truncated to 10 ms, and minutes are shown exactly from one minute. |
| Format.FormatDeltaMagnitude | frontend/src/lib/utils/format.ts:25-42 | Parsing the text after the sign gives the magnitude truncated to centiseconds. It has a minutes field exactly from one minute, and it ends in '.' followed by exactly two centisecond digits. |
| Format.ParseTimeWith | frontend/src/lib/utils/format.ts:76-122 | The parser, with a flag choosing the as-written or the corrected fraction reading. It only computes. The round trips, Format.ParseTimeRejects, Format.FractionIsPadded and Format.FractionLengthRejected state its properties for both readings. |
| Format.ParseFields | frontend/src/lib/utils/format.ts:84-120 | Only computes: the hours, minutes and seconds readings for one to three fields, with null on a NaN or negative hours or minutes field. Format.FieldsOf restates it over those readings, and Format.FieldsNonNegative shows its result is never negative under the corrected reading. |
| Format.SecondsPart | frontend/src/lib/utils/format.ts:104-118 | Only computes: the seconds and fraction readings of the last field. Format.SecondsPartNonNegative shows both are non-negative under the corrected reading. Format.SignedSecondsPart shows a signed fraction gives a negative fraction under the as-written one. |
| Format.ParseTimeAsWritten | frontend/src/lib/utils/format.ts:76-122 | `parseTime` as written. Format.SignedFractionAccepted and Format.AsWrittenCanBeNegative show it returns a negative time for a signed fraction. |
| Format.ParseTime | frontend/src/lib/utils/format.ts:76-122 | `parseTime` with the fraction limited to digits. Format.ParseTimeNonNegative shows it never returns a negative time, and Format.SignedFractionRejected shows it rejects a signed fraction. |
| Format.ParseTimeRejects | frontend/src/lib/utils/format.ts:76-106 | Blank input or "-" reads as 0. More than two colons, or more than one dot in the last field, gives null. |
| Format.FractionIsPadded | frontend/src/lib/utils/format.ts:112-118 | After a digit seconds field, in a seconds-only time, a one- to three-digit fraction is read as milliseconds after padding it on the right to three digits. |
| Format.FractionLengthRejected | frontend/src/lib/utils/format.ts:114 | After a digit seconds field, an empty fraction or a digit fraction longer than three digits gives null. |
| Format.FractionAsWritten | frontend/src/lib/utils/format.ts:112-117 | The fraction reading as written: null for an empty fraction or one longer than three characters, otherwise `parseInt` of the fraction right-padded with '0' to three characters. It only computes. Format.FractionIsPadded states its value on digit fractions. Format.SignedFractionAccepted and Format.AsWrittenCanBeNegative show that it accepts a signed fraction as a negative value. |
| Format.FractionDigitsOnly | frontend/src/lib/utils/format.ts:112-118 | The corrected fraction reading accepts only one to three digits, so its value is below 1000 and never negative. |
| Format.SignedFractionAccepted | frontend/src/lib/utils/format.ts:112-117 | As written, a fraction of '-' and one or two digits is accepted and subtracts its padded value. |
| Format.AsWrittenCanBeNegative | frontend/src/lib/utils/format.ts:112-120 | As written, "0.-d" parses to −10·d, a negative time. |
| Format.SignedFractionRejected | frontend/src/lib/utils/format.ts:112-117 | With the corrected fraction reading, a signed fraction gives null. |
| Format.ParseTimeNonNegative | frontend/src/lib/utils/format.ts:76-122 | The corrected parser never returns a negative time. |

## Left out

- Concurrency. The engine's read/write mutex is not modelled: every operation is one atomic step.
- Observers. The periodic sampler goroutine (15 ms ticker, stop channel) and the tick/state-change callbacks are left out. The field `sampling` records only whether the sampler would be running.
- Clock and timestamps. The wall clock is the parameter `now` in whole milliseconds. Go's separate truncation of `time.Since(start)` and of the pause total to milliseconds is not modelled. Attempt `StartedAt`, the aggregates' `CreatedAt`/`UpdatedAt` and template timestamps are not modelled, except `Templates.NewTemplate`'s two equal creation times.
- Timer.Engine.Split: it requires `now >= lastNow` (a monotonic clock), and so do Timer.Engine.Pause and Timer.Engine.Resume. Without it, time going backwards breaks the run invariant, and the model does not say what happens then.
- String lengths. Strings are sequences of Unicode code points, not UTF-16 code units. JavaScript's `.length`, `padStart` and `padEnd` count UTF-16 units, so lengths differ for characters outside the Basic Multilingual Plane. For example, in JavaScript `parseTime("0.12😀")` gives `null`, because the fraction has length 4. In the model the fraction has length 3 and reads as 12 ms.
- Integer widths and floating point. `int64` overflow is not modelled: integers are unbounded. JavaScript numbers are modelled as integers. Fractional or non-finite inputs to the formatters, and `String()`'s exponent notation for huge values, are left out.
- Timer.Engine.UndoSplit: it requires non-empty arrays whenever it would slice them. In the source, a restored run whose cursor disagrees with its arrays panics there.
- Split.UpdatePersonalBest: it requires a non-empty run or non-empty segments. With both empty, the source indexes element −1 and panics.
- Split.Attempts.AverageSplits: it requires `ReplaySafe`, and so do `Split.RecalculatePersonalBest` and, on the paths that reach them, `Split.ComparisonSplits`, `Split.ComputeSplitDeltas`, `Split.Attempts.DeleteAttempt` and `Split.Attempts.EditAttemptSplits`. `ReplaySafe` says the segments are non-empty or no completed attempt has empty splits. That excludes the same index −1 panic.
- Attempt ids. After a delete, the count drops, so a later attempt can reuse an existing id. The model does this as the code does, and claims no uniqueness of ids.
- Persistence and the application layer: JSON storage, the Wails bindings, hotkeys and the UI components.
- Timer.Engine.RecordSplit and Split.TakePersonalBestTimes are the recording branches of Timer.Engine.Split and Split.UpdatePersonalBest, given methods of their own. They are not separate operations in the source.
- Copies. The source returns fresh copies of slices. Values in Dafny are immutable, so aliasing is not modelled.
- Behaviour the repository's tests expect but `attempts.go` and `comparison.go` do not implement. This includes `BestSegments`, `EstimateGaps` and gap estimation (internal/split/attempts_test.go:86-111, 203-237, 318-540), and partial-run averages and cumulative bests (internal/split/attempts_test.go:113-147, 169-184), and "effectively skipped" deltas (internal/split/comparison_test.go:100-116, 163-210). The model follows the code:
  - cached `PersonalBestMS`/`BestSegmentMS` fields;
  - edits checked against the segment count;
  - the count decremented on delete.

## Findings

| source | as written | input that shows it | evidently intended | confidence | as-written member | corrected member |
|---|---|---|---|---|---|---|
| frontend/src/lib/utils/format.ts:112-117 | The fraction after the dot is padded and handed to `parseInt`. `parseInt` accepts a leading sign, so a signed fraction is not `NaN` and is accepted. | `parseTime("0.-5")` returns −50 (the fraction "-5" pads to "-50"). | The fraction consists of one to three digits, anything else gives `null`, so a parsed time is never negative. The hours, minutes and seconds fields are already checked to be non-negative. | not executed | Format.AsWrittenCanBeNegative | Format.ParseTimeNonNegative |

The as-written reading is `Format.ParseTimeAsWritten`, with `Format.SignedFractionAccepted`. The corrected reading is `Format.ParseTime`, with `Format.FractionDigitsOnly` and `Format.SignedFractionRejected`. Every other lemma about the parser holds for both readings: the round trips, rejections and padding take a `strict` flag.
