/** Per-day segmentation of an actigraphy recording: midnight detection,
    the [start, end) window of one day with its daylight-saving correction,
    the projection of the coarse non-wear score onto the fine sample grid,
    and the slicing, padding and rescaling of one day's three signals
    (src/actigraphy/io/data_import.py). */
module DataImport {
  import opened PyRuntime

  /** A parsed, timezone-aware timestamp, reduced to what the import layer
      uses: `instant` is the absolute time (two aware datetimes compare equal
      exactly when their instants agree) and `day` the day of the month in
      the timestamp's own UTC offset. */
  datatype Timestamp = Timestamp(instant: int, day: int)

  /** One row of the fine-resolution table `metashort`. */
  datatype ShortRow = ShortRow(timestamp: Timestamp, enmo: real, anglez: real)

  /** The parts of the parsed recording that one day's graph is built from:
      the fine table, the coarse non-wear score of `metalong`, and
      `windowsizes` (fine window first, coarse window second, in seconds). */
  datatype Recording = Recording(metashort: seq<ShortRow>, nonwearScore: seq<int>, windowSizes: seq<int>)

  /** `(start, end)` of one day in fine samples; `end == None` is the last day. */
  datatype DayWindow = DayWindow(start: int, end: Option<int>)

  /** The three aligned per-day outputs of `get_graph_data`. */
  datatype DaySignals = DaySignals(acceleration: seq<real>, angle: seq<real>, nonwear: seq<int>)

  datatype ImportError =
    | DayOutOfRange          // IndexError from indexing the list of day pairs
    | NoStartTime            // ValueError "No start time found for day"
    | InvalidAction(action: string)  // ValueError "Invalid action"

  datatype Result<+T> = Ok(value: T) | Err(error: ImportError)

  function Timestamps(rec: Recording): (ts: seq<Timestamp>)
    ensures |ts| == |rec.metashort|
    ensures forall k :: 0 <= k < |ts| ==> ts[k] == rec.metashort[k].timestamp
  {
    seq(|rec.metashort|, k requires 0 <= k < |rec.metashort| => rec.metashort[k].timestamp)
  }

  function Enmo(rec: Recording): (xs: seq<real>)
    ensures |xs| == |rec.metashort|
    ensures forall k :: 0 <= k < |xs| ==> xs[k] == rec.metashort[k].enmo
  {
    seq(|rec.metashort|, k requires 0 <= k < |rec.metashort| => rec.metashort[k].enmo)
  }

  function Anglez(rec: Recording): (xs: seq<real>)
    ensures |xs| == |rec.metashort|
    ensures forall k :: 0 <= k < |xs| ==> xs[k] == rec.metashort[k].anglez
  {
    seq(|rec.metashort|, k requires 0 <= k < |rec.metashort| => rec.metashort[k].anglez)
  }

  /** Fine timestamps are pairwise distinct instants (the recording is sampled
      at strictly increasing times). */
  ghost predicate DistinctInstants(ts: seq<Timestamp>)
  {
    forall a, b :: 0 <= a < b < |ts| ==> ts[a].instant != ts[b].instant
  }

  // ---------------------------------------------------------------------
  // Midnights
  // ---------------------------------------------------------------------

  /** `timestamps.index(t)`: the first position holding a timestamp equal to `t`. */
  function IndexOf(ts: seq<Timestamp>, t: Timestamp): (k: nat)
    requires exists j :: 0 <= j < |ts| && ts[j].instant == t.instant
    ensures k < |ts| && ts[k].instant == t.instant
    ensures forall j :: 0 <= j < k ==> ts[j].instant != t.instant
    decreases |ts|
  {
    if ts[0].instant == t.instant then 0
    else
      var j :| 0 <= j < |ts| && ts[j].instant == t.instant;
      assert ts[1..][j - 1] == ts[j];
      1 + IndexOf(ts[1..], t)
  }

  /** The entries contributed by the pairs `(ts[i], ts[i + 1])`, `(ts[i + 1], ts[i + 2])`, ... */
  function MidnightsFrom(ts: seq<Timestamp>, i: nat): (m: seq<nat>)
    ensures forall k :: 0 <= k < |m| ==> 1 <= m[k] <= |ts|
    decreases |ts| - i
  {
    if i + 1 >= |ts| then []
    else
      (if ts[i].day != ts[i + 1].day then [IndexOf(ts, ts[i + 1]) + 1] else [])
      + MidnightsFrom(ts, i + 1)
  }

  /** `get_midnights`: for every neighbouring pair whose day of month differs,
      the position of the pair's second timestamp plus one. */
  function GetMidnights(ts: seq<Timestamp>): (m: seq<nat>)
    ensures forall k :: 0 <= k < |m| ==> 1 <= m[k] <= |ts|
  {
    MidnightsFrom(ts, 0)
  }

  lemma IndexOfDistinct(ts: seq<Timestamp>, k: nat)
    requires DistinctInstants(ts) && k < |ts|
    ensures IndexOf(ts, ts[k]) == k
  {
  }

  /** Reference definition: `j + 2` for every day change `(j, j + 1)` with
      `j >= i`, in order. */
  function DayChangesFrom(ts: seq<Timestamp>, i: nat): (m: seq<nat>)
    decreases |ts| - i
  {
    if i + 1 >= |ts| then []
    else (if ts[i].day != ts[i + 1].day then [i + 2] else []) + DayChangesFrom(ts, i + 1)
  }

  /** With distinct instants, `index(ts[j + 1]) + 1` is `j + 2`, so the
      midnights are exactly the reference list. */
  lemma {:induction false} MidnightsFromAreDayChanges(ts: seq<Timestamp>, i: nat)
    requires DistinctInstants(ts)
    ensures MidnightsFrom(ts, i) == DayChangesFrom(ts, i)
    decreases |ts| - i
  {
    if i + 1 < |ts| {
      MidnightsFromAreDayChanges(ts, i + 1);
      IndexOfDistinct(ts, i + 1);
    }
  }

  /** Every entry `b` of `m` is at least `lo` and 2, at most `|ts|`, and marks a
      day change between samples `b - 2` and `b - 1`. */
  ghost predicate EntriesAreDayChanges(ts: seq<Timestamp>, m: seq<nat>, lo: nat)
  {
    forall k :: 0 <= k < |m| ==> lo <= m[k] <= |ts| && 2 <= m[k] && ts[m[k] - 2].day != ts[m[k] - 1].day
  }

  ghost predicate StrictlyIncreasing(m: seq<nat>)
  {
    forall a, b :: 0 <= a < b < |m| ==> m[a] < m[b]
  }

  /** Every day change `(j, j + 1)` with `j >= lo` contributes `j + 2` to `m`. */
  ghost predicate HasEveryDayChange(ts: seq<Timestamp>, m: seq<nat>, lo: nat)
  {
    forall j :: lo <= j && j + 1 < |ts| && ts[j].day != ts[j + 1].day ==> j + 2 in m
  }

  lemma {:induction false} DayChangesFromSound(ts: seq<Timestamp>, i: nat)
    ensures EntriesAreDayChanges(ts, DayChangesFrom(ts, i), i + 2)
    decreases |ts| - i
  {
    if i + 1 < |ts| {
      var rest := DayChangesFrom(ts, i + 1);
      DayChangesFromSound(ts, i + 1);
      if ts[i].day != ts[i + 1].day {
        var m := [i + 2] + rest;
        assert DayChangesFrom(ts, i) == m;
        forall k | 0 <= k < |m|
          ensures i + 2 <= m[k] <= |ts| && ts[m[k] - 2].day != ts[m[k] - 1].day
        {
          if k > 0 {
            assert m[k] == rest[k - 1];
          }
        }
      } else {
        assert DayChangesFrom(ts, i) == rest;
      }
    }
  }

  lemma {:induction false} DayChangesFromIncreasing(ts: seq<Timestamp>, i: nat)
    ensures StrictlyIncreasing(DayChangesFrom(ts, i))
    decreases |ts| - i
  {
    if i + 1 < |ts| {
      var rest := DayChangesFrom(ts, i + 1);
      DayChangesFromIncreasing(ts, i + 1);
      if ts[i].day != ts[i + 1].day {
        DayChangesFromSound(ts, i + 1);
        var m := [i + 2] + rest;
        assert DayChangesFrom(ts, i) == m;
        forall a, b | 0 <= a < b < |m| ensures m[a] < m[b] {
          assert m[b] == rest[b - 1];
          if a > 0 {
            assert m[a] == rest[a - 1];
          }
        }
      } else {
        assert DayChangesFrom(ts, i) == rest;
      }
    }
  }

  lemma {:induction false} DayChangesFromComplete(ts: seq<Timestamp>, i: nat)
    ensures HasEveryDayChange(ts, DayChangesFrom(ts, i), i)
    decreases |ts| - i
  {
    if i + 1 < |ts| {
      DayChangesFromComplete(ts, i + 1);
    }
  }

  /** Every midnight index is `j + 2` for a pair `(j, j + 1)` whose day of
      month differs, every such pair contributes one, and the list is
      strictly increasing within `2 .. |ts|`. */
  lemma MidnightsCharacterised(ts: seq<Timestamp>)
    requires DistinctInstants(ts)
    ensures EntriesAreDayChanges(ts, GetMidnights(ts), 2)
    ensures StrictlyIncreasing(GetMidnights(ts))
    ensures HasEveryDayChange(ts, GetMidnights(ts), 0)
  {
    MidnightsFromAreDayChanges(ts, 0);
    DayChangesFromSound(ts, 0);
    DayChangesFromIncreasing(ts, 0);
    DayChangesFromComplete(ts, 0);
  }

  // ---------------------------------------------------------------------
  // Daylight-saving correction
  // ---------------------------------------------------------------------

  /** `3600 / window_size`: fine samples per hour. */
  function SamplesPerHour(windowSize: int): (h: int)
    requires 0 < windowSize && 3600 % windowSize == 0
    ensures h > 0
  {
    3600 / windowSize
  }

  /** `(day_length + 1) // (3600 / window_size)`: the whole hours the raw day spans. */
  function HoursSpanned(start: int, end: int, windowSize: int): int
    requires 0 < windowSize && 3600 % windowSize == 0
  {
    (end - start + 1) / SamplesPerHour(windowSize)
  }

  /** The quotient of a division with a remainder in range is unique. */
  lemma DivUnique(x: int, h: int, q: int, r: int)
    requires h > 0 && 0 <= r < h && x == q * h + r
    ensures x / h == q
  {
    var q', r' := x / h, x % h;
    var d := q - q';
    assert d * h == r' - r;
    if d >= 1 {
      MulAtLeast(d, h);
    } else if d <= -1 {
      MulAtLeast(-d, h);
    }
  }

  lemma MulAtLeast(d: int, h: int)
    requires d >= 1 && h > 0
    ensures d * h >= h
  {
    var e := d - 1;
    assert d * h == h + e * h;
  }

  /** Moving the numerator by one divisor moves the floor quotient by one. */
  lemma DivShift(x: int, h: int)
    requires h > 0
    ensures (x + h) / h == x / h + 1
    ensures (x - h) / h == x / h - 1
  {
    var q, r := x / h, x % h;
    DivUnique(x + h, h, q + 1, r);
    DivUnique(x - h, h, q - 1, r);
  }

  /** The end of the day after the daylight-saving correction. */
  function DstAdjusted(start: int, end: int, windowSize: int): (r: int)
    requires 0 < windowSize && 3600 % windowSize == 0
    ensures var h := SamplesPerHour(windowSize);
      r == end - h || r == end || r == end + h
  {
    var h := SamplesPerHour(windowSize);
    var hours := HoursSpanned(start, end, windowSize);
    if hours == 25 then end - h
    else if hours == 23 then end + h
    else end
  }

  /** `_adjust_timepoint_for_daylight_savings`: a day spanning 25 hours of
      samples loses one hour at its end, one spanning 23 hours gains one,
      any other day keeps its end. `day_length` is computed once, so at
      most one of the two corrections applies. */
  method AdjustTimepointForDaylightSavings(start: int, end: int, windowSize: int) returns (adjusted: int)
    requires 0 < windowSize && 3600 % windowSize == 0
    ensures HoursSpanned(start, end, windowSize) == 25 ==> adjusted == end - SamplesPerHour(windowSize)
    ensures HoursSpanned(start, end, windowSize) == 23 ==> adjusted == end + SamplesPerHour(windowSize)
    ensures HoursSpanned(start, end, windowSize) != 25 && HoursSpanned(start, end, windowSize) != 23 ==> adjusted == end
    ensures adjusted == DstAdjusted(start, end, windowSize)
  {
    var dayLength := end - start;
    adjusted := end;
    if (dayLength + 1) / (3600 / windowSize) == 25 {
      adjusted := adjusted - 3600 / windowSize;
    }
    if (dayLength + 1) / (3600 / windowSize) == 23 {
      adjusted := adjusted + 3600 / windowSize;
    }
  }

  /** A day spanning 23, 24 or 25 hours of samples spans 24 after the correction. */
  lemma DstNormalisesDay(start: int, end: int, windowSize: int)
    requires 0 < windowSize && 3600 % windowSize == 0
    requires 23 <= HoursSpanned(start, end, windowSize) <= 25
    ensures HoursSpanned(start, DstAdjusted(start, end, windowSize), windowSize) == 24
  {
    DivShift(end - start + 1, SamplesPerHour(windowSize));
  }

  /** Correcting an already corrected day changes nothing. */
  lemma DstAdjustedIdempotent(start: int, end: int, windowSize: int)
    requires 0 < windowSize && 3600 % windowSize == 0
    ensures DstAdjusted(start, DstAdjusted(start, end, windowSize), windowSize) == DstAdjusted(start, end, windowSize)
  {
    var h := SamplesPerHour(windowSize);
    var hours := HoursSpanned(start, end, windowSize);
    if hours == 25 || hours == 23 {
      DstNormalisesDay(start, end, windowSize);
    }
  }

  // ---------------------------------------------------------------------
  // Day windows
  // ---------------------------------------------------------------------

  /** `[0, *midnights, None]`. */
  function TargetTimepoints(midnights: seq<nat>): (t: seq<Option<int>>)
    ensures |t| == |midnights| + 2
    ensures t[0] == Some(0) && t[|t| - 1] == None
    ensures forall k :: 0 <= k < |midnights| ==> t[k + 1] == Some(midnights[k] as int)
  {
    [Some(0)] + seq(|midnights|, k requires 0 <= k < |midnights| => Some(midnights[k] as int)) + [None]
  }

  /** The `k`-th consecutive pair of `[0, *midnights, None]`. */
  lemma TargetPair(m: seq<nat>, k: int)
    requires 0 <= k <= |m|
    ensures |Pairwise(TargetTimepoints(m))| == |m| + 1
    ensures Pairwise(TargetTimepoints(m))[k] ==
      (if k == 0 then Some(0) else Some(m[k - 1] as int), if k == |m| then None else Some(m[k] as int))
  {
    var t := TargetTimepoints(m);
    if 0 < k {
      assert t[k] == t[(k - 1) + 1];
    }
    if k < |m| {
      assert t[k + 1] == Some(m[k] as int);
    }
  }

  /** `_day_start_and_end_time_points`: the `day`-th pair of consecutive
      target time points (Python indexing, so negative days count from the
      last day), with a present, non-zero end passed through the
      daylight-saving correction. */
  function DayStartAndEndTimePoints(ts: seq<Timestamp>, day: int, windowSize: int): (r: Result<DayWindow>)
    requires 0 < windowSize && 3600 % windowSize == 0
    ensures var m := GetMidnights(ts);
      r.Ok? <==> -(|m| + 1) <= day <= |m|
    ensures r.Err? ==> r.error == DayOutOfRange
    ensures r.Ok? ==>
      var m := GetMidnights(ts);
      var k := ToPosition(|m| + 1, day);
      && 0 <= k <= |m|
      && r.value.start == (if k == 0 then 0 else m[k - 1])
      && (r.value.end.None? <==> k == |m|)
      && (k < |m| ==> r.value.end == Some(DstAdjusted(r.value.start, m[k], windowSize)))
  {
    var m := GetMidnights(ts);
    var pairs := Pairwise(TargetTimepoints(m));
    var picked := Index(pairs, day);
    if picked.None? then Err(DayOutOfRange)
    else
      TargetPair(m, ToPosition(|pairs|, day));
      var (start, end) := picked.value;
      if start.None? then Err(NoStartTime)
      else if end.Some? && end.value != 0 then
        Ok(DayWindow(start.value, Some(DstAdjusted(start.value, end.value, windowSize))))
      else Ok(DayWindow(start.value, end))
  }

  /** A day starts at sample 0 exactly when it is the first day (so only the
      first day is prepended to): every midnight index is at least 1. */
  lemma DayStartsAtZeroOnlyFirst(ts: seq<Timestamp>, day: int, windowSize: int)
    requires 0 < windowSize && 3600 % windowSize == 0
    requires DayStartAndEndTimePoints(ts, day, windowSize).Ok?
    ensures DayStartAndEndTimePoints(ts, day, windowSize).value.start == 0
      <==> ToPosition(|GetMidnights(ts)| + 1, day) == 0
  {
  }

  lemma FirstMidnightAtLeastTwo(ts: seq<Timestamp>, k: nat)
    requires DistinctInstants(ts) && k < |GetMidnights(ts)|
    ensures GetMidnights(ts)[k] >= 2
  {
    MidnightsFromAreDayChanges(ts, 0);
    DayChangesFromSound(ts, 0);
    assert EntriesAreDayChanges(ts, DayChangesFrom(ts, 0), 2);
  }

  // ---------------------------------------------------------------------
  // Non-wear projection
  // ---------------------------------------------------------------------

  /** `windowsizes[1] // windowsizes[0] - 1`. */
  function WindowSizeRatio(windowSizes: seq<int>): int
    requires |windowSizes| >= 2 && windowSizes[0] > 0
  {
    windowSizes[1] / windowSizes[0] - 1
  }

  /** Fine sample `j` lies in the numpy slice `[i : i + ratio]` of some coarse
      index `i < count` whose non-wear score exceeds 1. */
  predicate FlaggedBefore(scores: seq<int>, count: nat, ratio: int, n: nat, j: int)
    requires count <= |scores|
  {
    exists i :: 0 <= i < count && scores[i] > 1 && SliceBound(i, n) <= j < SliceBound(i + ratio, n)
  }

  /** The non-wear vector the projection must produce: 1 where some flagged
      coarse index covers the fine sample, 0 elsewhere. */
  function NonwearFlags(scores: seq<int>, ratio: int, n: nat): (flags: seq<int>)
    ensures |flags| == n
    ensures forall j :: 0 <= j < n ==> flags[j] == 0 || flags[j] == 1
  {
    seq(n, j requires 0 <= j < n => if FlaggedBefore(scores, |scores|, ratio, n, j) then 1 else 0)
  }

  /** For a non-negative ratio, entry `j` is 1 exactly when a coarse index `i`
      with score above 1 has `i <= j < i + ratio`. */
  lemma NonwearFlagsCharacterised(scores: seq<int>, ratio: int, n: nat, j: nat)
    requires ratio >= 0 && j < n
    ensures NonwearFlags(scores, ratio, n)[j] == 1 <==>
      exists i :: 0 <= i < |scores| && scores[i] > 1 && i <= j < i + ratio
  {
    if NonwearFlags(scores, ratio, n)[j] == 1 {
      var i :| 0 <= i < |scores| && scores[i] > 1 && SliceBound(i, n) <= j < SliceBound(i + ratio, n);
      assert i <= j < i + ratio;
    }
    if exists i :: 0 <= i < |scores| && scores[i] > 1 && i <= j < i + ratio {
      var i :| 0 <= i < |scores| && scores[i] > 1 && i <= j < i + ratio;
      assert SliceBound(i, n) <= j < SliceBound(i + ratio, n);
    }
  }

  /** The projection sets fine samples `[i, i + ratio)` of the coarse
      index `i` itself, not of `i`'s position on the fine grid. */
  lemma NonwearFlagsExample()
    ensures NonwearFlags([0, 2, 0], 2, 6) == [0, 1, 1, 0, 0, 0]
  {
    var s := [0, 2, 0];
    var f := NonwearFlags(s, 2, 6);
    assert FlaggedBefore(s, 3, 2, 6, 1) by { assert SliceBound(1, 6) <= 1 < SliceBound(3, 6); }
    assert FlaggedBefore(s, 3, 2, 6, 2) by { assert SliceBound(1, 6) <= 2 < SliceBound(3, 6); }
    assert f[0] == 0 && f[3] == 0 && f[4] == 0 && f[5] == 0;
  }

  /** Taking one more coarse index into account flags exactly the fine
      samples of its slice in addition. */
  lemma FlaggedBeforeStep(scores: seq<int>, i: nat, ratio: int, n: nat, j: int)
    requires i < |scores|
    ensures FlaggedBefore(scores, i + 1, ratio, n, j) <==>
      FlaggedBefore(scores, i, ratio, n, j) || (scores[i] > 1 && SliceBound(i, n) <= j < SliceBound(i + ratio, n))
  {
    if FlaggedBefore(scores, i + 1, ratio, n, j) {
      var i' :| 0 <= i' < i + 1 && scores[i'] > 1 && SliceBound(i', n) <= j < SliceBound(i' + ratio, n);
      if i' < i {
        assert FlaggedBefore(scores, i, ratio, n, j);
      }
    }
  }

  /** The loop of `get_graph_data` that builds `nonwear`: a zero vector of the
      fine length whose slice `[i : i + ratio]` is set to 1 for every coarse
      index `i` with score above 1. */
  method ProjectNonwear(scores: seq<int>, ratio: int, n: nat) returns (flags: seq<int>)
    ensures flags == NonwearFlags(scores, ratio, n)
  {
    var nonwear := new int[n](_ => 0);
    for i := 0 to |scores|
      invariant forall j :: 0 <= j < n ==>
        nonwear[j] == (if FlaggedBefore(scores, i, ratio, n, j) then 1 else 0)
    {
      if scores[i] > 1 {
        var lo, hi := SliceBound(i, n), SliceBound(i + ratio, n);
        forall j | lo <= j < hi {
          nonwear[j] := 1;
        }
      }
      forall j | 0 <= j < n
        ensures nonwear[j] == (if FlaggedBefore(scores, i + 1, ratio, n, j) then 1 else 0)
      {
        FlaggedBeforeStep(scores, i, ratio, n, j);
      }
    }
    flags := nonwear[..];
  }

  // ---------------------------------------------------------------------
  // Padding and rescaling
  // ---------------------------------------------------------------------

  /** `_extend_data`: "prepend" puts the extension first, "append" last, no
      action returns the data as it is, any other action is an error. */
  function ExtendData<T>(data: seq<T>, extension: seq<T>, action: Option<string>): (r: Result<seq<T>>)
    ensures r.Err? <==> action.Some? && action.value != "prepend" && action.value != "append"
    ensures r.Err? ==> r.error == InvalidAction(action.value)
    ensures r.Ok? && action == Some("prepend") ==>
      |r.value| == |extension| + |data| && r.value[..|extension|] == extension && r.value[|extension|..] == data
    ensures r.Ok? && action == Some("append") ==>
      |r.value| == |data| + |extension| && r.value[..|data|] == data && r.value[|data|..] == extension
    ensures action.None? ==> r == Ok(data)
  {
    if action == Some("prepend") then Ok(extension + data)
    else if action == Some("append") then Ok(data + extension)
    else if action.Some? then Err(InvalidAction(action.value))
    else Ok(data)
  }

  /** What a day's padded signal must be: the first day (start 0) gets
      `n - |slice|` leading zeros, otherwise the last day (no end) gets that
      many trailing zeros, and an interior day is its slice whatever its
      length. */
  function PadDay<T>(w: DayWindow, slice: seq<T>, zero: T, n: int): (r: seq<T>)
    ensures |r| == if w.start == 0 || w.end.None? then Max(n, |slice|) else |slice|
    ensures w.start == 0 ==> r[|r| - |slice|..] == slice && forall k :: 0 <= k < |r| - |slice| ==> r[k] == zero
    ensures w.start != 0 ==> r[..|slice|] == slice && forall k :: |slice| <= k < |r| ==> r[k] == zero
  {
    if w.start == 0 then Repeat(zero, n - |slice|) + slice
    else if w.end.None? then slice + Repeat(zero, n - |slice|)
    else slice
  }

  /** The action `get_graph_data` picks for a window makes `_extend_data`
      produce exactly the padded day. */
  lemma ExtendDataPadsDay<T>(w: DayWindow, slice: seq<T>, zero: T, n: int, action: Option<string>)
    requires action == if w.start == 0 then Some("prepend") else if w.end.None? then Some("append") else None
    ensures ExtendData(slice, Repeat(zero, n - |slice|), action) == Ok(PadDay(w, slice, zero, n))
  {
    var ext := Repeat(zero, n - |slice|);
    var r := ExtendData(slice, ext, action);
    if w.start == 0 {
      assert r.value == ext + slice;
    } else if w.end.None? {
      assert r.value == slice + ext;
    }
  }

  /** `abs(x * 1000)`: acceleration in milli-g. */
  function Magnitude(x: real): (r: real)
    ensures r >= 0.0 && (r == x * 1000.0 || r == -(x * 1000.0))
  {
    if x < 0.0 then -(x * 1000.0) else x * 1000.0
  }

  function Magnitudes(xs: seq<real>): (r: seq<real>)
    ensures |r| == |xs| && forall k :: 0 <= k < |xs| ==> r[k] == Magnitude(xs[k])
  {
    seq(|xs|, k requires 0 <= k < |xs| => Magnitude(xs[k]))
  }

  /** `value / 14 - 210`: the conversion to plotting units. */
  function Rescale(v: real): real { v / 14.0 - 210.0 }

  lemma RescaleExample()
    ensures Rescale(Magnitude(0.21)) == -195.0
  {
  }

  predicate ValidWindowSizes(windowSizes: seq<int>)
  {
    |windowSizes| >= 2 && windowSizes[0] > 0 && 3600 % windowSizes[0] == 0
  }

  /** The signals a day must yield: each of the three fine signals sliced to
      the window and padded as `PadDay` says, the acceleration as rescaled
      magnitudes. */
  function DayGraph(w: DayWindow, enmo: seq<real>, anglez: seq<real>, flags: seq<int>, n: int): (g: DaySignals)
    requires |enmo| == |anglez| == |flags|
    ensures |g.acceleration| == |g.angle| == |g.nonwear|
  {
    SliceSameLength(enmo, anglez, w.start, w.end);
    SliceSameLength(enmo, flags, w.start, w.end);
    var acc := PadDay(w, Magnitudes(Slice(enmo, w.start, w.end)), 0.0, n);
    DaySignals(
      seq(|acc|, k requires 0 <= k < |acc| => Rescale(acc[k])),
      PadDay(w, Slice(anglez, w.start, w.end), 0.0, n),
      PadDay(w, Slice(flags, w.start, w.end), 0, n))
  }

  /** The day signals have the subject's samples-per-day length on the first
      and the last day when the slice is not longer than that, and the
      slice's length on an interior day. */
  lemma DayGraphLength(w: DayWindow, enmo: seq<real>, anglez: seq<real>, flags: seq<int>, n: int)
    requires |enmo| == |anglez| == |flags|
    ensures var len := |Slice(enmo, w.start, w.end)|;
      |DayGraph(w, enmo, anglez, flags, n).angle| ==
        if (w.start == 0 || w.end.None?) && len <= n then n else len
  {
    SliceSameLength(enmo, anglez, w.start, w.end);
  }

  /** Sample `k` of the day's acceleration: on the first day the leading
      padding plots at -210 and the slice follows it; on any other day the
      slice comes first and any trailing padding plots at -210. */
  lemma DayGraphAcceleration(w: DayWindow, enmo: seq<real>, anglez: seq<real>, flags: seq<int>, n: int, k: nat)
    requires |enmo| == |anglez| == |flags|
    requires k < |DayGraph(w, enmo, anglez, flags, n).acceleration|
    ensures var s := Slice(enmo, w.start, w.end);
      var a := DayGraph(w, enmo, anglez, flags, n).acceleration;
      var pad := |a| - |s|;
      && 0 <= pad
      && (w.start == 0 ==>
            a[k] == if k < pad then -210.0 else Magnitude(s[k - pad]) / 14.0 - 210.0)
      && (w.start != 0 ==>
            a[k] == if k < |s| then Magnitude(s[k]) / 14.0 - 210.0 else -210.0)
  {
    var s := Slice(enmo, w.start, w.end);
    var acc := PadDay(w, Magnitudes(s), 0.0, n);
    assert DayGraph(w, enmo, anglez, flags, n).acceleration[k] == Rescale(acc[k]);
  }

  /** Slicing, padding and rescaling of `get_graph_data` for a known window:
      the action string is chosen from the window and `_extend_data` is
      applied to each signal with the same zero extension. */
  method AssembleDay(w: DayWindow, enmo: seq<real>, anglez: seq<real>, nonwear: seq<int>, nPointsPerDay: int)
    returns (r: Result<DaySignals>)
    requires |enmo| == |anglez| == |nonwear|
    ensures r == Ok(DayGraph(w, enmo, anglez, nonwear, nPointsPerDay))
  {
    var start, end := w.start, w.end;
    var acc := Magnitudes(Slice(enmo, start, end));
    var ang := Slice(anglez, start, end);
    var nonWear := Slice(nonwear, start, end);

    var extension := Repeat(0.0, nPointsPerDay - |acc|);
    var flagExtension := Repeat(0, nPointsPerDay - |acc|);
    var action: Option<string>;
    if start == 0 {
      action := Some("prepend");
    } else if end.None? {
      action := Some("append");
    } else {
      action := None;
    }

    SliceSameLength(enmo, anglez, start, end);
    SliceSameLength(enmo, nonwear, start, end);
    ExtendDataPadsDay(w, acc, 0.0, nPointsPerDay, action);
    ExtendDataPadsDay(w, ang, 0.0, nPointsPerDay, action);
    ExtendDataPadsDay(w, nonWear, 0, nPointsPerDay, action);
    var accPadded, angPadded, nonWearPadded;
    match ExtendData(acc, extension, action) {
      case Err(e) => return Err(e);
      case Ok(v) => accPadded := v;
    }
    match ExtendData(ang, extension, action) {
      case Err(e) => return Err(e);
      case Ok(v) => angPadded := v;
    }
    match ExtendData(nonWear, flagExtension, action) {
      case Err(e) => return Err(e);
      case Ok(v) => nonWearPadded := v;
    }

    var rescaled := seq(|accPadded|, k requires 0 <= k < |accPadded| => Rescale(accPadded[k]));
    r := Ok(DaySignals(rescaled, angPadded, nonWearPadded));
  }

  /** `get_graph_data`: the acceleration, angle and non-wear signals of one
      day. It fails exactly when the day index is out of range; otherwise it
      yields `DayGraph` of the day's window, the recording's fine signals and
      the projected non-wear flags. `nPointsPerDay` is the subject's stored
      samples-per-day count. */
  method GetGraphData(rec: Recording, day: int, nPointsPerDay: int) returns (r: Result<DaySignals>)
    requires ValidWindowSizes(rec.windowSizes)
    ensures var m := GetMidnights(Timestamps(rec));
      r.Ok? <==> -(|m| + 1) <= day <= |m|
    ensures r.Err? ==> r.error == DayOutOfRange
    ensures r.Ok? ==> r.value == DayGraph(
      DayStartAndEndTimePoints(Timestamps(rec), day, rec.windowSizes[0]).value,
      Enmo(rec), Anglez(rec),
      NonwearFlags(rec.nonwearScore, WindowSizeRatio(rec.windowSizes), |rec.metashort|),
      nPointsPerDay)
  {
    var enmo := Enmo(rec);
    var anglez := Anglez(rec);
    var ratio := WindowSizeRatio(rec.windowSizes);
    var nonwear := ProjectNonwear(rec.nonwearScore, ratio, |enmo|);

    var window := DayStartAndEndTimePoints(Timestamps(rec), day, rec.windowSizes[0]);
    if window.Err? {
      return Err(window.error);
    }
    r := AssembleDay(window.value, enmo, anglez, nonwear, nPointsPerDay);
  }
}
