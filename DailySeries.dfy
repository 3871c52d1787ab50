/** The dense daily series: the log bucketed into per-day row counts and laid
    out over every day from the start day through the end day, with 0 for a
    day that has no row. Entry `i` of a series is day `start + i`. */
module DailySeries {
  import opened Dates
  import opened EventLog

  type Series = seq<nat>

  /** The number of days in the inclusive range [start, end]. */
  function DayCount(start: int, end: int): nat
  {
    if end < start then 0 else end - start + 1
  }

  /** The dense series, stated directly: one entry per day of
      [start, end], each the number of rows dated on that day. */
  function DailyCounts(log: Log, start: int, end: int): (s: Series)
    ensures |s| == DayCount(start, end)
    ensures forall i :: 0 <= i < |s| ==> s[i] == Count(log, start + i)
  {
    seq<nat>(DayCount(start, end), i requires 0 <= i < DayCount(start, end) => Count(log, start + i))
  }

  /** The earliest day any row is dated on. */
  function MinDay(log: Log): (m: int)
    requires |log| > 0
    ensures forall i :: 0 <= i < |log| ==> m <= DayOf(log[i])
    ensures exists i :: 0 <= i < |log| && DayOf(log[i]) == m
  {
    if |log| == 1 then DayOf(log[0])
    else
      var init := log[..|log| - 1];
      var m := MinDay(init);
      var last := DayOf(log[|log| - 1]);
      assert exists i :: 0 <= i < |init| && DayOf(log[i]) == m by {
        var i :| 0 <= i < |init| && DayOf(init[i]) == m;
        assert log[i] == init[i];
      }
      if last < m then last else m
  }

  /** The latest day any row is dated on. */
  function MaxDay(log: Log): (m: int)
    requires |log| > 0
    ensures forall i :: 0 <= i < |log| ==> DayOf(log[i]) <= m
    ensures exists i :: 0 <= i < |log| && DayOf(log[i]) == m
  {
    if |log| == 1 then DayOf(log[0])
    else
      var init := log[..|log| - 1];
      var m := MaxDay(init);
      var last := DayOf(log[|log| - 1]);
      assert exists i :: 0 <= i < |init| && DayOf(log[i]) == m by {
        var i :| 0 <= i < |init| && DayOf(init[i]) == m;
        assert log[i] == init[i];
      }
      if last > m then last else m
  }

  /** Daily resampling: one bin for every day from the earliest row's day
      through the latest row's day, gaps included, holding that day's row
      count. An empty log has no bins. */
  function Resample(log: Log): (bins: map<int, nat>)
    ensures |log| > 0 ==> forall d :: d in bins <==> MinDay(log) <= d <= MaxDay(log)
    ensures |log| == 0 ==> bins == map[]
    ensures forall d :: d in bins ==> bins[d] == Count(log, d)
  {
    if log == [] then map[]
    else map d | MinDay(log) <= d <= MaxDay(log) :: Count(log, d)
  }

  /** Reindexing the bins over every day of [start, end], filling a day that
      has no bin with 0 and dropping the bins outside the range. */
  function Reindex(bins: map<int, nat>, start: int, end: int): (s: Series)
    ensures |s| == DayCount(start, end)
    ensures forall i :: 0 <= i < |s| && start + i !in bins ==> s[i] == 0
    ensures forall i :: 0 <= i < |s| && start + i in bins ==> s[i] == bins[start + i]
  {
    seq<nat>(DayCount(start, end),
        i requires 0 <= i < DayCount(start, end) => if start + i in bins then bins[start + i] else 0)
  }

  /** Resampling and then reindexing gives the direct series: the days the
      bins do not cover are exactly days without rows. */
  lemma ReindexResample(log: Log, start: int, end: int)
    ensures Reindex(Resample(log), start, end) == DailyCounts(log, start, end)
  {
    var bins := Resample(log);
    var r := Reindex(bins, start, end);
    var s := DailyCounts(log, start, end);
    forall i | 0 <= i < |s|
      ensures r[i] == s[i]
    {
      var d := start + i;
      if d !in bins {
        // every row lies within [MinDay, MaxDay], so day d has none
        CountPositiveIffRow(log, d);
      }
    }
  }

  /** Rows dated outside [start, end] leave the series unchanged. */
  lemma {:induction false} OutOfRangeRowsIgnored(log: Log, extra: Log, start: int, end: int)
    requires forall i :: 0 <= i < |extra| ==> DayOf(extra[i]) < start || end < DayOf(extra[i])
    ensures DailyCounts(log + extra, start, end) == DailyCounts(log, start, end)
  {
    if extra != [] {
      var init := extra[..|extra| - 1];
      var t := extra[|extra| - 1];
      OutOfRangeRowsIgnored(log, init, start, end);
      assert log + extra == (log + init) + [t];
      forall d | start <= d <= end
        ensures Count(log + extra, d) == Count(log + init, d)
      {
        CountAppend(log + init, t, d);
      }
    } else {
      assert log + extra == log;
    }
  }

  /** Logging `n` events on `date` raises that day's entry by `n` (when it
      lies in the range) and leaves every other entry unchanged. */
  lemma LoggingRaisesEntry(log: Log, date: int, n: nat, start: int, end: int)
    ensures var before := DailyCounts(log, start, end);
            var after := DailyCounts(log + Repeat(Midnight(date), n), start, end);
            |after| == |before| &&
            forall i :: 0 <= i < |after| ==>
              after[i] == before[i] + (if start + i == DayOf(date) then n else 0)
  {
    forall d | start <= d <= end
      ensures Count(log + Repeat(Midnight(date), n), d)
              == Count(log, d) + (if d == DayOf(date) then n else 0)
    {
      CountAppendRepeat(log, Midnight(date), n, d);
    }
  }

  /** The series depends only on the multiset of the rows' days, not on
      the order the rows were logged in nor on their time of day. */
  lemma SeriesDependsOnDaysOnly(a: Log, b: Log, start: int, end: int)
    requires multiset(Days(a)) == multiset(Days(b))
    ensures DailyCounts(a, start, end) == DailyCounts(b, start, end)
  {
    forall d | start <= d <= end
      ensures Count(a, d) == Count(b, d)
    {
      CountIsMultiplicity(a, d);
      CountIsMultiplicity(b, d);
    }
  }

  /** A later end day only appends days: the entries up to the earlier end
      day are unchanged. */
  lemma LaterEndAppends(log: Log, start: int, end: int, later: int)
    requires end <= later
    ensures var s := DailyCounts(log, start, end);
            var t := DailyCounts(log, start, later);
            |s| <= |t| && t[..|s|] == s
  {
  }

  /** After a reset every entry of the series is 0. */
  lemma ResetSeriesIsZero(start: int, end: int)
    ensures forall i :: 0 <= i < DayCount(start, end) ==> DailyCounts(ResetLog(), start, end)[i] == 0
  {
  }
}
