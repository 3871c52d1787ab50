/** One pass of the tracker's display: for a non-empty log it buckets the
    rows into daily counts over [StartDay, rangeEnd] and computes the two
    streaks. The clock is read twice by the tracker, once for the end of the
    date range and once for "today", so both are parameters. */
module Tracker {
  import opened Dates
  import opened EventLog
  import opened DailySeries
  import opened Streaks

  datatype View =
    | Hidden                   // the log is empty and nothing is displayed
    | IndexError               // the date range is empty, so its last day does not exist
    | Shown(series: Series, current: nat, longest: nat)

  /** What one display pass shows, specified by the series and streak
      functions. */
  function ViewOf(log: Log, rangeEnd: int, today: int): View
  {
    if |log| == 0 then Hidden
    else
      var s := DailyCounts(log, StartDay, rangeEnd);
      if |s| == 0 then IndexError
      else Shown(s, CurrentStreakOf(s, StartDay, today), LongestZeroRun(s))
  }

  /** The display pass as the tracker runs it: resample, reindex, then the
      two scans. */
  method Display(log: Log, rangeEnd: int, today: int) returns (v: View)
    ensures v == ViewOf(log, rangeEnd, today)
    ensures v.Hidden? <==> |log| == 0
    ensures v.IndexError? <==> |log| > 0 && rangeEnd < StartDay
    ensures v.Shown? ==>
              |v.series| == rangeEnd - StartDay + 1 &&
              (forall i :: 0 <= i < |v.series| ==> v.series[i] == Count(log, StartDay + i)) &&
              v.current <= v.longest <= |v.series|
  {
    if |log| == 0 {
      return Hidden;
    }
    var bins := Resample(log);
    var series := Reindex(bins, StartDay, rangeEnd);
    ReindexResample(log, StartDay, rangeEnd);
    if |series| == 0 {
      return IndexError;
    }
    var current := CurrentStreak(series, StartDay, today);
    var longest := LongestStreak(series);
    StreakBounds(series, StartDay, today);
    return Shown(series, current, longest);
  }

  /** One run of the tracker script for a user whose stored log is `log`:
      pressing Log appends `n` events for `date` and stores the result, the
      display pass then shows the log as it is after logging, and pressing
      Reset afterwards stores an empty log. An index error in the display
      pass ends the script before the Reset button is reached. `stored` is
      the log the next run loads. */
  method Run(log: Log, logPressed: bool, date: int, n: nat, resetPressed: bool,
             rangeEnd: int, today: int)
    returns (stored: Log, v: View)
    ensures var logged := if logPressed then log + Repeat(Midnight(date), n) else log;
            v == ViewOf(logged, rangeEnd, today) &&
            stored == if resetPressed && !v.IndexError? then [] else logged
    ensures resetPressed && !v.IndexError? ==> forall d :: Count(stored, d) == 0
    ensures (!resetPressed || v.IndexError?) && logPressed ==>
              forall d :: Count(stored, d) == Count(log, d) + (if d == DayOf(date) then n else 0)
    ensures Normalized(log) ==> Normalized(stored)
  {
    stored := log;
    if logPressed {
      stored := LogEvents(stored, date, n);
    }
    v := Display(stored, rangeEnd, today);
    if v.IndexError? {
      return;
    }
    if resetPressed {
      stored := ResetLog();
    }
  }

  /** After logging meat on the day that is both today and the last day of
      the range, the current streak is 0. */
  lemma MeatTodayShowsNoStreak(log: Log, date: int, n: nat, today: int)
    requires n > 0 && DayOf(date) == today && StartDay <= today
    ensures var v := ViewOf(log + Repeat(Midnight(date), n), today, today);
            v.Shown? && v.current == 0
  {
  }

  /** When no row falls in the range and no day of the range is after
      today, every day of it is meat-free: both streaks span the whole
      range. */
  lemma NoRowsInRangeFullStreak(log: Log, rangeEnd: int, today: int)
    requires |log| > 0 && StartDay <= rangeEnd <= today
    requires forall i :: 0 <= i < |log| ==> DayOf(log[i]) < StartDay || rangeEnd < DayOf(log[i])
    ensures var v := ViewOf(log, rangeEnd, today);
            v.Shown? && v.current == v.longest == rangeEnd - StartDay + 1
  {
    var s := DailyCounts(log, StartDay, rangeEnd);
    assert DaysThrough(|s|, StartDay, today) == |s|;
    OutOfRangeRowsIgnored([], log, StartDay, rangeEnd);
    assert [] + log == log;
    assert AllZero(s);
    AllZeroStreaks(s, StartDay);
  }

  /** After a reset nothing is displayed. */
  lemma ResetHidesDisplay(rangeEnd: int, today: int)
    ensures ViewOf(ResetLog(), rangeEnd, today) == Hidden
  {
  }
}
