/** The event log: one row per meat-eating event, appended in the order the
    events are logged and never replaced. A row holds only its instant. */
module EventLog {
  import opened Dates

  type Log = seq<int>

  /** Every row holds a midnight, as rows written by AddMeatDay do. */
  predicate Normalized(log: Log)
  {
    forall i :: 0 <= i < |log| ==> IsMidnight(log[i])
  }

  /** The calendar day of every row, in row order. */
  function Days(log: Log): (ds: seq<int>)
    ensures |ds| == |log|
    ensures forall i :: 0 <= i < |log| ==> ds[i] == DayOf(log[i])
  {
    seq(|log|, i requires 0 <= i < |log| => DayOf(log[i]))
  }

  /** The number of rows dated on calendar day `d`: the size of that day's
      bin when the log is resampled daily. */
  function Count(log: Log, d: int): (c: nat)
    ensures c <= |log|
  {
    if log == [] then 0
    else Count(log[..|log| - 1], d) + (if DayOf(log[|log| - 1]) == d then 1 else 0)
  }

  /** `n` copies of one row. */
  function Repeat(t: int, n: nat): (r: Log)
    ensures |r| == n
    ensures forall i :: 0 <= i < n ==> r[i] == t
  {
    seq(n, _ => t)
  }

  /** The count of a day is the multiplicity of that day in the multiset of
      the rows' days: it depends neither on row order nor on time of day. */
  lemma {:induction false} CountIsMultiplicity(log: Log, d: int)
    ensures Count(log, d) == multiset(Days(log))[d]
  {
    if log != [] {
      var init := log[..|log| - 1];
      CountIsMultiplicity(init, d);
      assert Days(log) == Days(init) + [DayOf(log[|log| - 1])];
    }
  }

  /** A day has a positive count exactly when some row is dated on it. */
  lemma {:induction false} CountPositiveIffRow(log: Log, d: int)
    ensures Count(log, d) > 0 <==> exists i :: 0 <= i < |log| && DayOf(log[i]) == d
  {
    if log != [] {
      var init := log[..|log| - 1];
      CountPositiveIffRow(init, d);
      if Count(init, d) > 0 {
        var i :| 0 <= i < |init| && DayOf(init[i]) == d;
        assert DayOf(log[i]) == d;
      }
      if exists i :: 0 <= i < |log| && DayOf(log[i]) == d {
        var i :| 0 <= i < |log| && DayOf(log[i]) == d;
        if i < |init| {
          assert DayOf(init[i]) == d;
        }
      }
    }
  }

  /** Appending one row raises the count of its day by one and of no other. */
  lemma CountAppend(log: Log, t: int, d: int)
    ensures Count(log + [t], d) == Count(log, d) + (if DayOf(t) == d then 1 else 0)
  {
  }

  /** Appending `n` copies of a row raises the count of its day by `n` and
      of no other. */
  lemma {:induction false} CountAppendRepeat(log: Log, t: int, n: nat, d: int)
    ensures Count(log + Repeat(t, n), d) == Count(log, d) + (if DayOf(t) == d then n else 0)
  {
    if n > 0 {
      CountAppendRepeat(log, t, n - 1, d);
      assert log + Repeat(t, n) == (log + Repeat(t, n - 1)) + [t];
      CountAppend(log + Repeat(t, n - 1), t, d);
    } else {
      assert log + Repeat(t, n) == log;
    }
  }

  /** Logging one event: a copy of the log with one row appended, holding
      `date` normalized to midnight; the earlier rows are kept in order. */
  function AddMeatDay(date: int, log: Log): (r: Log)
    ensures |r| == |log| + 1 && r[..|log|] == log
    ensures r[|log|] == Midnight(date) && DayOf(r[|log|]) == DayOf(date)
    ensures Normalized(log) ==> Normalized(r)
  {
    log + [Midnight(date)]
  }

  /** Logging `n` events on one date, one AddMeatDay at a time: the count of
      that date rises by exactly `n` and every other day's count is kept. */
  method LogEvents(log: Log, date: int, n: nat) returns (r: Log)
    ensures r == log + Repeat(Midnight(date), n)
    ensures forall d :: Count(r, d) == Count(log, d) + (if d == DayOf(date) then n else 0)
    ensures Normalized(log) ==> Normalized(r)
  {
    r := log;
    for k := 0 to n
      invariant r == log + Repeat(Midnight(date), k)
    {
      assert Repeat(Midnight(date), k + 1) == Repeat(Midnight(date), k) + [Midnight(date)];
      r := AddMeatDay(date, r);
    }
    forall d
      ensures Count(r, d) == Count(log, d) + (if d == DayOf(date) then n else 0)
    {
      CountAppendRepeat(log, Midnight(date), n, d);
    }
  }

  /** Resetting replaces the log by an empty one: no day has a row. */
  function ResetLog(): (r: Log)
    ensures |r| == 0
    ensures forall d :: Count(r, d) == 0
  {
    []
  }
}
