/** The two streaks computed from a daily series: a day counts towards a
    meat-free streak when its count is 0. Each scan is a method with a loop,
    proved equal to a recursive specification whose meaning (a maximal run
    of zero days) is proved as lemmas. */
module Streaks {
  import opened DailySeries

  predicate AllZero(s: Series)
  {
    forall i :: 0 <= i < |s| ==> s[i] == 0
  }

  /** `s` holds `len` zero days starting at entry `i`. */
  predicate ZeroRunAt(s: Series, i: int, len: nat)
  {
    0 <= i && i + len <= |s| && AllZero(s[i..i + len])
  }

  function Max(a: nat, b: nat): nat
  {
    if a < b then b else a
  }

  /** The length of the run of zero days that ends the series. */
  function TrailingZeros(s: Series): (r: nat)
    ensures r <= |s|
  {
    if s == [] || s[|s| - 1] > 0 then 0 else TrailingZeros(s[..|s| - 1]) + 1
  }

  /** Appending a day extends the trailing run if it is zero and ends it
      otherwise. */
  lemma TrailingZerosSnoc(s: Series, x: nat)
    ensures TrailingZeros(s + [x]) == if x == 0 then TrailingZeros(s) + 1 else 0
  {
  }

  /** TrailingZeros is a trailing run of zero days, and the day just before
      it, if any, is positive. */
  lemma {:induction false} TrailingZerosIsTrailingRun(s: Series)
    ensures AllZero(s[|s| - TrailingZeros(s)..])
    ensures TrailingZeros(s) < |s| ==> s[|s| - TrailingZeros(s) - 1] > 0
  {
    if s != [] && s[|s| - 1] == 0 {
      var init := s[..|s| - 1];
      TrailingZerosIsTrailingRun(init);
      var r := TrailingZeros(s);
      assert s[|s| - r..] == init[|init| - (r - 1)..] + [s[|s| - 1]];
      assert r < |s| ==> s[|s| - r - 1] == init[|init| - (r - 1) - 1];
    }
  }

  /** A zero suffix and a positive day (or the series start) just before it
      determine the trailing run exactly. */
  lemma TrailingZerosExact(s: Series, m: nat)
    requires m <= |s| && AllZero(s[m..])
    requires m == 0 || s[m - 1] > 0
    ensures TrailingZeros(s) == |s| - m
  {
  }

  /** Every zero suffix is at most as long as the trailing run. */
  lemma TrailingZerosMaximal(s: Series, len: nat)
    requires len <= |s| && AllZero(s[|s| - len..])
    ensures len <= TrailingZeros(s)
  {
    TrailingZerosIsTrailingRun(s);
  }

  /** Longest streak, specified: the longer of the longest run in all but
      the last day and the run still open at the last day. */
  function LongestZeroRun(s: Series): (r: nat)
    ensures TrailingZeros(s) <= r <= |s|
  {
    if s == [] then 0 else Max(LongestZeroRun(s[..|s| - 1]), TrailingZeros(s))
  }

  lemma LongestZeroRunSnoc(s: Series, x: nat)
    ensures LongestZeroRun(s + [x]) == Max(LongestZeroRun(s), TrailingZeros(s + [x]))
  {
  }

  /** A run of the longest length exists. */
  lemma {:induction false} LongestZeroRunAchieved(s: Series) returns (i: int)
    ensures ZeroRunAt(s, i, LongestZeroRun(s))
  {
    var r := LongestZeroRun(s);
    if s == [] {
      i := 0;
    } else {
      var init := s[..|s| - 1];
      var t := TrailingZeros(s);
      if r == t {
        TrailingZerosIsTrailingRun(s);
        i := |s| - t;
        assert s[i..i + r] == s[|s| - t..];
      } else {
        i := LongestZeroRunAchieved(init);
        assert s[i..i + r] == init[i..i + r];
      }
    }
  }

  /** No run of zero days is longer than the longest. */
  lemma {:induction false} LongestZeroRunMaximal(s: Series, i: int, len: nat)
    requires ZeroRunAt(s, i, len)
    ensures len <= LongestZeroRun(s)
  {
    if i + len < |s| {
      var init := s[..|s| - 1];
      assert s[i..i + len] == init[i..i + len];
      LongestZeroRunMaximal(init, i, len);
    } else if len > 0 {
      assert s[i..i + len] == s[|s| - len..];
      TrailingZerosMaximal(s, len);
    }
  }

  /** LongestZeroRun is the length of the longest run of consecutive zero
      days, including a run still open at the last day; it is 0 exactly when
      no day is zero. */
  lemma LongestZeroRunIsLongest(s: Series)
    ensures exists i :: ZeroRunAt(s, i, LongestZeroRun(s))
    ensures forall i, len: nat :: ZeroRunAt(s, i, len) ==> len <= LongestZeroRun(s)
    ensures LongestZeroRun(s) == 0 <==> forall i :: 0 <= i < |s| ==> s[i] > 0
  {
    var r := LongestZeroRun(s);
    var w := LongestZeroRunAchieved(s);
    forall i, len: nat | ZeroRunAt(s, i, len)
      ensures len <= r
    {
      LongestZeroRunMaximal(s, i, len);
    }
    if r == 0 {
      forall i | 0 <= i < |s|
        ensures s[i] > 0
      {
        if s[i] == 0 {
          assert s[i..i + 1] == [s[i]];
          LongestZeroRunMaximal(s, i, 1);
        }
      }
    } else {
      assert s[w..w + r][0] == s[w];
    }
  }

  /** A longest run of a prefix is a run of the whole series. */
  lemma LongestZeroRunPrefix(s: Series, k: nat)
    requires k <= |s|
    ensures LongestZeroRun(s[..k]) <= LongestZeroRun(s)
  {
    var p := s[..k];
    var i := LongestZeroRunAchieved(p);
    assert s[i..i + LongestZeroRun(p)] == p[i..i + LongestZeroRun(p)];
    LongestZeroRunMaximal(s, i, LongestZeroRun(p));
  }

  /** The number of entries of a series of `n` days from `start` that are
      dated on or before `today`; the later entries are skipped. */
  function DaysThrough(n: nat, start: int, today: int): (k: nat)
    ensures k <= n
    ensures 0 < k ==> start + k - 1 <= today
    ensures k < n ==> today < start + k
  {
    if today < start then 0
    else if today - start + 1 < n then today - start + 1
    else n
  }

  /** Current streak, specified: the trailing run of zero days among the
      days not after `today`. */
  function CurrentStreakOf(s: Series, start: int, today: int): (r: nat)
    ensures r <= DaysThrough(|s|, start, today)
  {
    TrailingZeros(s[..DaysThrough(|s|, start, today)])
  }

  /** The current streak is a run of zero days ending at the latest series
      day not after `today`, and the day before it, if any, is positive. */
  lemma CurrentStreakIsTrailingRun(s: Series, start: int, today: int)
    ensures var k := DaysThrough(|s|, start, today);
            var r := CurrentStreakOf(s, start, today);
            AllZero(s[k - r..k]) && (r < k ==> s[k - r - 1] > 0)
  {
    var k := DaysThrough(|s|, start, today);
    var p := s[..k];
    TrailingZerosIsTrailingRun(p);
    assert p[k - TrailingZeros(p)..] == s[k - TrailingZeros(p)..k];
  }

  /** No run of zero days ending at the latest series day not after `today`
      is longer than the current streak. */
  lemma CurrentStreakIsMaximal(s: Series, start: int, today: int, len: nat)
    requires len <= DaysThrough(|s|, start, today)
    requires AllZero(s[DaysThrough(|s|, start, today) - len..DaysThrough(|s|, start, today)])
    ensures len <= CurrentStreakOf(s, start, today)
  {
    var k := DaysThrough(|s|, start, today);
    assert s[..k][k - len..] == s[k - len..k];
    TrailingZerosMaximal(s[..k], len);
  }

  /** Meat eaten on the last series day, which is today, ends the streak. */
  lemma MeatTodayEndsStreak(s: Series, start: int, today: int)
    requires |s| > 0 && start + |s| - 1 == today && s[|s| - 1] > 0
    ensures CurrentStreakOf(s, start, today) == 0
  {
  }

  /** 0 <= current streak <= longest streak <= number of days. */
  lemma StreakBounds(s: Series, start: int, today: int)
    ensures CurrentStreakOf(s, start, today) <= LongestZeroRun(s) <= |s|
  {
    LongestZeroRunPrefix(s, DaysThrough(|s|, start, today));
  }

  /** A series of zero days only is one streak, open at its last day. */
  lemma AllZeroStreaks(s: Series, start: int)
    requires AllZero(s)
    ensures LongestZeroRun(s) == |s|
    ensures CurrentStreakOf(s, start, start + |s| - 1) == |s|
  {
    assert s[0..|s|] == s;
    LongestZeroRunMaximal(s, 0, |s|);
    assert s[..|s|] == s && s[|s| - |s|..] == s;
    TrailingZerosMaximal(s, |s|);
  }

  /** The backward scan for the current streak: it returns 0 at once when the
      last series day is today and has a positive count; otherwise it walks
      back from the last day, skipping days after `today`, counting zero days
      and stopping at the first positive one. */
  method CurrentStreak(s: Series, start: int, today: int) returns (streak: nat)
    requires |s| > 0
    ensures streak == CurrentStreakOf(s, start, today)
  {
    if start + |s| - 1 == today && s[|s| - 1] > 0 {
      MeatTodayEndsStreak(s, start, today);
      return 0;
    }
    ghost var k := DaysThrough(|s|, start, today);
    streak := 0;
    var i := |s|;
    while i > 0
      invariant 0 <= i <= |s|
      invariant k <= i ==> streak == 0
      invariant i <= k ==> streak == k - i && AllZero(s[i..k])
      decreases i
    {
      var date := start + i - 1;
      if date > today {
        i := i - 1;
        continue;
      }
      if s[i - 1] == 0 {
        streak := streak + 1;
      } else {
        break;
      }
      assert s[i - 1..k] == [s[i - 1]] + s[i..k];
      i := i - 1;
    }
    assert s[..k][i..] == s[i..k];
    TrailingZerosExact(s[..k], i);
  }

  /** The forward scan for the longest streak: a running count of zero days,
      reset by a positive day, and the largest value it reaches. */
  method LongestStreak(s: Series) returns (longest: nat)
    ensures longest == LongestZeroRun(s)
  {
    longest := 0;
    var streak: nat := 0;
    for i := 0 to |s|
      invariant streak == TrailingZeros(s[..i])
      invariant longest == LongestZeroRun(s[..i])
    {
      assert s[..i + 1] == s[..i] + [s[i]];
      TrailingZerosSnoc(s[..i], s[i]);
      LongestZeroRunSnoc(s[..i], s[i]);
      if s[i] == 0 {
        streak := streak + 1;
        longest := Max(longest, streak);
      } else {
        streak := 0;
      }
    }
    assert s[..|s|] == s;
  }
}
