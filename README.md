# Meat-eating tracker: event log and streaks

This project models the core of a small personal dashboard, `meat_tracker.py`.
A user logs the days they ate meat, and the dashboard shows two statistics:
- the current run of meat-free days;
- the longest run of meat-free days since 2025-02-10.

The model has five modules:

- `Dates` (Dates.dfy): instants are integer nanoseconds since the Unix epoch, the unit of a pandas Timestamp. An instant is normalized to midnight by discarding its time of day, and its calendar day is a floor division. The start day 2025-02-10 is day 20129.
- `EventLog` (EventLog.dfy): the log is an append-only sequence of rows, one row per meat-eating event. `AddMeatDay` appends one row holding the normalized date. `LogEvents` is the loop that logs *n* events, and `ResetLog` is the empty log. `Count` gives the number of rows dated on a day, and it is proved equal to the multiplicity of that day in the multiset of the rows' days.
- `DailySeries` (DailySeries.dfy): daily resampling makes one bin per day from the earliest row's day through the latest row's day, gaps included, as pandas `resample('D').size()` does. Reindexing then lays those bins over every day of [2025-02-10, end] and fills 0 where a day has no bin. The result is proved equal to the direct definition "entry *i* is the number of rows dated on day start + *i*". Separate lemmas show four more facts: rows outside the range have no effect, logging *n* events raises the entry for their day by *n* when that day lies in the range and leaves every other entry unchanged, only the multiset of days matters, and a later end day only appends entries.
- `Streaks` (Streaks.dfy): two methods with loops, the backward scan for the current streak and the forward scan for the longest streak. Each is proved equal to a recursive specification: a trailing run of zero days, and a longest zero run built from trailing runs. Lemmas prove what these specifications mean: an exact, maximal trailing run; a longest run that exists and that no run exceeds; and 0 ≤ current ≤ longest ≤ number of days.
- `Tracker` (Tracker.dfy): one display pass (`Display`) and one whole run of the script (`Run`). The display is hidden when the log is empty, and the error outcome comes from indexing an empty date range. That error is not caught, so it ends the run before the Reset button is handled: the log stored by the Log button, or the loaded log, stays stored.

The clock is read twice in the source: at line 56 for the end of the date range and at line 59 for "today". Both readings are parameters (`rangeEnd`, `today`). On a clock that only moves forward the range never holds a day after today. The skip at lines 67-68 takes effect only when the second reading falls on an earlier calendar day than the first, that is, when the clock was set back across midnight between the two readings. Keeping both parameters keeps that branch in the model.

Behaviour of the code that the model keeps:
- One row is appended per event, and no row is ever replaced (lines 25-29, 44-45). There is no per-day count column.
- A day without rows is filled with 0 (line 57), so a day with no rows and a meat-free day are the same thing.
- An empty log displays nothing (line 50), not streaks of 0.

## Model

| member | source | states |
|---|---|---|
| `Dates.Midnight` | meat_tracker.py:26 | normalizing gives a midnight on the same calendar day, no later than the input and less than a day before it |
| `Dates.MidnightIdempotent` | meat_tracker.py:26 | normalizing twice is the same as normalizing once, and a midnight is determined by its calendar day |
| `EventLog.AddMeatDay` | meat_tracker.py:25-29 | the result is the old log with exactly one row appended; earlier rows are unchanged and in order; the new row is the date normalized to midnight, on the same day; a normalized log stays normalized |
| `EventLog.LogEvents` | meat_tracker.py:43-45 | appending n copies of the normalized date, one per loop step, raises that day's count by exactly n and leaves every other day's count unchanged |
| `EventLog.ResetLog` | meat_tracker.py:110-111 | the replacement log is empty, so no day has a row |
| `EventLog.Count` | meat_tracker.py:53 | a day's bin size never exceeds the number of rows |
| `EventLog.CountIsMultiplicity` | meat_tracker.py:53 | a day's bin size equals that day's multiplicity in the multiset of row days, so it depends neither on row order nor on time of day |
| `EventLog.CountPositiveIffRow` | meat_tracker.py:53 | a day's count is positive exactly when some row is dated on that day |
| `EventLog.CountAppend` | meat_tracker.py:28 | appending one row raises its own day's count by one and no other day's count |
| `EventLog.CountAppendRepeat` | meat_tracker.py:44-45 | appending n rows for one date raises that day's count by n and leaves all other days unchanged |
| `DailySeries.DailyCounts` | meat_tracker.py:53-57 | one entry per day of [start, end] inclusive, and each entry is the number of rows dated on that day |
| `DailySeries.MinDay` | meat_tracker.py:53 | the earliest day some row is dated on: it is a row's day and no row's day is earlier |
| `DailySeries.MaxDay` | meat_tracker.py:53 | the latest day some row is dated on: it is a row's day and no row's day is later |
| `DailySeries.Resample` | meat_tracker.py:53 | the bins cover exactly the days from the earliest row's day through the latest row's day, each holding that day's row count; an empty log has no bins |
| `DailySeries.Reindex` | meat_tracker.py:57 | one entry per day of [start, end]; a day with a bin keeps the bin's value, and a day without one gets 0 |
| `DailySeries.ReindexResample` | meat_tracker.py:53-57 | resampling, then reindexing with fill value 0, gives the direct per-day count series |
| `DailySeries.OutOfRangeRowsIgnored` | meat_tracker.py:55-57 | rows dated before the start day or after the end day leave the series unchanged |
| `DailySeries.LoggingRaisesEntry` | meat_tracker.py:44-57 | logging n events raises the entry for their day by n when that day lies in the range, and leaves every other entry unchanged |
| `DailySeries.SeriesDependsOnDaysOnly` | meat_tracker.py:53 | two logs with the same multiset of row days give the same series |
| `DailySeries.LaterEndAppends` | meat_tracker.py:56 | a later end of the date range only appends entries; earlier entries are unchanged |
| `DailySeries.ResetSeriesIsZero` | meat_tracker.py:110-111 | after a reset every entry of the series is 0 |
| `Streaks.TrailingZerosIsTrailingRun` | meat_tracker.py:65-73 | the trailing-run length covers only zero days, and the day before it, if any, is positive |
| `Streaks.TrailingZerosExact` | meat_tracker.py:69-72 | a zero suffix preceded by a positive day or by the series start is exactly the trailing run |
| `Streaks.TrailingZerosMaximal` | meat_tracker.py:69-72 | no zero suffix is longer than the trailing run |
| `Streaks.LongestZeroRun` | meat_tracker.py:76-83 | the longest run is at least the run still open at the last day, and at most the series length |
| `Streaks.LongestZeroRunAchieved` | meat_tracker.py:76-83 | some run of consecutive zero days has the longest length |
| `Streaks.LongestZeroRunMaximal` | meat_tracker.py:76-83 | every run of consecutive zero days, including one still open at the last day, is at most the longest length |
| `Streaks.LongestZeroRunIsLongest` | meat_tracker.py:76-83 | the longest length is attained, no run exceeds it, and it is 0 exactly when no day is zero |
| `Streaks.LongestZeroRunPrefix` | meat_tracker.py:76-83 | the longest run of a prefix is at most the longest run of the whole series |
| `Streaks.DaysThrough` | meat_tracker.py:66-68 | the scanned prefix holds exactly the series days not after today, and the skipped days are the later ones |
| `Streaks.CurrentStreakOf` | meat_tracker.py:62-73 | the current streak never exceeds the number of series days not after today |
| `Streaks.CurrentStreakIsTrailingRun` | meat_tracker.py:65-73 | the current streak is a run of zero days ending at the latest day not after today, and the day before it, if any, is positive |
| `Streaks.CurrentStreakIsMaximal` | meat_tracker.py:65-73 | no run of zero days ending at the latest day not after today is longer than the current streak |
| `Streaks.MeatTodayEndsStreak` | meat_tracker.py:62-63 | when the last series day is today and its count is positive, the current streak is 0 |
| `Streaks.StreakBounds` | meat_tracker.py:62-83 | current streak ≤ longest streak ≤ number of days in the series |
| `Streaks.AllZeroStreaks` | meat_tracker.py:62-83 | on a series of zero days only, ending today, both streaks equal the series length |
| `Streaks.CurrentStreak` | meat_tracker.py:61-73 | the backward scan (short-circuit for meat today, skip days after today, count zeros, stop at the first positive day) returns the specified current streak |
| `Streaks.LongestStreak` | meat_tracker.py:75-83 | the forward scan (running zero counter, reset on a positive day, running maximum) returns the specified longest streak |
| `Tracker.Display` | meat_tracker.py:50-83 | an empty log hides the display; an empty date range is the index error of line 62; otherwise the series has one count per day of the range and current ≤ longest ≤ number of days |
| `Tracker.Run` | meat_tracker.py:43-112 | the display shows the log after logging; the stored log is the logged one, or empty after a reset, except that an index error in the display pass ends the run before the reset; without a reset, logging raises only the logged day's count, by n |
| `Tracker.MeatTodayShowsNoStreak` | meat_tracker.py:44-63 | after logging at least one event for today, with the range ending today, the display shows a current streak of 0 |
| `Tracker.NoRowsInRangeFullStreak` | meat_tracker.py:53-83 | when no row falls in the range and the range ends no later than today, both streaks span the whole range |
| `Tracker.ResetHidesDisplay` | meat_tracker.py:50 | after a reset the next display pass shows nothing |

## Left out

- Streamlit user interface: the username box, sidebar inputs, buttons, metrics and messages (lines 7, 32-47, 85-89, 113-115). `Run` takes the button presses and inputs as parameters and assumes a username was entered.
- CSV persistence in `load_data` and `save_data`, including the missing-file fallback to an empty table (lines 10-23). This is file I/O: the stored log returned by `Run` stands for what the next run loads. The normalization `load_data` applies is the idempotent `Dates.Midnight`.
- Date parsing through `pd.to_datetime`, including `errors='coerce'` and the rows it turns into missing dates (lines 18, 26, 51). Dates enter the model already as instants.
- The clock `datetime.today()` (lines 56, 59): its two readings are the parameters `rangeEnd` and `today`.
- Matplotlib plotting and the CSV download button (lines 91-107). These are rendering and serialisation.
- Pandas Timestamps are 64-bit nanosecond counts with a bounded range, and time zones are not considered. The model uses unbounded integers and naive instants.
- The number input's lower bound of 1 (line 41) is not imposed on `LogEvents`, and `LogEvents` is proved for every n ≥ 0.
