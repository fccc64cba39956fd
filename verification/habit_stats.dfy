/** The statistics block and the day-detail lookup of the streak calendar
    screen (app/streakCalendar.tsx). */
module HabitStats {
  import opened Wrappers
  import opened Days
  import opened Habits

  // ---------------------------------------------------------------------
  // `[...new Set(doneDays)].sort()`
  // ---------------------------------------------------------------------

  function InsertDistinct(x: Day, s: seq<Day>): (r: seq<Day>)
    requires StrictlyIncreasing(s)
    ensures StrictlyIncreasing(r)
    ensures forall y :: y in r <==> y == x || y in s
  {
    if |s| == 0 then [x]
    else if x == s[0] then s
    else if x < s[0] then [x] + s
    else
      var rest := InsertDistinct(x, s[1..]);
      forall j | 0 <= j < |rest| ensures s[0] < rest[j] {
        assert rest[j] in rest;
      }
      [s[0]] + rest
  }

  /** The distinct days of `days`, oldest first. */
  function SortedDistinct(days: seq<Day>): (r: seq<Day>)
    ensures StrictlyIncreasing(r)
    ensures forall y :: y in r <==> y in days
  {
    if |days| == 0 then [] else InsertDistinct(days[0], SortedDistinct(days[1..]))
  }

  // ---------------------------------------------------------------------
  // Longest streak
  // ---------------------------------------------------------------------

  /** The length of the run of consecutive days in `s` that ends at `s[i]`. */
  function RunEnd(s: seq<Day>, i: nat): nat
    requires i < |s|
  {
    if i == 0 || s[i] - s[i - 1] != 1 then 1 else RunEnd(s, i - 1) + 1
  }

  /** The largest run end among the first `n` positions. */
  function MaxRunEnd(s: seq<Day>, n: nat): nat
    requires n <= |s|
  {
    if n == 0 then 0 else Max(MaxRunEnd(s, n - 1), RunEnd(s, n - 1))
  }

  function Max(a: int, b: int): int {
    if a < b then b else a
  }

  /** The `for` loop over `sorted` that tracks `tempStreak` and
      `longestStreak`: the run grows on a one-day step, restarts at one on a
      larger gap, and is left alone otherwise. */
  function ScanLongest(s: seq<Day>, i: nat, temp: nat, longest: nat): nat
    requires i <= |s|
    decreases |s| - i
  {
    if i == |s| then longest
    else
      var temp' :=
        if i == 0 || s[i] - s[i - 1] == 1 then temp + 1
        else if s[i] - s[i - 1] > 1 then 1
        else temp;
      ScanLongest(s, i + 1, temp', Max(longest, temp'))
  }

  function LongestStreak(sorted: seq<Day>): nat {
    ScanLongest(sorted, 0, 0, 0)
  }

  lemma {:induction false} ScanComputesMaxRunEnd(s: seq<Day>, i: nat, temp: nat, longest: nat)
    requires StrictlyIncreasing(s) && 0 < i <= |s|
    requires temp == RunEnd(s, i - 1) && longest == MaxRunEnd(s, i)
    ensures ScanLongest(s, i, temp, longest) == MaxRunEnd(s, |s|)
    decreases |s| - i
  {
    if i < |s| {
      ScanComputesMaxRunEnd(s, i + 1, RunEnd(s, i), MaxRunEnd(s, i + 1));
    }
  }

  lemma LongestStreakIsMaxRunEnd(s: seq<Day>)
    requires StrictlyIncreasing(s)
    ensures LongestStreak(s) == MaxRunEnd(s, |s|)
  {
    if |s| > 0 {
      ScanComputesMaxRunEnd(s, 1, 1, 1);
    }
  }

  /** The days counted by a run end are all present. */
  lemma {:induction false} RunEndIsRun(s: seq<Day>, i: nat)
    requires StrictlyIncreasing(s) && i < |s|
    ensures RunEnd(s, i) <= i + 1
    ensures RunIn(Elements(s), s[i], RunEnd(s, i))
  {
    if i > 0 && s[i] - s[i - 1] == 1 {
      RunEndIsRun(s, i - 1);
    }
  }

  /** Every run of present days ends at a position whose run end covers it. */
  lemma {:induction false} RunBoundedByRunEnd(s: seq<Day>, end: Day, len: nat)
    requires StrictlyIncreasing(s) && len > 0
    requires RunIn(Elements(s), end, len)
    ensures exists i :: 0 <= i < |s| && s[i] == end && len <= RunEnd(s, i)
    decreases len
  {
    assert end in Elements(s);
    var i :| 0 <= i < |s| && s[i] == end;
    if len > 1 {
      RunBoundedByRunEnd(s, end - 1, len - 1);
      var j :| 0 <= j < |s| && s[j] == end - 1 && len - 1 <= RunEnd(s, j);
      assert j < i;
      assert s[j] <= s[i - 1] < s[i];
      assert j == i - 1;
    }
  }

  lemma {:induction false} MaxRunEndBounds(s: seq<Day>, n: nat)
    requires n <= |s|
    ensures forall i :: 0 <= i < n ==> RunEnd(s, i) <= MaxRunEnd(s, n)
    ensures n > 0 ==> exists i :: 0 <= i < n && RunEnd(s, i) == MaxRunEnd(s, n)
  {
    if n > 0 {
      MaxRunEndBounds(s, n - 1);
    }
  }

  /** The scan computes the longest run of consecutive days: some run of that
      length is present, and no longer run is. */
  lemma LongestStreakIsLongestRun(s: seq<Day>)
    requires StrictlyIncreasing(s)
    ensures |s| > 0 ==> 1 <= LongestStreak(s) <= |s|
    ensures |s| > 0 ==> exists i :: 0 <= i < |s| && RunIn(Elements(s), s[i], LongestStreak(s))
    ensures forall end: Day, len: nat :: RunIn(Elements(s), end, len) ==> len <= LongestStreak(s)
  {
    LongestStreakIsMaxRunEnd(s);
    MaxRunEndBounds(s, |s|);
    if |s| > 0 {
      var i :| 0 <= i < |s| && RunEnd(s, i) == MaxRunEnd(s, |s|);
      RunEndIsRun(s, i);
    }
    forall end: Day, len: nat | RunIn(Elements(s), end, len) ensures len <= LongestStreak(s) {
      if len > 0 {
        RunBoundedByRunEnd(s, end, len);
      }
    }
  }

  // ---------------------------------------------------------------------
  // Current streak
  // ---------------------------------------------------------------------

  /** The current streak: consecutive checked days counted back from today,
      or from yesterday when today is not checked, and zero when neither is. */
  function CurrentStreak(days: set<Day>, today: Day): (k: nat)
    ensures k > 0 <==> today in days || today - 1 in days
    ensures today in days ==> RunIn(days, today, k) && today - k !in days
    ensures today !in days ==> RunIn(days, today - 1, k) && today - 1 - k !in days
  {
    if today in days then CountBack(days, today)
    else if today - 1 in days then CountBack(days, today - 1)
    else 0
  }

  // ---------------------------------------------------------------------
  // This month's consistency
  // ---------------------------------------------------------------------

  /** The days of `s` inside `month`, in their order. */
  function InMonth(s: seq<Day>, month: Month): (r: seq<Day>)
    ensures forall d :: d in r <==> d in s && month.Contains(d)
    ensures StrictlyIncreasing(s) ==> StrictlyIncreasing(r)
  {
    if |s| == 0 then []
    else
      assert forall d :: d in s[1..] ==> d in s;
      var rest := InMonth(s[1..], month);
      assert StrictlyIncreasing(s) ==> forall j :: 0 <= j < |rest| ==> s[0] < rest[j] by {
        if StrictlyIncreasing(s) {
          forall j | 0 <= j < |rest| ensures s[0] < rest[j] {
            assert rest[j] in rest;
          }
        }
      }
      (if month.Contains(s[0]) then [s[0]] else []) + rest
  }

  /** `doneThisMonth`: the distinct checked days inside the month. */
  function DoneThisMonth(sorted: seq<Day>, month: Month): (n: nat)
    requires StrictlyIncreasing(sorted)
    ensures n == |set d | d in sorted && month.Contains(d)|
    ensures n <= |sorted|
    ensures n <= month.daysInMonth
  {
    var inMonth := InMonth(sorted, month);
    IncreasingCardinality(inMonth);
    IncreasingCardinality(sorted);
    assert Elements(inMonth) == (set d | d in sorted && month.Contains(d));
    SubsetSize(Elements(inMonth), Elements(sorted));
    assert forall i :: 0 <= i < |inMonth| ==> inMonth[i] in inMonth;
    IncreasingInInterval(inMonth, month.firstDay, month.daysInMonth);
    |inMonth|
  }

  /** `Math.round(done / days * 100)`, guarded against an empty month, as
      integer rounding half up: the result is the whole percentage nearest to
      the exact ratio. */
  function Consistency(done: nat, days: int): (pct: int)
    ensures days <= 0 ==> pct == 0
    ensures days > 0 ==> 2 * days * pct <= 200 * done + days < 2 * days * (pct + 1)
    ensures done <= days ==> 0 <= pct <= 100
  {
    if days > 0 then
      RoundHalfUp(200 * done + days, 2 * days);
      var pct := (200 * done + days) / (2 * days);
      assert done <= days ==> pct <= 100 by {
        if done <= days {
          assert 2 * days * pct < 2 * days * 101;
          ProductOrder(2 * days, pct, 101);
        }
      }
      pct
    else 0
  }

  lemma RoundHalfUp(n: nat, m: int)
    requires m > 0
    ensures m * (n / m) <= n < m * (n / m + 1)
    ensures n / m >= 0
  {
    var q, r := n / m, n % m;
    assert n == m * q + r && 0 <= r < m;
    assert m * (q + 1) == m * q + m;
  }

  lemma ProductOrder(m: int, a: int, b: int)
    requires m > 0
    ensures a >= b ==> m * a >= m * b
  {
    if a >= b {
      assert m * a - m * b == m * (a - b);
    }
  }

  /** For months of 28 to 31 days the exact ratio is never halfway between two
      percentages, so rounding half up agrees with `Math.round`. */
  lemma NoHalfwayRatio(done: nat, days: MonthLength)
    ensures (200 * done + days) % (2 * days) != 0
  {
    var q := (200 * done + days) / (2 * days);
    var r := (200 * done + days) % (2 * days);
    assert 200 * done + days == 2 * days * q + r;
    if days == 28 {
      assert 50 * done + 7 == 14 * q + r / 4;
    } else if days == 30 {
      assert 20 * done + 3 == 6 * q + r / 10;
    }
  }

  // ---------------------------------------------------------------------
  // The statistics block
  // ---------------------------------------------------------------------

  datatype Stats = Stats(currentStreak: nat, longestStreak: nat, totalCompletions: nat, consistency: int)

  /** `getHabitStats`: nothing for an empty history; otherwise the current and
      longest streaks, the number of distinct checked days, and the share of
      the month's days that are checked, in whole percent. */
  function GetHabitStats(history: seq<Entry>, today: Day, month: Month): (r: Option<Stats>)
    ensures r.None? <==> |history| == 0
    ensures r.Some? ==> r.value.totalCompletions == |Dates(history)|
    ensures r.Some? ==> 1 <= r.value.longestStreak <= r.value.totalCompletions
    ensures r.Some? ==> r.value.currentStreak <= r.value.longestStreak
    ensures r.Some? ==> 0 <= r.value.consistency <= 100
  {
    if |history| == 0 then None
    else
      var sorted := SortedDistinct(DateSeq(history));
      var days := Elements(sorted);
      var current := CurrentStreak(days, today);
      var longest := LongestStreak(sorted);
      DateSeqValues(history);
      assert days == Dates(history);
      IncreasingCardinality(sorted);
      LongestStreakIsLongestRun(sorted);
      assert DateSeq(history)[0] in sorted;
      assert current <= longest by {
        if today in days {
          assert RunIn(days, today, current);
        } else {
          assert RunIn(days, today - 1, current);
        }
      }
      Some(Stats(current, longest, |sorted|, Consistency(DoneThisMonth(sorted, month), month.daysInMonth)))
  }

  /** The statistics' current streak depends only on the set of checked days. */
  lemma StatsCurrentStreak(history: seq<Entry>, today: Day, month: Month)
    requires |history| > 0
    ensures GetHabitStats(history, today, month).value.currentStreak == CurrentStreak(Dates(history), today)
  {
    DateSeqValues(history);
    assert Elements(SortedDistinct(DateSeq(history))) == Dates(history);
  }

  /** The statistics' longest streak is the longest run of checked days:
      such a run ends at a checked day, and no run of checked days is longer. */
  lemma StatsLongest(history: seq<Entry>, today: Day, month: Month)
    requires |history| > 0
    ensures var longest := GetHabitStats(history, today, month).value.longestStreak;
            && (exists end :: end in Dates(history) && RunIn(Dates(history), end, longest))
            && (forall end: Day, len: nat :: RunIn(Dates(history), end, len) ==> len <= longest)
  {
    var sorted := SortedDistinct(DateSeq(history));
    DateSeqValues(history);
    assert Elements(sorted) == Dates(history);
    assert DateSeq(history)[0] in sorted;
    LongestStreakIsLongestRun(sorted);
    var i :| 0 <= i < |sorted| && RunIn(Elements(sorted), sorted[i], LongestStreak(sorted));
    assert sorted[i] in Dates(history);
  }

  /** The statistics' consistency is the rounded percentage of this month's
      days that carry a check-in. */
  lemma StatsConsistency(history: seq<Entry>, today: Day, month: Month)
    requires |history| > 0
    ensures GetHabitStats(history, today, month).value.consistency
            == Consistency(|set d | d in Dates(history) && month.Contains(d)|, month.daysInMonth)
  {
    var sorted := SortedDistinct(DateSeq(history));
    DateSeqValues(history);
    assert (set d | d in sorted && month.Contains(d)) == (set d | d in Dates(history) && month.Contains(d));
  }

  // ---------------------------------------------------------------------
  // Day detail
  // ---------------------------------------------------------------------

  const NoCheckInNote: string := "No check-in recorded for this date."

  /** What the day-detail modal shows for a date. */
  datatype DayInfo = DayInfo(date: Day, note: Option<string>, photo: Option<string>)

  /** `openModal`: the note and photo of the first entry for the date, kept
      as stored (an empty note stays empty); a placeholder note and no photo
      when the date has no entry. */
  function DayDetail(history: seq<Entry>, selected: Day): (r: DayInfo)
    ensures r.date == selected
    ensures forall i :: 0 <= i < |history| && history[i].date == selected &&
                        (forall j :: 0 <= j < i ==> history[j].date != selected) ==>
              r.note == history[i].note && r.photo == history[i].photo
    ensures selected !in Dates(history) ==> r.note == Some(NoCheckInNote) && r.photo == None
  {
    match Find(history, selected)
    case Some(entry) => DayInfo(selected, entry.note, entry.photo)
    case None => DayInfo(selected, Some(NoCheckInNote), None)
  }
}
