/** How the two streak computations of the application relate: the one on
    the habit list (app/index.tsx) and the one in the statistics block
    (app/streakCalendar.tsx). */
module StreakViews {
  import opened Wrappers
  import opened Days
  import opened Habits
  import opened HabitList
  import opened HabitStats

  lemma {:induction false} DistinctOccurOnce(s: seq<Day>)
    requires forall i, j :: 0 <= i < j < |s| ==> s[i] != s[j]
    ensures forall v :: multiset(s)[v] <= 1
  {
    if |s| > 0 {
      DistinctOccurOnce(s[1..]);
      assert s == [s[0]] + s[1..];
      assert multiset(s) == multiset{s[0]} + multiset(s[1..]);
      assert s[0] !in s[1..];
    }
  }

  lemma {:induction false} OccurOnceDistinct(s: seq<Day>)
    requires forall v :: multiset(s)[v] <= 1
    ensures forall i, j :: 0 <= i < j < |s| ==> s[i] != s[j]
  {
    if |s| > 0 {
      var head := s[0];
      assert multiset(s)[head] <= 1;
      assert s == [head] + s[1..];
      assert multiset(s) == multiset{head} + multiset(s[1..]);
      assert multiset(s[1..])[head] == 0;
      forall v ensures multiset(s[1..])[v] <= 1 {
        assert multiset(s)[v] <= 1;
      }
      OccurOnceDistinct(s[1..]);
      forall i, j | 0 <= i < j < |s| ensures s[i] != s[j] {
        if i == 0 {
          assert s[j] in s[1..];
        } else {
          assert s[1..][i - 1] != s[1..][j - 1];
        }
      }
    }
  }

  /** Sorting newest first a history without repeated days gives a strictly
      decreasing sequence of its days. */
  lemma SortedDistinctDescending(history: seq<Entry>)
    requires DistinctDates(history)
    ensures StrictlyDecreasing(SortDescending(DateSeq(history)))
    ensures Elements(SortDescending(DateSeq(history))) == Dates(history)
  {
    var sorted := SortDescending(DateSeq(history));
    DistinctOccurOnce(DateSeq(history));
    OccurOnceDistinct(sorted);
    forall i, j | 0 <= i < j < |sorted| ensures sorted[i] > sorted[j] {
      assert sorted[i] >= sorted[j] && sorted[i] != sorted[j];
    }
    SortedDaysAreRecorded(history);
  }

  /** On a strictly decreasing sequence the list's counting loop counts the
      consecutive days present before the newest one. */
  lemma {:induction false} LeadingRunIsCountBack(s: seq<Day>)
    requires |s| > 0 && StrictlyDecreasing(s)
    ensures LeadingRun(s) == CountBack(Elements(s), s[0])
  {
    if |s| >= 2 && s[0] - s[1] == 1 {
      LeadingRunIsCountBack(s[1..]);
      assert Elements(s) == Elements(s[1..]) + {s[0]};
      CountBackLocal(Elements(s), Elements(s[1..]), s[1]);
    } else {
      assert s[0] - 1 !in Elements(s) by {
        forall i | 0 <= i < |s| ensures s[i] != s[0] - 1 {
          if i >= 1 {
            assert s[i] <= s[1] < s[0];
          }
        }
      }
      CountBackUnique(Elements(s), s[0], 1);
    }
  }

  /** On a history without repeated days and without days after today, the
      habit list and the statistics block show the same current streak. */
  lemma ListStreakAgreesWithStats(history: seq<Entry>, today: Day, month: Month)
    requires |history| > 0
    requires DistinctDates(history)
    requires forall e :: e in history ==> e.date <= today
    ensures CalculateStreak(history, today) == GetHabitStats(history, today, month).value.currentStreak
  {
    var sorted := SortDescending(DateSeq(history));
    var days := Dates(history);
    SortedDistinctDescending(history);
    NewestFirst(history);
    StatsCurrentStreak(history, today, month);
    var newest := sorted[0];
    assert newest <= today by {
      assert newest in days;
    }
    if newest >= today - 1 {
      LeadingRunIsCountBack(sorted);
      assert CalculateStreak(history, today) == CountBack(days, newest);
      if newest == today - 1 {
        assert today !in days;
      }
    } else {
      assert today !in days && today - 1 !in days;
    }
  }

  /** A repeated newest day makes the two views disagree: the list shows 1
      where the statistics block shows 2. */
  lemma RepeatedDayDisagreement(today: Day, month: Month)
    ensures var history := [Entry(today, None, None), Entry(today, None, None), Entry(today - 1, None, None)];
            && CalculateStreak(history, today) == 1
            && GetHabitStats(history, today, month).value.currentStreak == 2
  {
    var history := [Entry(today, None, None), Entry(today, None, None), Entry(today - 1, None, None)];
    DuplicateNewestStopsStreak(history, today, 0, 1);
    assert Dates(history) == {today, today - 1} by {
      assert history[2] in history;
    }
    DateSeqValues(history);
    var days := Elements(SortedDistinct(DateSeq(history)));
    assert days == {today, today - 1};
    CountBackUnique(days, today, 2);
  }

  /** A check-in dated after today makes the two views disagree: the list
      shows 0 where the statistics block shows 1. */
  lemma FutureDayDisagreement(today: Day, month: Month)
    ensures var history := [Entry(today, None, None), Entry(today + 1, None, None)];
            && CalculateStreak(history, today) == 0
            && GetHabitStats(history, today, month).value.currentStreak == 1
  {
    var history := [Entry(today, None, None), Entry(today + 1, None, None)];
    StreakActiveIff(history, today);
    assert history[1] in history;
    DateSeqValues(history);
    var days := Elements(SortedDistinct(DateSeq(history)));
    assert days == {today, today + 1} by {
      assert history[0] in history;
    }
    CountBackUnique(days, today, 1);
  }

  /** A check-in that records today makes both views show an active streak;
      the list view needs, in addition, that no check-in is dated after
      today. The cached `streak` field itself is not updated. */
  lemma CheckInStartsStreak(habit: Habit, today: Day, month: Month, note: Option<string>, photo: Option<string>)
    requires !IsCheckedToday(habit, today)
    ensures var checked := CheckIn(habit, today, note, photo);
            && GetHabitStats(checked.history, today, month).Some?
            && GetHabitStats(checked.history, today, month).value.currentStreak >= 1
            && ((forall e :: e in habit.history ==> e.date <= today) ==> CalculateStreak(checked.history, today) >= 1)
            && checked.streak == habit.streak
  {
    var h := CheckIn(habit, today, note, photo).history;
    CheckInLookup(habit, today, note, photo);
    assert today in Dates(h);
    var e :| e in h && e.date == today;
    DateSeqValues(h);
    assert today in Elements(SortedDistinct(DateSeq(h)));
    if forall e :: e in habit.history ==> e.date <= today {
      forall e' | e' in h ensures e'.date <= today {
        assert e'.date in Dates(h);
      }
      StreakActiveIff(h, today);
    }
  }
}
