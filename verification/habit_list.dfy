/** The habit list screen (app/index.tsx): the streak shown on each row and
    the check-in that records today's completion. */
module HabitList {
  import opened Wrappers
  import opened Days
  import opened Habits

  // ---------------------------------------------------------------------
  // Streak on the habit list
  // ---------------------------------------------------------------------

  function InsertDescending(x: Day, s: seq<Day>): (r: seq<Day>)
    requires SortedDescending(s)
    ensures SortedDescending(r)
    ensures multiset(r) == multiset(s) + multiset{x}
  {
    if |s| == 0 || x >= s[0] then [x] + s
    else
      var rest := InsertDescending(x, s[1..]);
      assert s == [s[0]] + s[1..];
      forall j | 0 <= j < |rest| ensures rest[j] <= s[0] {
        assert rest[j] in multiset(rest);
        if rest[j] != x {
          assert rest[j] in multiset(s[1..]);
        }
      }
      [s[0]] + rest
  }

  /** The newest-first order `sort((a, b) => b.diff(a))` puts the days in. */
  function SortDescending(days: seq<Day>): (r: seq<Day>)
    ensures SortedDescending(r)
    ensures multiset(r) == multiset(days)
  {
    if |days| == 0 then []
    else
      assert days == [days[0]] + days[1..];
      InsertDescending(days[0], SortDescending(days[1..]))
  }

  /** The head of a newest-first order is its latest day. */
  lemma HeadIsLargest(s: seq<Day>, x: Day)
    requires SortedDescending(s) && x in multiset(s)
    ensures |s| > 0 && x <= s[0]
  {
    var k :| 0 <= k < |s| && s[k] == x;
  }

  lemma SplitHead(s: seq<Day>)
    requires |s| > 0
    ensures multiset(s[1..]) == multiset(s) - multiset{s[0]}
  {
    assert s == [s[0]] + s[1..];
  }

  /** Two newest-first orderings of the same days are the same sequence, so
      the order of the input cannot be observed after sorting. */
  lemma {:induction false} SortedDescendingUnique(a: seq<Day>, b: seq<Day>)
    requires SortedDescending(a) && SortedDescending(b)
    requires multiset(a) == multiset(b)
    ensures a == b
  {
    if |a| == 0 {
      assert |multiset(b)| == 0;
    } else {
      assert |b| == |multiset(b)| == |multiset(a)| == |a|;
      HeadIsLargest(b, a[0]);
      HeadIsLargest(a, b[0]);
      assert a[0] == b[0];
      SplitHead(a);
      SplitHead(b);
      SortedDescendingUnique(a[1..], b[1..]);
    }
  }

  /** The counting loop of `calculateStreak`: one for the newest day, plus one
      for each following day exactly one day earlier than its predecessor,
      stopping at the first pair that is not. */
  function LeadingRun(s: seq<Day>): (k: nat)
    requires |s| > 0
    ensures 1 <= k <= |s|
    ensures forall i :: 0 < i < k ==> s[i - 1] - s[i] == 1
    ensures k < |s| ==> s[k - 1] - s[k] != 1
  {
    if |s| >= 2 && s[0] - s[1] == 1 then 1 + LeadingRun(s[1..]) else 1
  }

  /** The `i`-th day counted by the loop lies `i` days before the newest. */
  lemma {:induction false} LeadingRunSteps(s: seq<Day>, i: nat)
    requires |s| > 0 && i < LeadingRun(s)
    ensures s[i] == s[0] - i
  {
    if i > 0 {
      LeadingRunSteps(s, i - 1);
    }
  }

  /** The streak shown on a row of the habit list: zero unless the newest
      check-in is today or yesterday, otherwise the number of consecutive
      days in the newest-first order. */
  function CalculateStreak(history: seq<Entry>, today: Day): (streak: nat)
    ensures |history| == 0 ==> streak == 0
    ensures streak <= |history|
  {
    if |history| == 0 then 0
    else
      var sorted := SortDescending(DateSeq(history));
      var mostRecent := sorted[0];
      assert |sorted| == |multiset(sorted)| == |DateSeq(history)|;
      if mostRecent == today || mostRecent == today - 1 then LeadingRun(sorted) else 0
  }

  /** Sorting keeps the number of entries and exactly the recorded days. */
  lemma SortedDaysAreRecorded(history: seq<Entry>)
    ensures |SortDescending(DateSeq(history))| == |history|
    ensures forall d :: d in SortDescending(DateSeq(history)) <==> d in Dates(history)
  {
    var days := DateSeq(history);
    var sorted := SortDescending(days);
    assert |sorted| == |multiset(sorted)| == |multiset(days)| == |days|;
    DateSeqValues(history);
    forall d ensures d in sorted <==> d in days {
      assert d in sorted <==> d in multiset(sorted);
      assert d in days <==> d in multiset(days);
    }
  }

  /** The newest-first order starts with the latest recorded day. */
  lemma NewestFirst(history: seq<Entry>)
    requires |history| > 0
    ensures |SortDescending(DateSeq(history))| == |history|
    ensures SortDescending(DateSeq(history))[0] in Dates(history)
    ensures forall e :: e in history ==> e.date <= SortDescending(DateSeq(history))[0]
  {
    var sorted := SortDescending(DateSeq(history));
    SortedDaysAreRecorded(history);
    assert sorted[0] in sorted;
    forall e | e in history ensures e.date <= sorted[0] {
      assert e.date in Dates(history);
      var j :| 0 <= j < |sorted| && sorted[j] == e.date;
    }
  }

  /** Grace rule: the streak is positive exactly when some check-in is today
      or yesterday and none is dated after today. */
  lemma StreakActiveIff(history: seq<Entry>, today: Day)
    ensures CalculateStreak(history, today) > 0 <==>
              (exists e :: e in history && (e.date == today || e.date == today - 1)) &&
              (forall e :: e in history ==> e.date <= today)
  {
    if |history| > 0 {
      NewestFirst(history);
      var newest := SortDescending(DateSeq(history))[0];
      var e :| e in history && e.date == newest;
    }
  }

  /** Sorting first makes the streak independent of the order in which the
      entries are stored, and of their notes and photos. */
  lemma StreakOrderIndependent(h1: seq<Entry>, h2: seq<Entry>, today: Day)
    requires multiset(DateSeq(h1)) == multiset(DateSeq(h2))
    ensures CalculateStreak(h1, today) == CalculateStreak(h2, today)
  {
    assert |h1| == |DateSeq(h1)| == |multiset(DateSeq(h2))| == |h2|;
    SortedDescendingUnique(SortDescending(DateSeq(h1)), SortDescending(DateSeq(h2)));
  }

  /** The days counted by the streak are consecutive days that all have a
      check-in, ending at the newest one. */
  lemma StreakIsRun(history: seq<Entry>, today: Day)
    requires |history| > 0
    ensures RunIn(Dates(history), SortDescending(DateSeq(history))[0], CalculateStreak(history, today))
  {
    var sorted := SortDescending(DateSeq(history));
    var k := CalculateStreak(history, today);
    DateSeqValues(history);
    if k > 0 {
      forall i | 0 <= i < k ensures sorted[i] == sorted[0] - i {
        LeadingRunSteps(sorted, i);
      }
      forall d | sorted[0] - k < d <= sorted[0] ensures d in Dates(history) {
        var i := sorted[0] - d;
        assert sorted[i] == d && sorted[i] in multiset(DateSeq(history));
      }
    }
  }

  /** The count is not deduplicated: when the newest day, being today or
      yesterday, is recorded twice the streak is exactly one, whatever
      precedes it. */
  lemma DuplicateNewestStopsStreak(history: seq<Entry>, today: Day, i: nat, j: nat)
    requires i < |history| && j < |history| && i != j
    requires history[i].date == history[j].date
    requires history[i].date == today || history[i].date == today - 1
    requires forall e :: e in history ==> e.date <= history[i].date
    ensures CalculateStreak(history, today) == 1
  {
    var days := DateSeq(history);
    var sorted := SortDescending(days);
    NewestFirst(history);
    var e :| e in history && e.date == sorted[0];
    assert sorted[0] == history[i].date;
    RepeatedValue(days, i, j);
    HeadRepeated(sorted);
    assert LeadingRun(sorted) == 1;
  }

  /** A value found at two positions occurs at least twice. */
  lemma RepeatedValue(s: seq<Day>, i: nat, j: nat)
    requires i < |s| && j < |s| && i != j && s[i] == s[j]
    ensures multiset(s)[s[i]] >= 2
  {
    var lo, hi := if i < j then i else j, if i < j then j else i;
    assert s == s[..hi] + [s[hi]] + s[hi + 1..];
    assert s[..hi][lo] == s[i];
    assert multiset(s) == multiset(s[..hi]) + multiset{s[hi]} + multiset(s[hi + 1..]);
  }

  /** In a newest-first order, a day recorded twice at the head is also the
      second element. */
  lemma HeadRepeated(s: seq<Day>)
    requires SortedDescending(s) && |s| > 0 && multiset(s)[s[0]] >= 2
    ensures |s| >= 2 && s[1] == s[0]
  {
    assert s == [s[0]] + s[1..];
    assert multiset(s) == multiset{s[0]} + multiset(s[1..]);
    assert s[0] in multiset(s[1..]);
    var j :| 0 <= j < |s[1..]| && s[1..][j] == s[0];
    assert s[j + 1] == s[0];
  }

  // ---------------------------------------------------------------------
  // Check-in
  // ---------------------------------------------------------------------

  /** `isCheckedToday`: the stored last check-in falls on today. */
  predicate IsCheckedToday(habit: Habit, today: Day) {
    habit.lastChecked == Some(today)
  }

  /** The update `handleCheckIn` applies to the selected habit. Nothing changes
      when it was already checked in today. Otherwise today's entry gets the
      non-empty note and photo (keeping the old ones where the new are empty),
      or a new entry for today is appended, and `lastChecked` becomes today.
      The cached `streak` is left as it was. */
  function CheckIn(habit: Habit, today: Day, note: Option<string>, photo: Option<string>): (r: Habit)
    ensures IsCheckedToday(r, today)
    ensures r == habit <==> IsCheckedToday(habit, today)
    ensures r.(history := habit.history, lastChecked := habit.lastChecked) == habit
  {
    if habit.lastChecked == Some(today) then habit
    else
      var i := FindIndex(habit.history, today);
      var history :=
        if i > -1 then
          var entry := habit.history[i];
          habit.history[i := entry.(note := OrElse(note, entry.note), photo := OrElse(photo, entry.photo))]
        else
          habit.history + [Entry(today, OrElse(note, None), OrElse(photo, None))];
      habit.(lastChecked := Some(today), history := history)
  }

  /** A second check-in on the same day changes nothing. */
  lemma CheckInTwiceSameDay(habit: Habit, today: Day, n1: Option<string>, p1: Option<string>,
                            n2: Option<string>, p2: Option<string>)
    ensures CheckIn(CheckIn(habit, today, n1, p1), today, n2, p2) == CheckIn(habit, today, n1, p1)
  {
  }

  /** With no entry for today, exactly one entry is appended and the earlier
      entries are kept as they were. */
  lemma CheckInAppends(habit: Habit, today: Day, note: Option<string>, photo: Option<string>)
    requires !IsCheckedToday(habit, today) && today !in Dates(habit.history)
    ensures var h := CheckIn(habit, today, note, photo).history;
            && |h| == |habit.history| + 1
            && h[..|habit.history|] == habit.history
            && h == habit.history + [Entry(today, if Truthy(note) then note else None,
                                                  if Truthy(photo) then photo else None)]
  {
  }

  /** With an entry for today, that entry is updated in place and no other
      entry changes; an empty note or photo does not erase the stored one. */
  lemma CheckInMerges(habit: Habit, today: Day, note: Option<string>, photo: Option<string>)
    requires !IsCheckedToday(habit, today) && today in Dates(habit.history)
    ensures var h := CheckIn(habit, today, note, photo).history;
            var i := FindIndex(habit.history, today);
            && |h| == |habit.history|
            && (forall j :: 0 <= j < |h| && j != i ==> h[j] == habit.history[j])
            && h[i].date == today
            && (Truthy(habit.history[i].note) ==> Truthy(h[i].note))
            && (Truthy(habit.history[i].photo) ==> Truthy(h[i].photo))
            && (Truthy(note) ==> h[i].note == note)
            && (Truthy(photo) ==> h[i].photo == photo)
            && (!Truthy(note) ==> h[i].note == habit.history[i].note)
            && (!Truthy(photo) ==> h[i].photo == habit.history[i].photo)
  {
  }

  /** Seen through the day lookup, a check-in records today and leaves every
      other day as it was. */
  lemma CheckInLookup(habit: Habit, today: Day, note: Option<string>, photo: Option<string>)
    requires !IsCheckedToday(habit, today)
    ensures var h := CheckIn(habit, today, note, photo).history;
            && Dates(h) == Dates(habit.history) + {today}
            && Find(h, today).Some?
            && (forall d :: d != today ==> Find(h, d) == Find(habit.history, d))
  {
    var h := CheckIn(habit, today, note, photo).history;
    var i := FindIndex(habit.history, today);
    if i > -1 {
      assert forall j :: 0 <= j < |h| ==> h[j].date == habit.history[j].date;
      assert Dates(h) == Dates(habit.history) by {
        forall d | d in Dates(h) ensures d in Dates(habit.history) {
          var e :| e in h && e.date == d;
          var j :| 0 <= j < |h| && h[j] == e;
          assert habit.history[j] in habit.history;
        }
        forall d | d in Dates(habit.history) ensures d in Dates(h) {
          var e :| e in habit.history && e.date == d;
          var j :| 0 <= j < |h| && habit.history[j] == e;
          assert h[j] in h;
        }
      }
      forall d | d != today ensures Find(h, d) == Find(habit.history, d) {
        FindAgreesOnDay(habit.history, h, d);
      }
    } else {
      assert h == habit.history + [h[|h| - 1]];
      assert Dates(h) == Dates(habit.history) + {today} by {
        forall d | d in Dates(h) ensures d in Dates(habit.history) + {today} {
          var e :| e in h && e.date == d;
          var j :| 0 <= j < |h| && h[j] == e;
          if j < |habit.history| { assert habit.history[j] in habit.history; }
        }
        assert h[|h| - 1] in h;
        forall d | d in Dates(habit.history) ensures d in Dates(h) {
          var e :| e in habit.history && e.date == d;
          var j :| 0 <= j < |habit.history| && habit.history[j] == e;
          assert h[j] in h;
        }
      }
      forall d | d != today ensures Find(h, d) == Find(habit.history, d) {
        FindAgreesOnDay(habit.history, h, d);
      }
    }
  }

  /** The check-in keeps one entry per day: it merges into today's entry when
      there is one and appends only when there is none. */
  lemma CheckInKeepsDistinct(habit: Habit, today: Day, note: Option<string>, photo: Option<string>)
    requires DistinctDates(habit.history)
    ensures DistinctDates(CheckIn(habit, today, note, photo).history)
  {
    var h := CheckIn(habit, today, note, photo).history;
    if !IsCheckedToday(habit, today) {
      if today in Dates(habit.history) {
        CheckInMerges(habit, today, note, photo);
        assert forall j :: 0 <= j < |h| ==> h[j].date == habit.history[j].date;
      } else {
        CheckInAppends(habit, today, note, photo);
        forall i, j | 0 <= i < j < |h| ensures h[i].date != h[j].date {
          if j == |habit.history| {
            assert habit.history[i] in habit.history;
          }
        }
      }
    }
  }

  /** A check-in records no day after today that was not already there. */
  lemma CheckInAddsNoFutureDay(habit: Habit, today: Day, note: Option<string>, photo: Option<string>)
    requires forall e :: e in habit.history ==> e.date <= today
    ensures forall e :: e in CheckIn(habit, today, note, photo).history ==> e.date <= today
  {
    var h := CheckIn(habit, today, note, photo).history;
    if !IsCheckedToday(habit, today) {
      CheckInLookup(habit, today, note, photo);
      forall e | e in h ensures e.date <= today {
        assert e.date in Dates(h);
        if e.date != today {
          var e' :| e' in habit.history && e'.date == e.date;
        }
      }
    }
  }

  /** Two histories whose entries for `day` sit at the same positions, and
      are the same entries, give the same lookup for `day`. */
  lemma {:induction false} FindAgreesOnDay(a: seq<Entry>, b: seq<Entry>, day: Day)
    requires |a| <= |b|
    requires forall j :: 0 <= j < |a| ==> (a[j].date == day <==> b[j].date == day)
    requires forall j :: 0 <= j < |a| && a[j].date == day ==> a[j] == b[j]
    requires forall j :: |a| <= j < |b| ==> b[j].date != day
    ensures Find(a, day) == Find(b, day)
  {
    if |a| > 0 {
      FindAgreesOnDay(a[1..], b[1..], day);
    } else if |b| > 0 {
      assert day !in Dates(b) by {
        forall e | e in b ensures e.date != day {
          var j :| 0 <= j < |b| && b[j] == e;
        }
      }
    }
  }

  /** `handleCheckIn`: every habit carrying the selected id is checked in;
      the list keeps its length and order, and the other habits are returned
      untouched. Without a selected habit the list is unchanged. */
  function HandleCheckIn(habits: seq<Habit>, currentId: Option<string>, today: Day,
                         note: Option<string>, photo: Option<string>): (r: seq<Habit>)
    ensures |r| == |habits|
    ensures !Truthy(currentId) ==> r == habits
    ensures forall i :: 0 <= i < |habits| ==>
              r[i] == if Truthy(currentId) && habits[i].id == currentId.value
                      then CheckIn(habits[i], today, note, photo) else habits[i]
  {
    if !Truthy(currentId) then habits
    else CheckInMatching(habits, currentId.value, today, note, photo)
  }

  function CheckInMatching(habits: seq<Habit>, id: string, today: Day,
                           note: Option<string>, photo: Option<string>): (r: seq<Habit>)
    ensures |r| == |habits|
    ensures forall i :: 0 <= i < |habits| ==>
              r[i] == if habits[i].id == id then CheckIn(habits[i], today, note, photo) else habits[i]
  {
    if |habits| == 0 then []
    else
      var h := habits[0];
      [if h.id == id then CheckIn(h, today, note, photo) else h] +
      CheckInMatching(habits[1..], id, today, note, photo)
  }
}
