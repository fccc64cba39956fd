/** The monthly trend chart (components/Trend.tsx). */
module TrendChart {
  import opened Days
  import opened Habits

  /** The day of the month of the `i`-th point: the month's days, then the
      first day of the following month. */
  function DayOfMonth(month: Month, i: nat): int
    requires i <= month.daysInMonth
  {
    if i < month.daysInMonth then i + 1 else 1
  }

  /** The axis label of a day of the month: only the 1st, 15th and 30th are
      written out. */
  function Label(dayOfMonth: int): (text: string)
    ensures text != "" <==> dayOfMonth == 1 || dayOfMonth == 15 || dayOfMonth == 30
  {
    if dayOfMonth == 1 then "1"
    else if dayOfMonth == 15 then "15"
    else if dayOfMonth == 30 then "30"
    else ""
  }

  /** The checked days from the month's first day on: the running count
      never reaches back before the month. */
  function Window(history: seq<Entry>, month: Month): set<Day> {
    set d | d in Dates(history) && d >= month.firstDay
  }

  /** What the point for the `i`-th day of the window is: positive exactly
      on checked days, one more than the previous point on a checked day and
      zero otherwise, and bounded by the days elapsed and by the checked days
      elapsed since the month began. */
  lemma TrendPoint(history: seq<Entry>, month: Month, i: nat)
    ensures var window := Window(history, month);
            var day := month.firstDay + i;
            var k := CountBack(window, day);
            && (k > 0 <==> day in Dates(history))
            && (i == 0 ==> k == if day in Dates(history) then 1 else 0)
            && (i > 0 ==> k == if day in Dates(history) then CountBack(window, day - 1) + 1 else 0)
            && k <= i + 1
            && k <= |Dates(history) * Interval(month.firstDay, i + 1)|
  {
    var window := Window(history, month);
    var day := month.firstDay + i;
    var k := CountBack(window, day);
    assert month.firstDay - 1 !in window;
    RunCardinality(window, day, k, Interval(month.firstDay, i + 1));
    assert window * Interval(month.firstDay, i + 1) == Dates(history) * Interval(month.firstDay, i + 1);
  }

  /** The properties of every point of the trend series: positive exactly
      on checked days, starting from zero before the month, one more than the
      previous point on a checked day and zero otherwise, and never more than
      the days, or the checked days, elapsed since the month began. */
  lemma TrendSeries(history: seq<Entry>, month: Month, data: seq<nat>)
    requires forall i :: 0 <= i < |data| ==> data[i] == CountBack(Window(history, month), month.firstDay + i)
    ensures forall i :: 0 <= i < |data| ==> (data[i] > 0 <==> month.firstDay + i in Dates(history))
    ensures |data| > 0 ==> data[0] == if month.firstDay in Dates(history) then 1 else 0
    ensures forall i :: 0 < i < |data| ==>
              data[i] == if month.firstDay + i in Dates(history) then data[i - 1] + 1 else 0
    ensures forall i :: 0 <= i < |data| ==> data[i] <= i + 1
    ensures forall i :: 0 <= i < |data| ==> data[i] <= |Dates(history) * Interval(month.firstDay, i + 1)|
  {
    forall i | 0 <= i < |data|
      ensures data[i] > 0 <==> month.firstDay + i in Dates(history)
      ensures i == 0 ==> data[i] == if month.firstDay in Dates(history) then 1 else 0
      ensures i > 0 ==> data[i] == if month.firstDay + i in Dates(history) then data[i - 1] + 1 else 0
      ensures data[i] <= i + 1
      ensures data[i] <= |Dates(history) * Interval(month.firstDay, i + 1)|
    {
      TrendPoint(history, month, i);
    }
  }

  /** The checked days are kept in a set, so an entry for an already
      checked day changes neither the window nor, hence, the series. */
  lemma DuplicateLeavesWindow(history: seq<Entry>, month: Month, extra: Entry)
    requires extra.date in Dates(history)
    ensures Dates(history + [extra]) == Dates(history)
    ensures Window(history + [extra], month) == Window(history, month)
  {
    var h := history + [extra];
    forall d | d in Dates(h) ensures d in Dates(history) {
      var e :| e in h && e.date == d;
      var j :| 0 <= j < |h| && h[j] == e;
      if j < |history| { assert history[j] in history; }
    }
    forall d | d in Dates(history) ensures d in Dates(h) {
      var e :| e in history && e.date == d;
      var j :| 0 <= j < |history| && history[j] == e;
      assert h[j] in h;
    }
  }

  /** `getTrendData`: the loop from the month's first day while before the end
      of the month plus one day, so it also covers the first day of the next
      month. Each point is the running count of consecutive checked days,
      reset on every unchecked day. */
  method GetTrendData(history: seq<Entry>, month: Month) returns (labels: seq<string>, data: seq<nat>)
    ensures |labels| == |data| == month.daysInMonth + 1
    ensures forall i :: 0 <= i < |labels| ==> labels[i] == Label(DayOfMonth(month, i))
    ensures forall i :: 0 <= i < |data| ==> data[i] == CountBack(Window(history, month), month.firstDay + i)
  {
    var doneDays := Dates(history);
    ghost var window := Window(history, month);
    labels, data := [], [];
    var streak: nat := 0;
    var d := month.firstDay;
    while d <= month.LastDay() + 1
      invariant month.firstDay <= d <= month.LastDay() + 2
      invariant |labels| == |data| == d - month.firstDay
      invariant streak == CountBack(window, d - 1)
      invariant forall i :: 0 <= i < |labels| ==> labels[i] == Label(DayOfMonth(month, i))
      invariant forall i :: 0 <= i < |data| ==> data[i] == CountBack(window, month.firstDay + i)
    {
      assert d in window <==> d in doneDays;
      var dayOfMonth := if d <= month.LastDay() then d - month.firstDay + 1 else 1;
      labels := labels + [Label(dayOfMonth)];
      if d in doneDays {
        streak := streak + 1;
      } else {
        streak := 0;
      }
      data := data + [streak];
      d := d + 1;
    }
  }
}
