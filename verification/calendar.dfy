/** The month grid of the streak calendar (components/Calendar.tsx). */
module CalendarGrid {
  import opened Wrappers
  import opened Days
  import opened Habits

  /** One cell of the grid (`CalendarDayItem` in types.ts). */
  datatype CalendarDay = CalendarDay(
    date: Day,
    isChecked: bool,
    hasPhoto: bool,
    hasNote: bool,
    isToday: bool,
    isInteractive: bool,
    photo: Option<string>)

  /** The number of cells marked as today. */
  function TodayCount(cells: seq<CalendarDay>): nat {
    if |cells| == 0 then 0
    else (if cells[0].isToday then 1 else 0) + TodayCount(cells[1..])
  }

  /** In a run of cells for consecutive days, the one whose day is today is
      the only cell marked as today, and it exists exactly when today falls
      among those days. */
  lemma {:induction false} TodayCountOfConsecutiveDays(cells: seq<CalendarDay>, start: Day, today: Day)
    requires forall i :: 0 <= i < |cells| ==> cells[i].date == start + i
    requires forall i :: 0 <= i < |cells| ==> (cells[i].isToday <==> cells[i].date == today)
    ensures TodayCount(cells) == if start <= today < start + |cells| then 1 else 0
  {
    if |cells| > 0 {
      TodayCountOfConsecutiveDays(cells[1..], start + 1, today);
    }
  }

  /** The calendar data for `month`: one cell per day of the month in day
      order, flagged from the first history entry recorded for that day. */
  method BuildCalendar(history: seq<Entry>, month: Month, today: Day) returns (cells: seq<CalendarDay>)
    ensures |cells| == month.daysInMonth
    ensures forall i :: 0 <= i < |cells| ==> cells[i].date == month.firstDay + i
    ensures forall i :: 0 <= i < |cells| ==> (cells[i].isChecked <==> cells[i].date in Dates(history))
    ensures forall i :: 0 <= i < |cells| ==>
              var found := Find(history, cells[i].date);
              && (cells[i].hasPhoto <==> found.Some? && Truthy(found.value.photo))
              && (cells[i].hasNote <==> found.Some? && Truthy(found.value.note))
              && (cells[i].hasPhoto ==> cells[i].photo == found.value.photo)
    ensures forall i :: 0 <= i < |cells| ==> (cells[i].hasPhoto <==> cells[i].photo.Some?)
    ensures forall i :: 0 <= i < |cells| ==> (cells[i].isInteractive <==> cells[i].hasPhoto || cells[i].hasNote)
    ensures forall i :: 0 <= i < |cells| ==> (cells[i].isInteractive ==> cells[i].isChecked)
    ensures forall i :: 0 <= i < |cells| ==> (cells[i].isToday <==> cells[i].date == today)
    ensures TodayCount(cells) == if month.Contains(today) then 1 else 0
  {
    cells := [];
    var day := 1;
    while day <= month.daysInMonth
      invariant 1 <= day <= month.daysInMonth + 1
      invariant |cells| == day - 1
      invariant forall i :: 0 <= i < |cells| ==> cells[i].date == month.firstDay + i
      invariant forall i :: 0 <= i < |cells| ==> (cells[i].isChecked <==> cells[i].date in Dates(history))
      invariant forall i :: 0 <= i < |cells| ==>
                  var found := Find(history, cells[i].date);
                  && (cells[i].hasPhoto <==> found.Some? && Truthy(found.value.photo))
                  && (cells[i].hasNote <==> found.Some? && Truthy(found.value.note))
                  && (cells[i].hasPhoto ==> cells[i].photo == found.value.photo)
      invariant forall i :: 0 <= i < |cells| ==> (cells[i].hasPhoto <==> cells[i].photo.Some?)
      invariant forall i :: 0 <= i < |cells| ==> (cells[i].isInteractive <==> cells[i].hasPhoto || cells[i].hasNote)
      invariant forall i :: 0 <= i < |cells| ==> (cells[i].isToday <==> cells[i].date == today)
    {
      var date := month.firstDay + day - 1;
      var habitData := Find(history, date);
      var isChecked := habitData.Some?;
      var hasPhoto := habitData.Some? && Truthy(habitData.value.photo);
      var hasNote := habitData.Some? && Truthy(habitData.value.note);
      var isToday := today == date;
      var isInteractive := hasPhoto || hasNote;
      var photo := if habitData.Some? then OrElse(habitData.value.photo, None) else None;
      cells := cells + [CalendarDay(date, isChecked, hasPhoto, hasNote, isToday, isInteractive, photo)];
      day := day + 1;
    }
    TodayCountOfConsecutiveDays(cells, month.firstDay, today);
  }
}
