/** The stored records: a habit and its check-in history (types.ts). */
module Habits {
  import opened Wrappers
  import opened Days

  /** One check-in: the day it records and the optional note and photo
      reference attached to it. */
  datatype Entry = Entry(date: Day, note: Option<string>, photo: Option<string>)

  /** A habit as persisted. `streak` and `lastChecked` are caches kept next
      to `history`; `lastChecked` is the local day of the stored timestamp. */
  datatype Habit = Habit(
    id: string,
    name: string,
    icon: string,
    color: string,
    category: string,
    createdAt: string,
    streak: int,
    lastChecked: Option<Day>,
    history: seq<Entry>)

  /** JavaScript truthiness of an optional string: present and non-empty. */
  predicate Truthy(v: Option<string>) {
    v.Some? && v.value != ""
  }

  /** The JavaScript expression `a || b` on optional strings: one of the two
      operands, truthy when either is, and the left one when it is truthy. */
  function OrElse(a: Option<string>, b: Option<string>): (r: Option<string>)
    ensures r == a || r == b
    ensures Truthy(r) <==> Truthy(a) || Truthy(b)
    ensures Truthy(a) ==> r == a
  {
    if Truthy(a) then a else b
  }

  /** The days on which the history records a check-in. */
  function Dates(history: seq<Entry>): set<Day> {
    set e | e in history :: e.date
  }

  /** No day is recorded by two entries. */
  predicate DistinctDates(history: seq<Entry>) {
    forall i, j :: 0 <= i < j < |history| ==> history[i].date != history[j].date
  }

  /** `history.map(entry => entry.date)`. */
  function DateSeq(history: seq<Entry>): (days: seq<Day>)
    ensures |days| == |history|
    ensures forall i :: 0 <= i < |history| ==> days[i] == history[i].date
  {
    if |history| == 0 then [] else [history[0].date] + DateSeq(history[1..])
  }

  lemma DateSeqValues(history: seq<Entry>)
    ensures forall d :: d in DateSeq(history) <==> d in Dates(history)
  {
    var days := DateSeq(history);
    forall d | d in days ensures d in Dates(history) {
      var i :| 0 <= i < |days| && days[i] == d;
      assert history[i] in history;
    }
    forall d | d in Dates(history) ensures d in days {
      var e :| e in history && e.date == d;
      var i :| 0 <= i < |history| && history[i] == e;
      assert days[i] == d;
    }
  }

  /** `history.findIndex(entry => entry.date == day)`: the position of the
      first entry for `day`, or -1 when there is none. */
  function FindIndex(history: seq<Entry>, day: Day): (i: int)
    ensures -1 <= i < |history|
    ensures i >= 0 ==> history[i].date == day
    ensures i >= 0 ==> forall j :: 0 <= j < i ==> history[j].date != day
    ensures i == -1 <==> day !in Dates(history)
  {
    if |history| == 0 then -1
    else if history[0].date == day then 0
    else
      var k := FindIndex(history[1..], day);
      assert Dates(history) == {history[0].date} + Dates(history[1..]);
      if k == -1 then -1 else k + 1
  }

  /** `history.find(entry => entry.date == day)`. */
  function Find(history: seq<Entry>, day: Day): (r: Option<Entry>)
    ensures r.Some? <==> day in Dates(history)
    ensures r.Some? ==> r.value.date == day
    ensures r.Some? ==> exists i :: 0 <= i < |history| && history[i] == r.value &&
                          forall j :: 0 <= j < i ==> history[j].date != day
  {
    var i := FindIndex(history, day);
    if i == -1 then None else Some(history[i])
  }
}
