/** Calendar days, months and runs of consecutive days.

    A day is a whole number of days from an arbitrary epoch: the application
    keeps days as canonical `YYYY-MM-DD` strings, whose equality and
    lexicographic order coincide with equality and order of these numbers,
    and whose `diff(…, 'day')` is integer subtraction here. */
module Days {

  type Day = int

  /** The number of days in a Gregorian month. */
  type MonthLength = n: int | 28 <= n <= 31 witness 28

  /** A calendar month: its first day and its length. */
  datatype Month = Month(firstDay: Day, daysInMonth: MonthLength) {

    function LastDay(): Day {
      firstDay + daysInMonth - 1
    }

    predicate Contains(d: Day) {
      firstDay <= d <= LastDay()
    }
  }

  /** Oldest first, no day twice. */
  predicate StrictlyIncreasing(s: seq<int>) {
    forall i, j :: 0 <= i < j < |s| ==> s[i] < s[j]
  }

  /** Newest first, no day twice. */
  predicate StrictlyDecreasing(s: seq<int>) {
    forall i, j :: 0 <= i < j < |s| ==> s[i] > s[j]
  }

  /** Newest first, repeated days allowed. */
  predicate SortedDescending(s: seq<int>) {
    forall i, j :: 0 <= i < j < |s| ==> s[i] >= s[j]
  }

  /** The values of a sequence, as a set. */
  function Elements(s: seq<int>): set<int> {
    set x | x in s
  }

  /** The `len` consecutive days ending at `end` all belong to `days`. */
  predicate RunIn(days: set<Day>, end: Day, len: nat) {
    forall d :: end - len < d <= end ==> d in days
  }

  /** The days of `days` that are not after `d`; shrinks as `d` steps back. */
  function NotAfter(days: set<Day>, d: Day): set<Day> {
    set x | x in days && x <= d
  }

  /** How many consecutive days of `days` end at `d`, counting backward from
      `d` until the first absent day. */
  function CountBack(days: set<Day>, d: Day): (k: nat)
    ensures RunIn(days, d, k)
    ensures d - k !in days
    decreases |NotAfter(days, d)|
  {
    if d in days then
      assert d in NotAfter(days, d) && d !in NotAfter(days, d - 1);
      assert NotAfter(days, d) == NotAfter(days, d - 1) + {d};
      1 + CountBack(days, d - 1)
    else
      0
  }

  /** A run length is determined by the two facts `CountBack` promises. */
  lemma CountBackUnique(days: set<Day>, d: Day, k: nat)
    requires RunIn(days, d, k) && d - k !in days
    ensures CountBack(days, d) == k
  {
    var c := CountBack(days, d);
    assert !(d - k < d - c <= d);
    assert !(d - c < d - k <= d);
  }

  /** `CountBack` looks only at days up to `d`. */
  lemma CountBackLocal(a: set<Day>, b: set<Day>, d: Day)
    requires forall x :: x <= d ==> (x in a <==> x in b)
    ensures CountBack(a, d) == CountBack(b, d)
  {
    var k := CountBack(a, d);
    assert RunIn(b, d, k);
    CountBackUnique(b, d, k);
  }

  /** The days of the half-open interval `[lo, lo + n)`. */
  function Interval(lo: Day, n: nat): (r: set<Day>)
    ensures forall d :: d in r <==> lo <= d < lo + n
    ensures |r| == n
  {
    if n == 0 then {} else Interval(lo, n - 1) + {lo + n - 1}
  }

  /** A run of `len` days inside `days` means `days` has at least `len`
      members in any window that contains the run. */
  lemma RunCardinality(days: set<Day>, end: Day, len: nat, window: set<Day>)
    requires RunIn(days, end, len)
    requires forall d :: end - len < d <= end ==> d in window
    ensures len <= |days * window|
  {
    var run := Interval(end - len + 1, len);
    assert run <= days * window;
    SubsetSize(run, days * window);
  }

  lemma {:induction false} SubsetSize<T>(a: set<T>, b: set<T>)
    requires a <= b
    ensures |a| <= |b|
    decreases a
  {
    if a != {} {
      var x :| x in a;
      SubsetSize(a - {x}, b - {x});
    }
  }

  /** A strictly increasing sequence of days inside `[lo, lo + n)` has at
      most `n` elements. */
  lemma {:induction false} IncreasingInInterval(s: seq<Day>, lo: Day, n: nat)
    requires StrictlyIncreasing(s)
    requires forall i :: 0 <= i < |s| ==> lo <= s[i] < lo + n
    ensures |s| <= n
  {
    if |s| > 0 {
      IncreasingInInterval(s[1..], s[0] + 1, lo + n - s[0] - 1);
    }
  }

  /** A strictly increasing sequence has as many elements as it has values. */
  lemma {:induction false} IncreasingCardinality(s: seq<int>)
    requires StrictlyIncreasing(s)
    ensures |Elements(s)| == |s|
  {
    if |s| > 0 {
      IncreasingCardinality(s[1..]);
      assert Elements(s) == Elements(s[1..]) + {s[0]};
    }
  }
}
