/** Raw attendance punches as the `attendance-report/` endpoint returns them,
    and the clock arithmetic both attendance views apply to them. A timestamp
    is a local time in milliseconds since 1970-01-01 00:00 local time. */
module Punches {
  import opened Wrappers
  import ArraySort

  const MS_PER_MINUTE: int := 60_000
  const MS_PER_HOUR: int := 3_600_000
  const MS_PER_DAY: int := 86_400_000

  /** One punch record. `kind` is the record's `attendence_type`: "IN", "OUT"
      or any other text, which the views ignore. */
  datatype Punch = Punch(
    employeeId: string,
    employeeName: Option<string>,
    department: Option<string>,
    designation: Option<string>,
    time: int,
    kind: string,
    deviceId: Option<string>)

  /** The local day a timestamp falls on (the day `ymd(new Date(t))` names). */
  function DayOf(t: int): int {
    t / MS_PER_DAY
  }

  /** `getHours() * 60 + getMinutes()`: seconds and milliseconds dropped. */
  function MinuteOfDay(t: int): (m: int)
    ensures 0 <= m < 1440
  {
    (t % MS_PER_DAY) / MS_PER_MINUTE
  }

  /** `getHours() + getMinutes() / 60`, the fractional hour both views compare
      with their start-of-day thresholds. */
  function HourOfDay(t: int): real {
    (MinuteOfDay(t) / 60) as real + (MinuteOfDay(t) % 60) as real / 60.0
  }

  /** Comparing the fractional hour with `minutes / 60` is comparing whole
      minutes of the day, so the integer thresholds of the model are exact. */
  lemma HourOfDayAbove(t: int, minutes: int)
    ensures HourOfDay(t) > minutes as real / 60.0 <==> MinuteOfDay(t) > minutes
  {
    var m := MinuteOfDay(t);
    assert m == (m / 60) * 60 + m % 60;
    assert HourOfDay(t) * 60.0 == m as real;
  }

  /** The comparator `(a, b) => new Date(a.attendence_time) - new Date(b.attendence_time)`. */
  function CompareTime(a: Punch, b: Punch): int {
    a.time - b.time
  }

  ghost predicate SortedByTime(s: seq<Punch>) {
    forall i, j :: 0 <= i < j < |s| ==> s[i].time <= s[j].time
  }

  /** The comparator orders by time, and punches tie exactly when they
      carry the same time. */
  lemma CompareTimeIsOrder()
    ensures ArraySort.Antisymmetric(CompareTime)
    ensures ArraySort.Transitive(CompareTime)
    ensures ArraySort.TiesAreClasses(CompareTime)
  {
  }

  /** Sorts punches by time in place, as `records.sort(...)` does; punches
      with the same time keep their input order, as the stable
      `Array.prototype.sort` keeps them. */
  method SortByTime(a: array<Punch>)
    modifies a
    ensures SortedByTime(a[..])
    ensures multiset(a[..]) == multiset(old(a[..]))
    ensures ArraySort.Stable(old(a[..]), a[..], CompareTime)
  {
    CompareTimeIsOrder();
    ArraySort.Sort(a, CompareTime);
    ArraySort.AdjacentSortedIsSorted(a[..], CompareTime);
  }

  /** The records of employee `id`, in input order. */
  function RecordsOf(s: seq<Punch>, id: string): (r: seq<Punch>)
  {
    if s == [] then []
    else RecordsOf(s[..|s| - 1], id) + (if s[|s| - 1].employeeId == id then [s[|s| - 1]] else [])
  }

  /** The group holds the employee's records and nothing else. */
  lemma {:induction false} RecordsOfMembers(s: seq<Punch>, id: string)
    ensures forall x :: x in RecordsOf(s, id) <==> x in s && x.employeeId == id
  {
    if s != [] {
      var n := |s| - 1;
      RecordsOfMembers(s[..n], id);
      assert s == s[..n] + [s[n]];
    }
  }

  /** The employee ids of the records, in input order. */
  function Ids(s: seq<Punch>): (r: seq<string>)
    ensures |r| == |s| && forall i :: 0 <= i < |s| ==> r[i] == s[i].employeeId
  {
    seq(|s|, i requires 0 <= i < |s| => s[i].employeeId)
  }

  /** The first record of employee `id`, if any. */
  function FirstOf(s: seq<Punch>, id: string): (r: Option<Punch>)
    ensures r.Some? <==> exists i :: 0 <= i < |s| && s[i].employeeId == id
    ensures r.Some? ==> r.value in s && r.value.employeeId == id
  {
    if s == [] then None
    else if s[0].employeeId == id then Some(s[0])
    else FirstOf(s[1..], id)
  }

  lemma {:induction false} FirstOfSnoc(s: seq<Punch>, r: Punch, id: string)
    ensures FirstOf(s + [r], id) ==
      if FirstOf(s, id).Some? then FirstOf(s, id)
      else if r.employeeId == id then Some(r) else None
  {
    if s != [] {
      assert (s + [r])[1..] == s[1..] + [r];
      FirstOfSnoc(s[1..], r, id);
    }
  }
}
