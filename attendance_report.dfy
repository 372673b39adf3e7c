/** The monthly attendance report: reconciliation of IN/OUT punches into one
    record per employee and local day, work time, status labels, the month's
    statistics and the per-employee total of the export. */
module AttendanceReport {
  import opened Wrappers
  import opened Punches
  import opened JsString
  import Calendar
  import Seqs
  import ArraySort

  // ---------------------------------------------------------------------
  // Work time and status of one day

  const STANDARD_START_MINUTE: int := 9 * 60
  const HALF_DAY_MS: int := 4 * MS_PER_HOUR
  const FULL_DAY_MS: int := 8 * MS_PER_HOUR

  /** `calculateWorkHours`, in milliseconds: OUT minus IN, one day added to a
      negative difference, clamped to [0, 24h]; 0 when either time is missing. */
  function WorkMs(inTime: Option<int>, outTime: Option<int>): (w: int)
    ensures 0 <= w <= MS_PER_DAY
    ensures inTime.None? || outTime.None? ==> w == 0
  {
    if inTime.None? || outTime.None? then 0
    else
      var diff := outTime.value - inTime.value;
      var wrapped := if diff < 0 then diff + MS_PER_DAY else diff;
      if wrapped < 0 then 0 else if wrapped > MS_PER_DAY then MS_PER_DAY else wrapped
  }

  /** How `calculateWorkHours` treats each range of the OUT - IN difference. */
  lemma WorkMsCases(inTime: int, outTime: int)
    ensures var diff, w := outTime - inTime, WorkMs(Some(inTime), Some(outTime));
      && (0 <= diff <= MS_PER_DAY ==> w == diff)
      && (diff > MS_PER_DAY ==> w == MS_PER_DAY)
      && (-MS_PER_DAY <= diff < 0 ==> w == diff + MS_PER_DAY)
      && (diff < -MS_PER_DAY ==> w == 0)
  {
  }

  datatype Status = Status(status: string, display: string)

  /** Arrival after 9:00 (`getHours() + getMinutes() / 60 > 9`). */
  predicate IsLate(t: int) {
    MinuteOfDay(t) > STANDARD_START_MINUTE
  }

  /** `getAttendanceStatus(inTime, outTime, workHours)`, with the work time in
      milliseconds. */
  function GetAttendanceStatus(inTime: Option<int>, outTime: Option<int>, workMs: int): Status {
    if inTime.Some? && outTime.None? then Status("Absent", "Absent (No OUT)")
    else if inTime.None? && outTime.Some? then Status("Absent", "Absent (No IN)")
    else if inTime.None? && outTime.None? then Status("absent", "Absent")
    else
      var isLate := IsLate(inTime.value);
      if workMs < HALF_DAY_MS then Status("half-day", "Absent (<4h)")
      else if workMs < FULL_DAY_MS then Status("half-day", if isLate then "Late/Half Day" else "Half Day")
      else Status(if isLate then "late" else "present", if isLate then "Late" else "Present")
  }

  /** Which inputs lead to which status, stated from the result's side. */
  lemma AttendanceStatusCases(inTime: Option<int>, outTime: Option<int>, workMs: int)
    ensures var s := GetAttendanceStatus(inTime, outTime, workMs);
      && (s.status == "Absent" <==> inTime.Some? != outTime.Some?)
      && (s.display == "Absent (No OUT)" <==> inTime.Some? && outTime.None?)
      && (s.display == "Absent (No IN)" <==> inTime.None? && outTime.Some?)
      && (s.status == "absent" <==> inTime.None? && outTime.None?)
      && (s.status == "absent" ==> s.display == "Absent")
      && (s.status == "half-day" <==> inTime.Some? && outTime.Some? && workMs < FULL_DAY_MS)
      && (s.display == "Absent (<4h)" <==> inTime.Some? && outTime.Some? && workMs < HALF_DAY_MS)
      && (s.display == "Late/Half Day" <==>
            inTime.Some? && outTime.Some? && HALF_DAY_MS <= workMs < FULL_DAY_MS && IsLate(inTime.value))
      && (s.display == "Half Day" <==>
            inTime.Some? && outTime.Some? && HALF_DAY_MS <= workMs < FULL_DAY_MS && !IsLate(inTime.value))
      && (s.status == "late" <==> inTime.Some? && outTime.Some? && workMs >= FULL_DAY_MS && IsLate(inTime.value))
      && (s.status == "present" <==> inTime.Some? && outTime.Some? && workMs >= FULL_DAY_MS && !IsLate(inTime.value))
      && (s.status == "late" ==> s.display == "Late")
      && (s.status == "present" ==> s.display == "Present")
  {
  }

  /** An arrival at 9:00 sharp is on time; one minute later is late, and the
      fractional-hour comparison of the source agrees with the minute one. */
  lemma LateThreshold(t: int)
    ensures IsLate(t) <==> HourOfDay(t) > 9.0
    ensures MinuteOfDay(t) == 540 ==> !IsLate(t)
    ensures MinuteOfDay(t) == 541 ==> IsLate(t)
  {
    HourOfDayAbove(t, STANDARD_START_MINUTE);
  }

  // ---------------------------------------------------------------------
  // Pairing punches into days

  /** One employee's record for one local day: `in`, `out`, the punches
      that contributed, the work time and the status (null until computed). */
  datatype Day = Day(inTime: Option<int>, outTime: Option<int>, records: seq<Punch>, workMs: int, status: Option<Status>)

  /** The state of the pairing pass: the days so far, their keys in the
      order they were created (the iteration order of the source's object),
      and the pending IN. */
  datatype Pairing = Pairing(days: map<int, Day>, order: seq<int>, pending: Option<Punch>)

  /** Stores `d` under `k`, recording `k` in the key order when it is new. */
  function Put(days: map<int, Day>, order: seq<int>, k: int, d: Day): (r: (map<int, Day>, seq<int>))
    ensures r.0.Keys == days.Keys + {k} && r.0[k] == d
    ensures forall j :: j in days && j != k ==> r.0[j] == days[j]
    ensures forall j :: j in r.1 <==> j in order || (j == k && k !in days)
  {
    (days[k := d], if k in days then order else order + [k])
  }

  /** An IN punch `r` on its own day `k`: create the day or keep its earliest IN. */
  function AddIn(days: map<int, Day>, k: int, r: Punch): Day {
    if k !in days then Day(Some(r.time), None, [r], 0, None)
    else
      var d := days[k];
      d.(inTime := if d.inTime.None? || r.time < d.inTime.value then Some(r.time) else d.inTime,
         records := d.records + [r])
  }

  /** An OUT punch `r` closing the pending IN `p`, on `p`'s day `k`. */
  function AddMatchedOut(days: map<int, Day>, k: int, p: Punch, r: Punch): Day {
    if k !in days then Day(Some(p.time), Some(r.time), [p, r], 0, None)
    else days[k].(outTime := Some(r.time), records := days[k].records + [r])
  }

  /** An OUT punch `r` with no pending IN, on its own day `k`: create the day
      or keep its latest OUT. */
  function AddLoneOut(days: map<int, Day>, k: int, r: Punch): Day {
    if k !in days then Day(None, Some(r.time), [r], 0, None)
    else
      var d := days[k];
      d.(outTime := if d.outTime.None? || r.time > d.outTime.value then Some(r.time) else d.outTime,
         records := d.records + [r])
  }

  /** One iteration of the pairing loop over an employee's sorted punches. */
  function Step(st: Pairing, r: Punch): Pairing {
    if r.kind == "IN" then
      var k := DayOf(r.time);
      var (days, order) := Put(st.days, st.order, k, AddIn(st.days, k, r));
      Pairing(days, order, Some(r))
    else if r.kind == "OUT" then
      match st.pending
      case Some(p) =>
        var k := DayOf(p.time);
        var (days, order) := Put(st.days, st.order, k, AddMatchedOut(st.days, k, p, r));
        Pairing(days, order, None)
      case None =>
        var k := DayOf(r.time);
        var (days, order) := Put(st.days, st.order, k, AddLoneOut(st.days, k, r));
        Pairing(days, order, None)
    else st
  }

  /** The pairing loop run over `rs` from an empty map and no pending IN. */
  function Run(rs: seq<Punch>): Pairing {
    if rs == [] then Pairing(map[], [], None) else Step(Run(rs[..|rs| - 1]), rs[|rs| - 1])
  }

  /** Work time and status of a day, as the last loop of the pass sets them. */
  function Finalize(d: Day): Day {
    if d.inTime.Some? && d.outTime.Some? then
      var w := WorkMs(d.inTime, d.outTime);
      d.(workMs := w, status := Some(GetAttendanceStatus(d.inTime, d.outTime, w)))
    else if d.inTime.Some? || d.outTime.Some? then
      d.(status := Some(GetAttendanceStatus(d.inTime, d.outTime, 0)))
    else d
  }

  function FinalizeAll(days: map<int, Day>): (r: map<int, Day>)
    ensures r.Keys == days.Keys
  {
    map k | k in days :: Finalize(days[k])
  }

  /** The pairing loop (`sortedRecords.forEach`) with its `pendingIn` slot. */
  method PairShifts(sorted: seq<Punch>) returns (days: map<int, Day>, order: seq<int>)
    ensures Pairing(days, order, Run(sorted).pending) == Run(sorted)
  {
    days, order := map[], [];
    var pendingIn: Option<Punch> := None;
    for i := 0 to |sorted|
      invariant Pairing(days, order, pendingIn) == Run(sorted[..i])
    {
      var record := sorted[i];
      var dateKey := DayOf(record.time);
      if record.kind == "IN" {
        pendingIn := Some(record);
        if dateKey !in days {
          days, order := days[dateKey := Day(Some(record.time), None, [record], 0, None)], order + [dateKey];
        } else {
          var dayData := days[dateKey];
          if dayData.inTime.None? || record.time < dayData.inTime.value {
            dayData := dayData.(inTime := Some(record.time));
          }
          days := days[dateKey := dayData.(records := dayData.records + [record])];
        }
      } else if record.kind == "OUT" {
        if pendingIn.Some? {
          var inDateKey := DayOf(pendingIn.value.time);
          if inDateKey !in days {
            days := days[inDateKey := Day(Some(pendingIn.value.time), Some(record.time), [pendingIn.value, record], 0, None)];
            order := order + [inDateKey];
          } else {
            var dayData := days[inDateKey];
            days := days[inDateKey := dayData.(outTime := Some(record.time), records := dayData.records + [record])];
          }
          pendingIn := None;
        } else {
          if dateKey !in days {
            days, order := days[dateKey := Day(None, Some(record.time), [record], 0, None)], order + [dateKey];
          } else {
            var dayData := days[dateKey];
            if dayData.outTime.None? || record.time > dayData.outTime.value {
              dayData := dayData.(outTime := Some(record.time));
            }
            days := days[dateKey := dayData.(records := dayData.records + [record])];
          }
        }
      }
      assert sorted[..i + 1][..i] == sorted[..i];
    }
    assert sorted[..|sorted|] == sorted;
  }

  /** Finalizing a day a second time changes nothing. */
  lemma FinalizeIdempotent(d: Day)
    ensures Finalize(Finalize(d)) == Finalize(d)
  {
  }

  /** The `Object.values(employee.attendance).forEach` loop that fills in work
      time and status, visiting the days in their key order. */
  method FinalizeDays(days0: map<int, Day>, order: seq<int>) returns (days: map<int, Day>)
    requires forall k :: k in days0 <==> k in order
    ensures days == FinalizeAll(days0)
  {
    days := days0;
    for i := 0 to |order|
      invariant days.Keys == days0.Keys
      invariant forall j :: j in days0 ==> days[j] == if j in order[..i] then Finalize(days0[j]) else days0[j]
    {
      var k := order[i];
      var dayData := days[k];
      FinalizeIdempotent(days0[k]);
      if dayData.inTime.Some? && dayData.outTime.Some? {
        var w := WorkMs(dayData.inTime, dayData.outTime);
        dayData := dayData.(workMs := w, status := Some(GetAttendanceStatus(dayData.inTime, dayData.outTime, w)));
      } else if dayData.inTime.Some? || dayData.outTime.Some? {
        dayData := dayData.(status := Some(GetAttendanceStatus(dayData.inTime, dayData.outTime, 0)));
      }
      days := days[k := dayData];
      assert forall j :: j in order[..i + 1] <==> j in order[..i] || j == k;
    }
    assert order[..|order|] == order;
    assert forall k :: k in days ==> days[k] == FinalizeAll(days0)[k];
  }

  /** Sorts one employee's punches and reconciles them into days. */
  method ProcessEmployee(group: seq<Punch>) returns (sorted: seq<Punch>, attendance: map<int, Day>)
    ensures SortedByTime(sorted)
    ensures multiset(sorted) == multiset(group)
    ensures ArraySort.Stable(group, sorted, CompareTime)
    ensures attendance == FinalizeAll(Run(sorted).days)
  {
    var a := new Punch[|group|](i requires 0 <= i < |group| => group[i]);
    assert a[..] == group;
    SortByTime(a);
    sorted := a[..];
    var days, order := PairShifts(sorted);
    RunWellFormed(sorted);
    attendance := FinalizeDays(days, order);
  }

  // ---------------------------------------------------------------------
  // What the pairing pass computes

  predicate IsPunch(r: Punch) {
    r.kind == "IN" || r.kind == "OUT"
  }

  /** What every state the pairing loop reaches satisfies: each day has an IN
      or an OUT and at least one record, nothing is finalized yet, the pending
      IN's own day exists, and the key order lists exactly the days. */
  ghost predicate WellFormed(st: Pairing) {
    && (forall k :: k in st.days ==>
          && (st.days[k].inTime.Some? || st.days[k].outTime.Some?)
          && st.days[k].records != []
          && st.days[k].workMs == 0
          && st.days[k].status.None?)
    && (st.pending.Some? ==> DayOf(st.pending.value.time) in st.days)
    && (forall k :: k in st.days <==> k in st.order)
  }

  lemma StepWellFormed(st: Pairing, r: Punch)
    requires WellFormed(st)
    ensures WellFormed(Step(st, r))
  {
  }

  lemma {:induction false} RunWellFormed(rs: seq<Punch>)
    ensures WellFormed(Run(rs))
  {
    if rs != [] {
      RunWellFormed(rs[..|rs| - 1]);
      StepWellFormed(Run(rs[..|rs| - 1]), rs[|rs| - 1]);
    }
  }

  /** Record `j` is the latest IN/OUT punch of `rs`, and it is an IN. */
  ghost predicate OpenIn(rs: seq<Punch>, j: int) {
    0 <= j < |rs| && rs[j].kind == "IN" && forall l :: j < l < |rs| ==> !IsPunch(rs[l])
  }

  /** The pending slot holds the latest IN/OUT punch exactly when that punch
      is an IN: a later IN replaces an unclosed one, an OUT clears it, and
      records of any other type leave it alone. */
  lemma {:induction false} RunPending(rs: seq<Punch>)
    ensures Run(rs).pending.Some? <==> exists j :: OpenIn(rs, j)
    ensures forall j :: OpenIn(rs, j) ==> Run(rs).pending == Some(rs[j])
  {
    if rs != [] {
      var n := |rs| - 1;
      var init, r := rs[..n], rs[n];
      RunPending(init);
      if r.kind == "IN" {
        assert OpenIn(rs, n);
        forall j | OpenIn(rs, j) ensures j == n {
          assert j < n ==> !IsPunch(rs[n]);
        }
      } else if r.kind == "OUT" {
        forall j | 0 <= j < |rs| ensures !OpenIn(rs, j) {
          assert j < n && OpenIn(rs, j) ==> !IsPunch(rs[n]);
        }
      } else {
        forall j ensures OpenIn(rs, j) <==> OpenIn(init, j) {
          if 0 <= j < n {
            assert forall l :: j < l < |rs| ==> (l == n || rs[l] == init[l]);
          }
        }
      }
    }
  }

  /** The day key that record `i` of `rs` updates: the pending IN's day for a
      matched OUT, the record's own day otherwise. */
  ghost function Target(rs: seq<Punch>, i: int): int
    requires 0 <= i < |rs|
  {
    var p := Run(rs[..i]).pending;
    if rs[i].kind == "OUT" && p.Some? then DayOf(p.value.time) else DayOf(rs[i].time)
  }

  /** An OUT lands on the day of the latest earlier punch when that punch is
      an IN, even if the OUT is on a later date, and on its own day otherwise. */
  lemma TargetOfOut(rs: seq<Punch>, i: int)
    requires 0 <= i < |rs| && rs[i].kind == "OUT"
    ensures forall j :: OpenIn(rs[..i], j) ==> Target(rs, i) == DayOf(rs[j].time)
    ensures (forall j :: !OpenIn(rs[..i], j)) ==> Target(rs, i) == DayOf(rs[i].time)
  {
    RunPending(rs[..i]);
  }

  lemma TargetSnoc(init: seq<Punch>, r: Punch, i: int)
    requires 0 <= i < |init|
    ensures Target(init + [r], i) == Target(init, i)
  {
    assert (init + [r])[..i] == init[..i];
  }

  /** The IN/OUT records that reach day `k`, in the order they are appended. */
  ghost function RecordsFor(rs: seq<Punch>, k: int): (r: seq<Punch>)
    ensures forall x :: x in r ==> x in rs && IsPunch(x)
  {
    if rs == [] then []
    else
      var n := |rs| - 1;
      assert forall x :: x in rs[..n] ==> x in rs;
      RecordsFor(rs[..n], k) + if IsPunch(rs[n]) && Target(rs, n) == k then [rs[n]] else []
  }

  /** A day exists exactly when some IN/OUT record reaches it, and its record
      list is those records in order: an IN or an unmatched OUT on its own
      day, a matched OUT on its IN's day, nothing else. */
  lemma {:induction false} RunRecords(rs: seq<Punch>, k: int)
    ensures k in Run(rs).days <==> RecordsFor(rs, k) != []
    ensures k in Run(rs).days ==> Run(rs).days[k].records == RecordsFor(rs, k)
  {
    if rs != [] {
      var n := |rs| - 1;
      RunRecords(rs[..n], k);
      RunWellFormed(rs[..n]);
    }
  }

  ghost predicate InOn(rs: seq<Punch>, i: int, k: int) {
    0 <= i < |rs| && rs[i].kind == "IN" && DayOf(rs[i].time) == k
  }

  /** A day's `in` is the earliest IN punch dated that day; there is none
      when no IN falls on it. */
  lemma {:induction false} RunIn(rs: seq<Punch>, k: int)
    ensures (k in Run(rs).days && Run(rs).days[k].inTime.Some?) <==> exists i :: InOn(rs, i, k)
    ensures k in Run(rs).days && Run(rs).days[k].inTime.Some? ==>
      var t := Run(rs).days[k].inTime.value;
      && (exists i :: InOn(rs, i, k) && rs[i].time == t)
      && (forall i :: InOn(rs, i, k) ==> t <= rs[i].time)
  {
    if rs != [] {
      var n := |rs| - 1;
      var init, r := rs[..n], rs[n];
      RunIn(init, k);
      RunWellFormed(init);
      assert forall i :: InOn(rs, i, k) <==> InOn(init, i, k) || (i == n && InOn(rs, n, k));
      if InOn(rs, n, k) {
        assert Run(rs).days[k].inTime.Some?;
      } else if exists i :: InOn(init, i, k) {
        assert k in Run(init).days;
        assert k in Run(rs).days && Run(rs).days[k].inTime == Run(init).days[k].inTime;
      }
    }
  }

  ghost predicate OutTo(rs: seq<Punch>, i: int, k: int) {
    0 <= i < |rs| && rs[i].kind == "OUT" && Target(rs, i) == k
  }

  /** In time order, a day's `out` is the latest OUT that reaches it, matched
      or not; there is none when no OUT reaches it. */
  lemma {:induction false} RunOut(rs: seq<Punch>, k: int)
    requires SortedByTime(rs)
    ensures (k in Run(rs).days && Run(rs).days[k].outTime.Some?) <==> exists i :: OutTo(rs, i, k)
    ensures k in Run(rs).days && Run(rs).days[k].outTime.Some? ==>
      var t := Run(rs).days[k].outTime.value;
      && (exists i :: OutTo(rs, i, k) && rs[i].time == t)
      && (forall i :: OutTo(rs, i, k) ==> rs[i].time <= t)
  {
    if rs != [] {
      var n := |rs| - 1;
      var init, r := rs[..n], rs[n];
      assert SortedByTime(init);
      RunOut(init, k);
      RunWellFormed(init);
      assert rs == init + [r];
      forall i | 0 <= i < n ensures OutTo(rs, i, k) <==> OutTo(init, i, k) {
        TargetSnoc(init, r, i);
      }
      assert forall i :: OutTo(rs, i, k) <==> OutTo(init, i, k) || (i == n && OutTo(rs, n, k));
      if OutTo(rs, n, k) {
        assert Run(rs).days[k].outTime.Some?;
      } else if exists i :: OutTo(init, i, k) {
        assert k in Run(init).days;
        assert k in Run(rs).days && Run(rs).days[k].outTime == Run(init).days[k].outTime;
      }
    }
  }

  /** After the last loop every day has a status, none of them the lowercase
      "absent" (every day has an IN or an OUT); the work time lies in
      [0, 24h]; a single-punch day keeps 0 hours and a capital "Absent". */
  lemma FinalizedDay(rs: seq<Punch>, k: int)
    requires k in Run(rs).days
    ensures var d, d0 := FinalizeAll(Run(rs).days)[k], Run(rs).days[k];
      && d.inTime == d0.inTime && d.outTime == d0.outTime && d.records == d0.records
      && d.status.Some? && d.status.value.status != "absent"
      && 0 <= d.workMs <= MS_PER_DAY
      && (d.inTime.Some? && d.outTime.Some? ==>
            d.workMs == WorkMs(d.inTime, d.outTime) && d.status.value == GetAttendanceStatus(d.inTime, d.outTime, d.workMs))
      && (d.inTime.None? || d.outTime.None? ==> d.workMs == 0 && d.status.value.status == "Absent")
  {
    RunWellFormed(rs);
  }

  /** A shift is filed under its IN's date: IN at 22:00, OUT at 06:00 the next
      day gives one day keyed by the first date with 8 hours, late. */
  lemma OvernightShift()
    ensures var i := Punch("E1", None, None, None, 22 * MS_PER_HOUR, "IN", None);
      var o := Punch("E1", None, None, None, MS_PER_DAY + 6 * MS_PER_HOUR, "OUT", None);
      var days := FinalizeAll(Run([i, o]).days);
      && days.Keys == {0}
      && days[0].workMs == FULL_DAY_MS
      && days[0].status == Some(Status("late", "Late"))
  {
    var i := Punch("E1", None, None, None, 22 * MS_PER_HOUR, "IN", None);
    var o := Punch("E1", None, None, None, MS_PER_DAY + 6 * MS_PER_HOUR, "OUT", None);
    assert [i, o][..1] == [i];
    assert [i][..0] == [];
    assert DayOf(i.time) == 0;
    var empty: map<int, Day> := map[];
    var d1 := Day(Some(i.time), None, [i], 0, None);
    assert Put(empty, [], 0, d1).0 == map[0 := d1];
    assert Run([i]).days == map[0 := d1] && Run([i]).pending == Some(i);
    var d2 := Day(Some(i.time), Some(o.time), [i, o], 0, None);
    assert [i] + [o] == [i, o];
    assert AddMatchedOut(map[0 := d1], 0, i, o) == d2;
    assert map[0 := d1][0 := d2] == map[0 := d2];
    assert Run([i, o]).days == map[0 := d2];
    assert WorkMs(Some(i.time), Some(o.time)) == FULL_DAY_MS;
    assert MinuteOfDay(i.time) == 1320;
  }

  /** An OUT at 08:00 followed by an IN at 09:00 on the same day, with nothing
      pending, leaves in = 09:00 and out = 08:00 on one day; the wrap makes it
      23 hours, classed "present" since 9:00 is not late. */
  lemma OutThenInSameDay()
    ensures var o := Punch("E1", None, None, None, 8 * MS_PER_HOUR, "OUT", None);
      var i := Punch("E1", None, None, None, 9 * MS_PER_HOUR, "IN", None);
      var days := FinalizeAll(Run([o, i]).days);
      && days.Keys == {0}
      && days[0].workMs == 23 * MS_PER_HOUR
      && days[0].status == Some(Status("present", "Present"))
  {
    var o := Punch("E1", None, None, None, 8 * MS_PER_HOUR, "OUT", None);
    var i := Punch("E1", None, None, None, 9 * MS_PER_HOUR, "IN", None);
    assert [o, i][..1] == [o];
    assert [o][..0] == [];
    assert DayOf(o.time) == 0 && DayOf(i.time) == 0;
    var empty: map<int, Day> := map[];
    var d1 := Day(None, Some(o.time), [o], 0, None);
    assert Put(empty, [], 0, d1).0 == map[0 := d1];
    assert Run([o]).days == map[0 := d1] && Run([o]).pending == None;
    var d2 := Day(Some(i.time), Some(o.time), [o, i], 0, None);
    assert [o] + [i] == [o, i];
    assert AddIn(map[0 := d1], 0, i) == d2;
    assert map[0 := d1][0 := d2] == map[0 := d2];
    assert Run([o, i]).days == map[0 := d2];
    assert WorkMs(Some(i.time), Some(o.time)) == 23 * MS_PER_HOUR;
    assert MinuteOfDay(i.time) == 540;
  }

  // ---------------------------------------------------------------------
  // Grouping by employee and the whole pass

  /** One element of `processedData`: the header fields of the employee's
      first record, the reconciled days and the employee's records. */
  datatype Employee = Employee(
    employeeId: string,
    employeeName: Option<string>,
    department: Option<string>,
    designation: Option<string>,
    attendance: map<int, Day>,
    allRecords: seq<Punch>)

  /** The group the first pass builds for `id` out of `data`. */
  ghost predicate Grouped(data: seq<Punch>, id: string, e: Employee) {
    && FirstOf(data, id).Some?
    && var f := FirstOf(data, id).value;
    && e == Employee(id, f.employeeName, f.department, f.designation, map[], RecordsOf(data, id))
  }

  lemma IdsSnoc(s: seq<Punch>, r: Punch)
    ensures Ids(s + [r]) == Ids(s) + [r.employeeId]
  {
  }

  /** Appending a record of another employee leaves a group as it is;
      appending one of the same employee appends it to the group. */
  lemma GroupedSnoc(s: seq<Punch>, r: Punch, id: string, e: Employee)
    requires Grouped(s, id, e)
    ensures Grouped(s + [r], id, if r.employeeId == id then e.(allRecords := e.allRecords + [r]) else e)
  {
    FirstOfSnoc(s, r, id);
    assert (s + [r])[..|s|] == s;
  }

  lemma {:induction false} RecordsOfAbsent(s: seq<Punch>, id: string)
    requires FirstOf(s, id).None?
    ensures RecordsOf(s, id) == []
  {
    if s != [] {
      var n := |s| - 1;
      assert forall i :: 0 <= i < n ==> s[..n][i] == s[i];
      RecordsOfAbsent(s[..n], id);
    }
  }

  /** The first record of an employee starts the employee's group. */
  lemma GroupedNew(s: seq<Punch>, r: Punch)
    requires FirstOf(s, r.employeeId).None?
    ensures Grouped(s + [r], r.employeeId, Employee(r.employeeId, r.employeeName, r.department, r.designation, map[], [r]))
  {
    FirstOfSnoc(s, r, r.employeeId);
    assert (s + [r])[..|s|] == s;
    RecordsOfAbsent(s, r.employeeId);
  }

  /** An id is among the distinct ids exactly when some record carries it. */
  lemma InDistinctIds(s: seq<Punch>, id: string)
    ensures id in Seqs.Dedup(Ids(s)) <==> FirstOf(s, id).Some?
  {
    assert id in Ids(s) <==> exists i :: 0 <= i < |s| && s[i].employeeId == id;
  }

  lemma DistinctIdsSnoc(s: seq<Punch>, r: Punch)
    ensures Seqs.Dedup(Ids(s + [r])) ==
      if r.employeeId in Seqs.Dedup(Ids(s)) then Seqs.Dedup(Ids(s)) else Seqs.Dedup(Ids(s)) + [r.employeeId]
  {
    IdsSnoc(s, r);
    Seqs.DedupSnoc(Ids(s), r.employeeId);
  }

  /** One step of the first pass: the record is appended to its employee's
      group, which is created from the record's details when absent. */
  function AddRecord(groups: map<string, Employee>, r: Punch): map<string, Employee> {
    if r.employeeId in groups then
      groups[r.employeeId := groups[r.employeeId].(allRecords := groups[r.employeeId].allRecords + [r])]
    else
      groups[r.employeeId := Employee(r.employeeId, r.employeeName, r.department, r.designation, map[], [r])]
  }

  /** `employeeMap` after the first pass over `s`. */
  function Groups(s: seq<Punch>): map<string, Employee> {
    if s == [] then map[] else AddRecord(Groups(s[..|s| - 1]), s[|s| - 1])
  }

  /** The first pass makes a group exactly for the ids that occur, and the
      group of `id` carries its first record's details and all its records
      in input order. */
  lemma {:induction false} GroupsMeaning(s: seq<Punch>, id: string)
    ensures id in Groups(s) <==> FirstOf(s, id).Some?
    ensures id in Groups(s) ==> Grouped(s, id, Groups(s)[id])
  {
    if s != [] {
      var n := |s| - 1;
      var init, r := s[..n], s[n];
      assert s == init + [r];
      GroupsMeaning(init, id);
      FirstOfSnoc(init, r, id);
      if id in Groups(init) {
        GroupedSnoc(init, r, id, Groups(init)[id]);
      } else if r.employeeId == id {
        GroupedNew(init, r);
      }
    }
  }

  /** The first pass (`data.forEach` into `employeeMap`): one group per
      employee id, in order of first appearance, each with the header of
      the employee's first record and all the employee's records in input order. */
  method GroupByEmployee(data: seq<Punch>) returns (order: seq<string>, groups: map<string, Employee>)
    ensures order == Seqs.Dedup(Ids(data))
    ensures Seqs.FirstAppearanceOrder(order, Ids(data))
    ensures groups == Groups(data)
    ensures forall id :: id in groups <==> id in order
    ensures forall id :: id in groups ==> Grouped(data, id, groups[id])
  {
    order, groups := [], map[];
    for i := 0 to |data|
      invariant order == Seqs.Dedup(Ids(data[..i]))
      invariant groups == Groups(data[..i])
    {
      var record := data[i];
      var empId := record.employeeId;
      GroupStep(data, i);
      if empId !in groups {
        groups := groups[empId := Employee(empId, record.employeeName, record.department, record.designation, map[], [record])];
        order := order + [empId];
      } else {
        var employee := groups[empId];
        groups := groups[empId := employee.(allRecords := employee.allRecords + [record])];
      }
    }
    assert data[..|data|] == data;
    Seqs.DedupOrder(Ids(data));
    forall id
      ensures id in groups <==> id in order
      ensures id in groups ==> Grouped(data, id, groups[id])
    {
      GroupsMeaning(data, id);
      InDistinctIds(data, id);
    }
  }

  /** One record of the first pass: its group is added to or created, and
      its id is appended to the order exactly when it has no group yet. */
  lemma GroupStep(data: seq<Punch>, i: int)
    requires 0 <= i < |data|
    ensures Groups(data[..i + 1]) == AddRecord(Groups(data[..i]), data[i])
    ensures Seqs.Dedup(Ids(data[..i + 1])) ==
      if data[i].employeeId in Groups(data[..i]) then Seqs.Dedup(Ids(data[..i]))
      else Seqs.Dedup(Ids(data[..i])) + [data[i].employeeId]
  {
    assert data[..i + 1] == data[..i] + [data[i]];
    assert data[..i + 1][..i] == data[..i];
    DistinctIdsSnoc(data[..i], data[i]);
    InDistinctIds(data[..i], data[i].employeeId);
    GroupsMeaning(data[..i], data[i].employeeId);
  }

  /** An element of `processedData` for employee `id`: header from the first
      record, the employee's records sorted by time (same-time records in
      input order), and the days reconciled from them. */
  ghost predicate Processed(data: seq<Punch>, id: string, e: Employee) {
    && FirstOf(data, id).Some?
    && var f := FirstOf(data, id).value;
    && e.employeeId == id
    && e.employeeName == f.employeeName && e.department == f.department && e.designation == f.designation
    && SortedByTime(e.allRecords)
    && multiset(e.allRecords) == multiset(RecordsOf(data, id))
    && ArraySort.Stable(RecordsOf(data, id), e.allRecords, CompareTime)
    && e.attendance == FinalizeAll(Run(e.allRecords).days)
  }

  /** The second pass for one employee (`employeeMap.forEach`): sort the
      group's records, pair them and finalize the days. */
  method ProcessGroup(ghost data: seq<Punch>, ghost id: string, group: Employee) returns (e: Employee)
    requires Grouped(data, id, group)
    ensures Processed(data, id, e)
  {
    var sorted, attendance := ProcessEmployee(group.allRecords);
    e := group.(allRecords := sorted, attendance := attendance);
  }

  lemma ProcessedSnoc(data: seq<Punch>, order: seq<string>, emps: seq<Employee>, e: Employee)
    requires |emps| < |order|
    requires forall j :: 0 <= j < |emps| ==> Processed(data, order[j], emps[j])
    requires Processed(data, order[|emps|], e)
    ensures forall j :: 0 <= j < |emps + [e]| ==> Processed(data, order[j], (emps + [e])[j])
  {
    forall j | 0 <= j < |emps + [e]|
      ensures Processed(data, order[j], (emps + [e])[j])
    {
      if j < |emps| {
        assert (emps + [e])[j] == emps[j];
      } else {
        assert (emps + [e])[j] == e;
      }
    }
  }

  /** `processedData`: one employee per distinct id, in order of first
      appearance, each processed as above. */
  method ProcessData(data: seq<Punch>) returns (emps: seq<Employee>)
    ensures |emps| == |Seqs.Dedup(Ids(data))|
    ensures forall i :: 0 <= i < |emps| ==> Processed(data, Seqs.Dedup(Ids(data))[i], emps[i])
  {
    var order, groups := GroupByEmployee(data);
    emps := [];
    for i := 0 to |order|
      invariant |emps| == i
      invariant forall j :: 0 <= j < i ==> Processed(data, order[j], emps[j])
    {
      var e := ProcessGroup(data, order[i], groups[order[i]]);
      ProcessedSnoc(data, order, emps, e);
      emps := emps + [e];
    }
  }

  // ---------------------------------------------------------------------
  // Search box

  function OrEmpty(s: Option<string>): string {
    s.GetOr("")
  }

  /** The employee's id, name, department or designation, lowercased,
      contains `q`. */
  predicate MatchesQuery(e: Employee, q: string) {
    || Contains(Lower(e.employeeId), q)
    || Contains(Lower(OrEmpty(e.employeeName)), q)
    || Contains(Lower(OrEmpty(e.department)), q)
    || Contains(Lower(OrEmpty(e.designation)), q)
  }

  /** `filteredEmployees`: everyone for a blank query; otherwise, in order,
      the employees matching the lowercased query, which is not trimmed. */
  function FilterEmployees(emps: seq<Employee>, searchQuery: string): (r: seq<Employee>)
    ensures Seqs.IsSubsequence(r, emps)
    ensures AllSpace(searchQuery) ==> r == emps
    ensures !AllSpace(searchQuery) ==> forall e :: e in r <==> e in emps && MatchesQuery(e, Lower(searchQuery))
  {
    if Trim(searchQuery) == [] then
      Seqs.FilterAll(emps, _ => true);
      Seqs.FilterIsSubsequence(emps, _ => true);
      emps
    else
      var q := Lower(searchQuery);
      Seqs.FilterIsSubsequence(emps, e => MatchesQuery(e, q));
      Seqs.Filter(emps, e => MatchesQuery(e, q))
  }

  // ---------------------------------------------------------------------
  // Month statistics

  /** The days `totalPresentDays` counts for one employee: those with a
      status other than lowercase "absent". */
  function PresentDays(days: map<int, Day>): nat {
    |set k | k in days && days[k].status.Some? && days[k].status.value.status != "absent"|
  }

  function TotalPresentDays(emps: seq<Employee>): nat {
    if emps == [] then 0 else TotalPresentDays(emps[..|emps| - 1]) + PresentDays(emps[|emps| - 1].attendance)
  }

  /** The number of day entries of all employees. */
  function TotalDays(emps: seq<Employee>): nat {
    if emps == [] then 0 else TotalDays(emps[..|emps| - 1]) + |emps[|emps| - 1].attendance|
  }

  /** A day counts as present at most once. */
  lemma PresentDaysAtMost(days: map<int, Day>)
    ensures PresentDays(days) <= |days|
  {
    var present := set k | k in days && days[k].status.Some? && days[k].status.value.status != "absent";
    Seqs.SubsetCard(present, days.Keys);
  }

  /** The present days of all employees are at most their day entries. */
  lemma {:induction false} TotalPresentDaysAtMost(emps: seq<Employee>)
    ensures TotalPresentDays(emps) <= TotalDays(emps)
  {
    if emps != [] {
      TotalPresentDaysAtMost(emps[..|emps| - 1]);
      PresentDaysAtMost(emps[|emps| - 1].attendance);
    }
  }

  datatype MonthStats = MonthStats(uniqueEmployees: nat, totalRecords: nat, totalPresentDays: nat, avgAttendance: real)

  /** `stats` for the month `month0` (0-based) of `year`; the average is the
      exact percentage, before the one-decimal rounding. */
  function Stats(data: seq<Punch>, emps: seq<Employee>, year: int, month0: int): (st: MonthStats)
    requires 0 <= month0 <= 11
    ensures st.uniqueEmployees == |emps| && st.totalRecords == |data|
    ensures st.totalPresentDays == TotalPresentDays(emps) <= TotalDays(emps)
    ensures st.uniqueEmployees == 0 ==> st.avgAttendance == 0.0
    ensures st.uniqueEmployees > 0 ==>
      st.avgAttendance * (st.uniqueEmployees * |Calendar.GetDaysInMonth(year, month0)|) as real
        == st.totalPresentDays as real * 100.0
  {
    TotalPresentDaysAtMost(emps);
    var unique := |emps|;
    var present := TotalPresentDays(emps);
    var n := |Calendar.GetDaysInMonth(year, month0)|;
    MonthStats(unique, |data|, present,
      if unique > 0 then present as real / (unique * n) as real * 100.0 else 0.0)
  }

  /** `uniqueEmployees` is the number of distinct employee ids in the data. */
  lemma UniqueEmployees(data: seq<Punch>, emps: seq<Employee>, year: int, month0: int)
    requires 0 <= month0 <= 11
    requires |emps| == |Seqs.Dedup(Ids(data))|
    ensures Stats(data, emps, year, month0).uniqueEmployees == |set r | r in data :: r.employeeId|
  {
    Seqs.DedupCard(Ids(data));
    assert (set x | x in Ids(data)) == (set r | r in data :: r.employeeId) by {
      forall x | x in Ids(data) ensures x in (set r | r in data :: r.employeeId) {
        var i :| 0 <= i < |data| && Ids(data)[i] == x;
        assert data[i] in data;
      }
      forall r | r in data ensures r.employeeId in Ids(data) {
        var i :| 0 <= i < |data| && data[i] == r;
        assert Ids(data)[i] == r.employeeId;
      }
    }
  }

  /** Every reconciled day counts as present, single-punch "Absent" days
      included, since no day ends up with the lowercase "absent" status. */
  lemma PresentDaysAll(rs: seq<Punch>)
    ensures PresentDays(FinalizeAll(Run(rs).days)) == |Run(rs).days|
  {
    var days := FinalizeAll(Run(rs).days);
    forall k | k in days ensures days[k].status.Some? && days[k].status.value.status != "absent" {
      FinalizedDay(rs, k);
    }
    assert (set k | k in days && days[k].status.Some? && days[k].status.value.status != "absent") == days.Keys;
    assert |days.Keys| == |Run(rs).days.Keys|;
  }

  /** Over `processedData`, `totalPresentDays` is the number of day entries. */
  lemma {:induction false} TotalPresentDaysIsTotalDays(data: seq<Punch>, ids: seq<string>, emps: seq<Employee>)
    requires |emps| <= |ids|
    requires forall i :: 0 <= i < |emps| ==> Processed(data, ids[i], emps[i])
    ensures TotalPresentDays(emps) == TotalDays(emps)
  {
    if emps != [] {
      var n := |emps| - 1;
      TotalPresentDaysIsTotalDays(data, ids, emps[..n]);
      PresentDaysAll(emps[n].allRecords);
      assert |FinalizeAll(Run(emps[n].allRecords).days)| == |Run(emps[n].allRecords).days| by {
        assert FinalizeAll(Run(emps[n].allRecords).days).Keys == Run(emps[n].allRecords).days.Keys;
      }
    }
  }

  /** On the rows `processedData` builds, the month's `totalPresentDays` is
      the number of day entries, so the average is the share of entries
      among employees times days. */
  lemma StatsOverProcessedData(data: seq<Punch>, emps: seq<Employee>, year: int, month0: int)
    requires 0 <= month0 <= 11
    requires |emps| == |Seqs.Dedup(Ids(data))|
    requires forall i :: 0 <= i < |emps| ==> Processed(data, Seqs.Dedup(Ids(data))[i], emps[i])
    ensures Stats(data, emps, year, month0).totalPresentDays == TotalDays(emps)
  {
    TotalPresentDaysIsTotalDays(data, Seqs.Dedup(Ids(data)), emps);
  }

  // ---------------------------------------------------------------------
  // Total hours of the export

  /** What one day of the month adds to the total: its work time when the
      entry stored under that date has both an IN and an OUT, else nothing. */
  function DayWorkMs(attendance: map<int, Day>, md: Calendar.MonthDay): int
    requires Calendar.Valid(md.date)
  {
    var k := Calendar.DayNumber(md.date);
    if k in attendance && attendance[k].inTime.Some? && attendance[k].outTime.Some? then attendance[k].workMs else 0
  }

  function SumWorked(attendance: map<int, Day>, days: seq<Calendar.MonthDay>): int
    requires forall i :: 0 <= i < |days| ==> Calendar.Valid(days[i].date)
  {
    if days == [] then 0 else SumWorked(attendance, days[..|days| - 1]) + DayWorkMs(attendance, days[|days| - 1])
  }

  /** The `totalMonthHours` loop over a list of calendar days: the work time
      of every day that has both punches, summed. */
  method SumDays(attendance: map<int, Day>, days: seq<Calendar.MonthDay>) returns (total: int)
    requires forall i :: 0 <= i < |days| ==> Calendar.Valid(days[i].date)
    ensures total == SumWorked(attendance, days)
  {
    total := 0;
    for i := 0 to |days|
      invariant total == SumWorked(attendance, days[..i])
    {
      var day := days[i];
      assert days[..i + 1] == days[..i] + [day];
      var k := Calendar.DayNumber(day.date);
      if k in attendance {
        var dayData := attendance[k];
        if dayData.inTime.Some? && dayData.outTime.Some? {
          total := total + dayData.workMs;
        }
      }
    }
    assert days[..|days|] == days;
  }

  /** The `totalMonthHours` accumulation over the days of the month
      `month0` (0-based) of `year`. */
  method TotalMonthMs(attendance: map<int, Day>, year: int, month0: int) returns (total: int)
    requires 0 <= month0 <= 11
    ensures total == SumWorked(attendance, Calendar.GetDaysInMonth(year, month0))
  {
    total := SumDays(attendance, Calendar.GetDaysInMonth(year, month0));
  }

  /** For reconciled days the total lies between 0 and 24 hours per day of
      the list, and single-punch days add nothing to it. */
  lemma {:induction false} SumWorkedBounds(rs: seq<Punch>, days: seq<Calendar.MonthDay>)
    requires forall i :: 0 <= i < |days| ==> Calendar.Valid(days[i].date)
    ensures 0 <= SumWorked(FinalizeAll(Run(rs).days), days) <= |days| * MS_PER_DAY
  {
    if days != [] {
      var n := |days| - 1;
      SumWorkedBounds(rs, days[..n]);
      var k := Calendar.DayNumber(days[n].date);
      if k in Run(rs).days {
        FinalizedDay(rs, k);
      }
    }
  }

  /** A month in which no day has both an IN and an OUT totals zero. */
  lemma {:induction false} SumWorkedNoCompleteDay(attendance: map<int, Day>, days: seq<Calendar.MonthDay>)
    requires forall i :: 0 <= i < |days| ==> Calendar.Valid(days[i].date)
    requires forall k :: k in attendance ==> attendance[k].inTime.None? || attendance[k].outTime.None?
    ensures SumWorked(attendance, days) == 0
  {
    if days != [] {
      SumWorkedNoCompleteDay(attendance, days[..|days| - 1]);
    }
  }
}
