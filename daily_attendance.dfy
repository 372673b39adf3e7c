/** The daily attendance view: one row per employee for the selected day,
    built from that day's punches, with search, department and status
    filters, a sortable table and the day's counters. The current time and
    whether the selected day is today are parameters. */
module DailyAttendance {
  import opened Wrappers
  import opened Punches
  import opened JsString
  import Calendar
  import Seqs
  import ArraySort

  // ---------------------------------------------------------------------
  // Per-employee rows

  /** A row of `processed`: the employee's first record spread into the row
      (`first`, whose `attendence_type` is never refreshed), then the fields
      the loop maintains. `deviceId` is the one spread field the loop
      overwrites. */
  datatype DailyEntry = DailyEntry(
    first: Punch,
    firstIn: Option<int>,
    lastOut: Option<int>,
    lastPunch: Option<int>,
    status: string,
    totalMs: int,
    pendingInTime: Option<int>,
    deviceId: Option<string>)

  function NewEntry(r: Punch): DailyEntry {
    DailyEntry(r, None, None, None, "absent", 0, None, r.deviceId)
  }

  /** What one record does to its employee's row. */
  function Touch(e: DailyEntry, r: Punch): DailyEntry {
    var e1 := e.(lastPunch := Some(r.time));
    var e2 :=
      if r.kind == "IN" then
        e1.(firstIn := if e1.firstIn.None? then Some(r.time) else e1.firstIn,
            status := "present", pendingInTime := Some(r.time))
      else if r.kind == "OUT" then
        e1.(lastOut := Some(r.time), status := "out", pendingInTime := None)
      else e1;
    e2.(deviceId := r.deviceId)
  }

  /** The rows so far and the employee ids in order of first appearance. */
  datatype DailyState = DailyState(entries: map<string, DailyEntry>, order: seq<string>)

  function DailyStep(st: DailyState, r: Punch): DailyState {
    var id := r.employeeId;
    var e := if id in st.entries then st.entries[id] else NewEntry(r);
    DailyState(st.entries[id := Touch(e, r)], if id in st.entries then st.order else st.order + [id])
  }

  /** The `sorted.forEach` loop run over `rs`. */
  function DailyRun(rs: seq<Punch>): DailyState {
    if rs == [] then DailyState(map[], []) else DailyStep(DailyRun(rs[..|rs| - 1]), rs[|rs| - 1])
  }

  /** The gross duration of a row: from the first IN to the last punch, or to
      `now` while the employee is in and the day is today; 0 without an IN. */
  function WithTotal(e: DailyEntry, isToday: bool, now: int): DailyEntry {
    if e.firstIn.Some? then
      var endTime := if e.status == "present" && isToday then now else e.lastPunch.GetOr(0);
      var duration := endTime - e.firstIn.value;
      e.(totalMs := if duration > 0 then duration else 0)
    else e.(totalMs := 0)
  }

  /** `workHours`, the duration in hours. */
  function WorkHours(e: DailyEntry): real {
    e.totalMs as real / MS_PER_HOUR as real
  }

  /** The rows in order of first appearance, each with its duration. */
  function Finish(st: DailyState, isToday: bool, now: int): (r: seq<DailyEntry>)
    requires forall id :: id in st.order ==> id in st.entries
    ensures |r| == |st.order|
    ensures forall i :: 0 <= i < |r| ==> r[i] == WithTotal(st.entries[st.order[i]], isToday, now)
  {
    seq(|st.order|, i requires 0 <= i < |st.order| => WithTotal(st.entries[st.order[i]], isToday, now))
  }

  /** The body of the `sorted.forEach` loop on the employee's row. */
  method TouchRow(e: DailyEntry, record: Punch) returns (emp: DailyEntry)
    ensures emp == Touch(e, record)
  {
    emp := e.(lastPunch := Some(record.time));
    if record.kind == "IN" {
      if emp.firstIn.None? {
        emp := emp.(firstIn := Some(record.time));
      }
      emp := emp.(status := "present", pendingInTime := Some(record.time));
    } else if record.kind == "OUT" {
      emp := emp.(lastOut := Some(record.time), status := "out", pendingInTime := None);
    }
    emp := emp.(deviceId := record.deviceId);
  }

  /** The `sorted.forEach` loop filling the map of rows. */
  method FoldDaily(sorted: seq<Punch>) returns (entries: map<string, DailyEntry>, order: seq<string>)
    ensures DailyState(entries, order) == DailyRun(sorted)
  {
    entries, order := map[], [];
    for i := 0 to |sorted|
      invariant DailyState(entries, order) == DailyRun(sorted[..i])
    {
      var record := sorted[i];
      assert sorted[..i + 1][..i] == sorted[..i];
      if record.employeeId !in entries {
        entries := entries[record.employeeId := NewEntry(record)];
        order := order + [record.employeeId];
      }
      var emp := TouchRow(entries[record.employeeId], record);
      entries := entries[record.employeeId := emp];
    }
    assert sorted[..|sorted|] == sorted;
  }

  /** `[...data].sort(...)`: a copy of the day's records in time order. */
  method SortedCopy(data: seq<Punch>) returns (sorted: seq<Punch>)
    ensures SortedByTime(sorted) && multiset(sorted) == multiset(data)
    ensures ArraySort.Stable(data, sorted, CompareTime)
  {
    var a := new Punch[|data|](i requires 0 <= i < |data| => data[i]);
    assert a[..] == data;
    SortByTime(a);
    sorted := a[..];
  }

  /** The loop over `Object.values` computing each row's duration. */
  method FinishRows(st: DailyState, isToday: bool, now: int) returns (processed: seq<DailyEntry>)
    requires forall id :: id in st.order ==> id in st.entries
    ensures processed == Finish(st, isToday, now)
  {
    processed := [];
    for j := 0 to |st.order|
      invariant |processed| == j
      invariant forall k :: 0 <= k < j ==> processed[k] == WithTotal(st.entries[st.order[k]], isToday, now)
    {
      processed := processed + [WithTotal(st.entries[st.order[j]], isToday, now)];
    }
  }

  /** `processed`: copies the day's records, sorts the copy by time, folds
      it into one row per employee and computes each row's duration. */
  method ProcessDaily(data: seq<Punch>, isToday: bool, now: int) returns (sorted: seq<Punch>, processed: seq<DailyEntry>)
    ensures SortedByTime(sorted) && multiset(sorted) == multiset(data)
    ensures ArraySort.Stable(data, sorted, CompareTime)
    ensures forall id :: id in DailyRun(sorted).order ==> id in DailyRun(sorted).entries
    ensures processed == Finish(DailyRun(sorted), isToday, now)
  {
    sorted := SortedCopy(data);
    var entries, order := FoldDaily(sorted);
    DailyRunKeys(sorted);
    processed := FinishRows(DailyState(entries, order), isToday, now);
  }

  // ---------------------------------------------------------------------
  // What a row holds

  /** The time of the first IN among `s`, in sequence order. */
  function FirstIn(s: seq<Punch>): Option<int> {
    if s == [] then None
    else if s[0].kind == "IN" then Some(s[0].time)
    else FirstIn(s[1..])
  }

  /** The time of the last record of type `kind` among `s`. */
  function LastOfKind(s: seq<Punch>, kind: string): Option<int> {
    if s == [] then None
    else if s[|s| - 1].kind == kind then Some(s[|s| - 1].time)
    else LastOfKind(s[..|s| - 1], kind)
  }

  /** The type of the last IN or OUT record among `s`. */
  function LastInOutKind(s: seq<Punch>): Option<string> {
    if s == [] then None
    else if s[|s| - 1].kind == "IN" || s[|s| - 1].kind == "OUT" then Some(s[|s| - 1].kind)
    else LastInOutKind(s[..|s| - 1])
  }

  /** The status the last IN/OUT punch implies. */
  function StatusFrom(k: Option<string>): string {
    match k
    case None => "absent"
    case Some(t) => if t == "IN" then "present" else "out"
  }

  lemma {:induction false} FirstInSnoc(s: seq<Punch>, r: Punch)
    ensures FirstIn(s + [r]) ==
      if FirstIn(s).Some? then FirstIn(s) else if r.kind == "IN" then Some(r.time) else None
  {
    if s != [] {
      assert (s + [r])[1..] == s[1..] + [r];
      FirstInSnoc(s[1..], r);
    }
  }

  /** In time order, the first IN is the earliest one. */
  lemma {:induction false} FirstInEarliest(s: seq<Punch>)
    requires SortedByTime(s)
    ensures FirstIn(s).Some? <==> exists i :: 0 <= i < |s| && s[i].kind == "IN"
    ensures FirstIn(s).Some? ==> forall i :: 0 <= i < |s| && s[i].kind == "IN" ==> FirstIn(s).value <= s[i].time
  {
    if s != [] {
      assert SortedByTime(s[1..]);
      FirstInEarliest(s[1..]);
      assert forall i :: 1 <= i < |s| ==> s[i] == s[1..][i - 1];
    }
  }

  /** In time order, the last OUT is the latest one. */
  lemma {:induction false} LastOfKindLatest(s: seq<Punch>, kind: string)
    requires SortedByTime(s)
    ensures LastOfKind(s, kind).Some? <==> exists i :: 0 <= i < |s| && s[i].kind == kind
    ensures LastOfKind(s, kind).Some? ==> forall i :: 0 <= i < |s| && s[i].kind == kind ==> s[i].time <= LastOfKind(s, kind).value
    ensures LastOfKind(s, kind).Some? ==> exists i :: 0 <= i < |s| && s[i].kind == kind && s[i].time == LastOfKind(s, kind).value
  {
    LastOfKindMember(s, kind);
    if s != [] {
      var n := |s| - 1;
      assert SortedByTime(s[..n]);
      LastOfKindLatest(s[..n], kind);
      assert forall i :: 0 <= i < n ==> s[i] == s[..n][i];
    }
  }

  /** The ids with a row are those with a record, in order of first appearance. */
  lemma DailyRunKeys(rs: seq<Punch>)
    ensures DailyRun(rs).order == Seqs.Dedup(Ids(rs))
    ensures Seqs.FirstAppearanceOrder(DailyRun(rs).order, Ids(rs))
    ensures forall id :: id in DailyRun(rs).entries <==> id in DailyRun(rs).order
  {
    DailyRunOrder(rs);
    Seqs.DedupOrder(Ids(rs));
  }

  lemma {:induction false} DailyRunOrder(rs: seq<Punch>)
    ensures DailyRun(rs).order == Seqs.Dedup(Ids(rs))
    ensures forall id :: id in DailyRun(rs).entries <==> id in DailyRun(rs).order
  {
    if rs != [] {
      var n := |rs| - 1;
      DailyRunOrder(rs[..n]);
      assert rs == rs[..n] + [rs[n]];
      Seqs.DedupSnoc(Ids(rs[..n]), rs[n].employeeId);
      assert Ids(rs) == Ids(rs[..n]) + [rs[n].employeeId];
    }
  }

  /** Each row as the employee's own records determine it: the spread first
      record, the first IN, the last OUT, the last punch of any type, the
      status of the last IN/OUT punch ("absent" when there is none) and the
      device of the last record. */
  ghost predicate RowOf(s: seq<Punch>, e: DailyEntry) {
    && s != []
    && e.first == s[0]
    && e.firstIn == FirstIn(s)
    && e.lastOut == LastOfKind(s, "OUT")
    && e.lastPunch == Some(s[|s| - 1].time)
    && e.status == StatusFrom(LastInOutKind(s))
    && e.deviceId == s[|s| - 1].deviceId
    && e.totalMs == 0
  }

  lemma {:induction false} DailyRunRows(rs: seq<Punch>, id: string)
    ensures id in DailyRun(rs).entries <==> RecordsOf(rs, id) != []
    ensures id in DailyRun(rs).entries ==> RowOf(RecordsOf(rs, id), DailyRun(rs).entries[id])
  {
    if rs != [] {
      var n := |rs| - 1;
      var init, r := rs[..n], rs[n];
      DailyRunRows(init, id);
      var s := RecordsOf(init, id);
      if r.employeeId == id {
        assert RecordsOf(rs, id) == s + [r];
        FirstInSnoc(s, r);
        assert (s + [r])[..|s|] == s;
        var e0 := if id in DailyRun(init).entries then DailyRun(init).entries[id] else NewEntry(r);
        assert DailyRun(rs).entries[id] == Touch(e0, r);
        if s != [] {
          assert (s + [r])[0] == s[0];
          assert e0.firstIn == FirstIn(s);
          assert e0.lastOut == LastOfKind(s, "OUT");
          assert e0.status == StatusFrom(LastInOutKind(s));
        } else {
          assert e0 == NewEntry(r);
        }
      } else {
        assert RecordsOf(rs, id) == s;
      }
    }
  }

  /** The row of employee `id`, in terms of the employee's records. */
  lemma ProcessedRow(rs: seq<Punch>, id: string)
    requires id in DailyRun(rs).entries
    ensures var s, e := RecordsOf(rs, id), DailyRun(rs).entries[id];
      && s != [] && e.first == s[0] && e.firstIn == FirstIn(s) && e.lastOut == LastOfKind(s, "OUT")
      && e.lastPunch == Some(s[|s| - 1].time) && e.status == StatusFrom(LastInOutKind(s))
      && e.deviceId == s[|s| - 1].deviceId
  {
    DailyRunRows(rs, id);
    assert RowOf(RecordsOf(rs, id), DailyRun(rs).entries[id]);
  }

  /** In time order, once a row has an IN, its last punch is no earlier than
      its first IN; so on a past day the duration is exactly last punch minus
      first IN, and OUTs in between (breaks) are not subtracted. */
  lemma GrossDuration(rs: seq<Punch>, id: string, isToday: bool, now: int)
    requires SortedByTime(rs)
    requires id in DailyRun(rs).entries
    ensures var e := DailyRun(rs).entries[id];
      var w := WithTotal(e, isToday, now);
      && e.lastPunch.Some?
      && (e.firstIn.None? ==> w.totalMs == 0)
      && (e.firstIn.Some? && !(e.status == "present" && isToday) ==>
            w.totalMs == e.lastPunch.value - e.firstIn.value)
      && (e.firstIn.Some? && e.status == "present" && isToday ==>
            w.totalMs == if now > e.firstIn.value then now - e.firstIn.value else 0)
  {
    DailyRunRows(rs, id);
    var s := RecordsOf(rs, id);
    var e := DailyRun(rs).entries[id];
    if e.firstIn.Some? {
      RecordsOfSorted(rs, id);
      FirstInEarliest(s);
      FirstInMember(s);
    }
  }

  /** The last punch of a type carries the time of one of the records of
      that type. */
  lemma {:induction false} LastOfKindMember(s: seq<Punch>, kind: string)
    ensures LastOfKind(s, kind).Some? ==> exists i :: 0 <= i < |s| && s[i].kind == kind && s[i].time == LastOfKind(s, kind).value
  {
    if s != [] && s[|s| - 1].kind != kind {
      var n := |s| - 1;
      LastOfKindMember(s[..n], kind);
      if LastOfKind(s, kind).Some? {
        var i :| 0 <= i < n && s[..n][i].kind == kind && s[..n][i].time == LastOfKind(s, kind).value;
        assert s[i] == s[..n][i];
      }
    }
  }

  lemma {:induction false} FirstInMember(s: seq<Punch>)
    ensures FirstIn(s).Some? ==> exists i :: 0 <= i < |s| && s[i].kind == "IN" && s[i].time == FirstIn(s).value
  {
    if s != [] && s[0].kind != "IN" {
      FirstInMember(s[1..]);
      if FirstIn(s).Some? {
        var i :| 0 <= i < |s[1..]| && s[1..][i].kind == "IN" && s[1..][i].time == FirstIn(s).value;
        assert s[i + 1] == s[1..][i];
      }
    }
  }

  /** One employee's records of a time-ordered day are in time order. */
  lemma {:induction false} RecordsOfSorted(rs: seq<Punch>, id: string)
    requires SortedByTime(rs)
    ensures SortedByTime(RecordsOf(rs, id))
    ensures forall x :: x in RecordsOf(rs, id) ==> x.time <= rs[|rs| - 1].time
  {
    if rs != [] {
      var n := |rs| - 1;
      assert SortedByTime(rs[..n]);
      RecordsOfSorted(rs[..n], id);
      var prev := RecordsOf(rs[..n], id);
      if n > 0 {
        assert rs[n - 1].time <= rs[n].time;
      }
      assert forall x :: x in prev ==> x.time <= rs[n].time;
      if rs[n].employeeId == id {
        var r := prev + [rs[n]];
        assert RecordsOf(rs, id) == r;
        forall i, j | 0 <= i < j < |r|
          ensures r[i].time <= r[j].time
        {
          if j == |prev| {
            assert r[i] in prev;
          } else {
            assert r[i] == prev[i] && r[j] == prev[j];
          }
        }
      }
    }
  }

  /** Rows only ever carry the statuses "absent", "present" and "out". */
  lemma DailyStatuses(rs: seq<Punch>, id: string)
    requires id in DailyRun(rs).entries
    ensures DailyRun(rs).entries[id].status in {"absent", "present", "out"}
  {
    DailyRunRows(rs, id);
  }

  /** The spread `attendence_type` is the first record's and is never
      refreshed: an employee who punched IN and then OUT is shown "out" with
      the arrow of an IN. */
  lemma StaleArrow(i: Punch, o: Punch)
    requires i.employeeId == o.employeeId && i.kind == "IN" && o.kind == "OUT"
    ensures var e := DailyRun([i, o]).entries[i.employeeId];
      e.first.kind == "IN" && e.status == "out"
  {
    assert [i, o][..1] == [i];
    assert [i][..0] == [];
    var empty: map<string, DailyEntry> := map[];
    var none: seq<Punch> := [];
    assert DailyRun(none) == DailyState(empty, []);
    assert [i][..0] == none;
    var st1 := DailyRun([i]);
    assert st1 == DailyStep(DailyState(empty, []), i);
    assert st1.entries[i.employeeId] == Touch(NewEntry(i), i);
    assert DailyRun([i, o]) == DailyStep(st1, o);
  }

  // ---------------------------------------------------------------------
  // Department list

  /** The truthy departments of the rows, in row order. */
  function TruthyDepartments(rows: seq<DailyEntry>): (r: seq<string>)
    ensures forall d :: d in r <==> d != "" && exists e :: e in rows && e.first.department == Some(d)
  {
    if rows == [] then []
    else
      var rest := TruthyDepartments(rows[1..]);
      assert forall e :: e in rows <==> e == rows[0] || e in rows[1..];
      match rows[0].first.department
      case Some(d) => if d != "" then [d] + rest else rest
      case None => rest
  }

  /** `departments`: "All" followed by the distinct truthy departments in
      order of first appearance. */
  function Departments(rows: seq<DailyEntry>): (r: seq<string>)
    ensures |r| >= 1 && r[0] == "All"
    ensures Seqs.NoDuplicates(r[1..])
    ensures forall d :: d in r[1..] <==> d != "" && exists e :: e in rows && e.first.department == Some(d)
    ensures Seqs.FirstAppearanceOrder(r[1..], TruthyDepartments(rows))
  {
    var ds := Seqs.Dedup(TruthyDepartments(rows));
    Seqs.DedupOrder(TruthyDepartments(rows));
    assert (["All"] + ds)[1..] == ds;
    ["All"] + ds
  }

  // ---------------------------------------------------------------------
  // Filters

  /** Minutes after midnight beyond which a first IN is late (9.25 hours). */
  const LATE_MINUTE: int := 555

  /** `hour > 9.25` on the first IN. */
  predicate IsLate(e: DailyEntry) {
    e.firstIn.Some? && MinuteOfDay(e.firstIn.value) > LATE_MINUTE
  }

  /** The whole-minute test is the source's fractional-hour test. */
  lemma IsLateHour(e: DailyEntry)
    ensures IsLate(e) <==> e.firstIn.Some? && HourOfDay(e.firstIn.value) > 9.25
  {
    if e.firstIn.Some? {
      HourOfDayAbove(e.firstIn.value, LATE_MINUTE);
    }
  }

  /** The status the table shows: "late"/"ontime" for present rows. */
  function CurrentStatus(e: DailyEntry): string {
    if e.status == "present" then (if IsLate(e) then "late" else "ontime") else e.status
  }

  /** The search predicate, for rows that have a name. */
  predicate SearchMatches(q: string, e: DailyEntry)
    requires e.first.employeeName.Some?
  {
    Contains(Lower(e.first.employeeName.value), q) || Contains(Lower(e.first.employeeId), q)
  }

  predicate NamedMatch(q: string, e: DailyEntry) {
    e.first.employeeName.Some? && SearchMatches(q, e)
  }

  /** The search filter: reading `employee_name.toLowerCase()` throws on a
      row without a name, so any such row makes the whole filter throw. */
  function SearchRows(rows: seq<DailyEntry>, search: string): (r: Result<seq<DailyEntry>, string>)
    ensures r.Failure? <==> exists e :: e in rows && e.first.employeeName.None?
    ensures r.Success? ==> forall e :: e in r.value <==>
      e in rows && SearchMatches(Lower(search), e)
  {
    if exists e :: e in rows && e.first.employeeName.None? then Failure("TypeError")
    else
      var q := Lower(search);
      Success(Seqs.Filter(rows, e => NamedMatch(q, e)))
  }

  predicate InDepartment(dept: string, e: DailyEntry) {
    e.first.department == Some(dept)
  }

  /** The status filter for a selected option other than "All". */
  predicate StatusMatches(option: string, e: DailyEntry) {
    if option == "Late" then CurrentStatus(e) == "late"
    else if option == "On Time" then CurrentStatus(e) == "ontime"
    else if option == "Checked Out" then CurrentStatus(e) == "out"
    else if option == "Working" then e.status == "present"
    else true
  }

  /** What each status option selects: "Late" and "On Time" only ever pick
      present rows, split by the 9.25 rule; "Checked Out" picks "out" rows. */
  lemma StatusOptions(e: DailyEntry)
    requires e.status in {"absent", "present", "out"}
    ensures StatusMatches("Late", e) <==> e.status == "present" && IsLate(e)
    ensures StatusMatches("On Time", e) <==> e.status == "present" && !IsLate(e)
    ensures StatusMatches("Checked Out", e) <==> e.status == "out"
    ensures StatusMatches("Working", e) <==> e.status == "present"
    ensures StatusMatches("Late", e) || StatusMatches("On Time", e) <==> StatusMatches("Working", e)
  {
  }

  /** The three filters in the source's order: search (when the text is not
      empty), department (unless "All"), status (unless "All"). */
  function Filtered(rows: seq<DailyEntry>, search: string, dept: string, option: string): (r: Result<seq<DailyEntry>, string>)
    ensures r.Failure? <==> search != "" && exists e :: e in rows && e.first.employeeName.None?
    ensures r.Success? ==> forall e :: e in r.value <==>
      && e in rows
      && (search != "" ==> SearchMatches(Lower(search), e))
      && (dept != "All" ==> InDepartment(dept, e))
      && (option != "All" ==> StatusMatches(option, e))
  {
    var s1 := if search != "" then SearchRows(rows, search) else Success(rows);
    if s1.Failure? then s1
    else
      var s2 := if dept != "All" then Seqs.Filter(s1.value, e => InDepartment(dept, e)) else s1.value;
      var s3 := if option != "All" then Seqs.Filter(s2, e => StatusMatches(option, e)) else s2;
      Success(s3)
  }

  /** The filters keep rows in their order. */
  lemma FilteredOrder(rows: seq<DailyEntry>, search: string, dept: string, option: string)
    requires Filtered(rows, search, dept, option).Success?
    ensures Seqs.IsSubsequence(Filtered(rows, search, dept, option).value, rows)
  {
    var s1 := if search != "" then SearchRows(rows, search) else Success(rows);
    if search != "" {
      var q := Lower(search);
      Seqs.FilterIsSubsequence(rows, e => NamedMatch(q, e));
    } else {
      Seqs.FilterAll(rows, _ => true);
      Seqs.FilterIsSubsequence(rows, _ => true);
    }
    var s2 := if dept != "All" then Seqs.Filter(s1.value, e => InDepartment(dept, e)) else s1.value;
    if dept != "All" {
      Seqs.FilterIsSubsequence(s1.value, e => InDepartment(dept, e));
    } else {
      Seqs.FilterAll(s1.value, _ => true);
      Seqs.FilterIsSubsequence(s1.value, _ => true);
    }
    Seqs.SubsequenceTrans(s2, s1.value, rows);
    if option != "All" {
      Seqs.FilterIsSubsequence(s2, e => StatusMatches(option, e));
      Seqs.SubsequenceTrans(Seqs.Filter(s2, e => StatusMatches(option, e)), s2, rows);
    }
  }

  // ---------------------------------------------------------------------
  // Sorting

  /** The columns the table can be sorted by. */
  datatype SortKey = EmployeeName | Department | FirstIn | LastPunch | WorkHoursKey
  datatype Direction = Asc | Desc
  datatype SortConfig = SortConfig(key: SortKey, direction: Direction)

  /** A compared value: text, or a number (times and hours). */
  datatype Value = Text(text: string) | Number(number: real)

  /** `a[sortConfig.key]` with null/undefined read as '' and the two time
      columns read as epoch milliseconds (an empty one as 0). */
  function ValueOf(e: DailyEntry, key: SortKey): Value {
    match key
    case EmployeeName => Text(e.first.employeeName.GetOr(""))
    case Department => Text(e.first.department.GetOr(""))
    case FirstIn => Number(e.firstIn.GetOr(0) as real)
    case LastPunch => Number(e.lastPunch.GetOr(0) as real)
    case WorkHoursKey => Number(WorkHours(e))
  }

  /** `valA < valB` for two values of the same column. */
  predicate Below(a: Value, b: Value) {
    match (a, b)
    case (Text(x), Text(y)) => Less(x, y)
    case (Number(x), Number(y)) => x < y
    case _ => false
  }

  /** The comparator passed to `result.sort`. */
  function Compare(cfg: SortConfig, a: DailyEntry, b: DailyEntry): int {
    var va, vb := ValueOf(a, cfg.key), ValueOf(b, cfg.key);
    if Below(va, vb) then (if cfg.direction == Asc then -1 else 1)
    else if Below(vb, va) then (if cfg.direction == Asc then 1 else -1)
    else 0
  }

  function Comparator(cfg: SortConfig): (DailyEntry, DailyEntry) -> int {
    (a, b) => Compare(cfg, a, b)
  }

  /** One column always yields values of one kind. */
  lemma ValueKind(e: DailyEntry, f: DailyEntry, key: SortKey)
    ensures ValueOf(e, key).Text? == ValueOf(f, key).Text?
  {
  }

  /** Of two values of a column, exactly one is below the other, or they are equal. */
  lemma BelowTrichotomy(a: Value, b: Value)
    requires a.Text? == b.Text?
    ensures !(Below(a, b) && Below(b, a))
    ensures !Below(a, b) && !Below(b, a) ==> a == b
  {
    if a.Text? {
      LessAsymmetric(a.text, b.text);
      if !Below(a, b) && !Below(b, a) {
        LessTotal(a.text, b.text);
      }
    }
  }

  lemma BelowTransitive(a: Value, b: Value, c: Value)
    requires Below(a, b) && Below(b, c)
    ensures Below(a, c)
  {
    if a.Text? {
      LessTransitive(a.text, b.text, c.text);
    }
  }

  /** Ascending, a row is ordered before another exactly when its value is
      below; descending reverses every comparison. */
  lemma CompareMeaning(key: SortKey, a: DailyEntry, b: DailyEntry)
    ensures Compare(SortConfig(key, Asc), a, b) < 0 <==> Below(ValueOf(a, key), ValueOf(b, key))
    ensures Compare(SortConfig(key, Asc), a, b) == 0 <==> ValueOf(a, key) == ValueOf(b, key)
    ensures Compare(SortConfig(key, Desc), a, b) == -Compare(SortConfig(key, Asc), a, b)
  {
    ValueKind(a, b, key);
    BelowTrichotomy(ValueOf(a, key), ValueOf(b, key));
    if ValueOf(a, key) == ValueOf(b, key) {
      BelowTrichotomy(ValueOf(a, key), ValueOf(a, key));
    }
  }

  /** Sorting by hours orders by the milliseconds worked. */
  lemma WorkHoursOrder(a: DailyEntry, b: DailyEntry)
    ensures Below(ValueOf(a, WorkHoursKey), ValueOf(b, WorkHoursKey)) <==> a.totalMs < b.totalMs
  {
  }

  /** The comparator is a total preorder, which is what `sort` needs, and
      rows tie exactly when their values in the column are equal. */
  lemma ComparatorIsOrder(cfg: SortConfig)
    ensures ArraySort.Antisymmetric(Comparator(cfg))
    ensures ArraySort.Transitive(Comparator(cfg))
    ensures ArraySort.TiesAreClasses(Comparator(cfg))
  {
    var cmp := Comparator(cfg);
    forall x, y ensures cmp(x, y) == 0 <==> ValueOf(x, cfg.key) == ValueOf(y, cfg.key) {
      CompareMeaning(cfg.key, x, y);
    }
    forall x, y | cmp(x, y) > 0
      ensures cmp(y, x) <= 0
    {
      ValueKind(x, y, cfg.key);
      BelowTrichotomy(ValueOf(x, cfg.key), ValueOf(y, cfg.key));
    }
    forall x, y, z | cmp(x, y) <= 0 && cmp(y, z) <= 0
      ensures cmp(x, z) <= 0
    {
      var vx, vy, vz := ValueOf(x, cfg.key), ValueOf(y, cfg.key), ValueOf(z, cfg.key);
      ValueKind(x, y, cfg.key);
      ValueKind(x, z, cfg.key);
      BelowTrichotomy(vx, vy);
      BelowTrichotomy(vy, vz);
      BelowTrichotomy(vx, vz);
      if Below(vy, vx) && Below(vz, vy) {
        BelowTransitive(vz, vy, vx);
      }
      if Below(vx, vy) && Below(vy, vz) {
        BelowTransitive(vx, vy, vz);
      }
    }
  }

  /** `filteredAndSorted`. Without any filter the array sorted is `processed`
      itself, which is reordered in place; otherwise the filters build a new
      array and `processed` is left alone. A search over a row without a
      name throws before anything is sorted. */
  method FilterAndSort(processed: array<DailyEntry>, search: string, dept: string, option: string, cfg: SortConfig)
    returns (r: Result<array<DailyEntry>, string>)
    modifies processed
    ensures r.Failure? <==> Filtered(old(processed[..]), search, dept, option).Failure?
    ensures r.Failure? ==> unchanged(processed)
    ensures r.Success? ==>
      && ArraySort.Sorted(r.value[..], Comparator(cfg))
      && multiset(r.value[..]) == multiset(Filtered(old(processed[..]), search, dept, option).value)
      && ArraySort.Stable(Filtered(old(processed[..]), search, dept, option).value, r.value[..], Comparator(cfg))
    ensures r.Success? && search == "" && dept == "All" && option == "All" ==> r.value == processed
    ensures r.Success? && !(search == "" && dept == "All" && option == "All") ==>
      fresh(r.value) && unchanged(processed)
  {
    var f := Filtered(processed[..], search, dept, option);
    if f.Failure? {
      return Failure(f.error);
    }
    var a: array<DailyEntry>;
    if search == "" && dept == "All" && option == "All" {
      a := processed;
    } else {
      a := new DailyEntry[|f.value|](i requires 0 <= i < |f.value| => f.value[i]);
      assert a[..] == f.value;
    }
    SortRows(a, cfg);
    r := Success(a);
  }

  /** `result.sort(...)` with the column comparator: the rows end in order,
      permuted, and rows with equal values keep their order. */
  method SortRows(a: array<DailyEntry>, cfg: SortConfig)
    modifies a
    ensures ArraySort.Sorted(a[..], Comparator(cfg))
    ensures multiset(a[..]) == multiset(old(a[..]))
    ensures ArraySort.Stable(old(a[..]), a[..], Comparator(cfg))
  {
    ComparatorIsOrder(cfg);
    ArraySort.Sort(a, Comparator(cfg));
    ArraySort.AdjacentSortedIsSorted(a[..], Comparator(cfg));
  }

  /** `handleSort`: descending only when the same column is clicked while
      ascending; any other click sorts ascending. */
  function HandleSort(cfg: SortConfig, key: SortKey): (r: SortConfig)
    ensures r.key == key
    ensures r.direction == Desc <==> cfg.key == key && cfg.direction == Asc
  {
    SortConfig(key, if cfg.key == key && cfg.direction == Asc then Desc else Asc)
  }

  /** Clicking the same column again flips the direction; clicking a new
      column starts ascending. */
  lemma HandleSortToggles(cfg: SortConfig, key: SortKey)
    ensures HandleSort(HandleSort(cfg, key), key).direction != HandleSort(cfg, key).direction
    ensures cfg.key != key ==> HandleSort(cfg, key) == SortConfig(key, Asc)
  {
  }

  // ---------------------------------------------------------------------
  // Counters

  predicate IsPresent(e: DailyEntry) {
    e.status == "present"
  }

  predicate IsOut(e: DailyEntry) {
    e.status == "out"
  }

  /** `stats`: rows, present rows, out rows and rows whose first IN is late. */
  datatype DailyStats = DailyStats(total: nat, present: nat, out: nat, late: nat)

  function Stats(rows: seq<DailyEntry>): (st: DailyStats)
    ensures st.total == |rows|
    ensures st.present + st.out <= st.total
    ensures st.late <= st.total
    ensures st.present == |Seqs.Filter(rows, IsPresent)|
    ensures st.out == |Seqs.Filter(rows, IsOut)|
    ensures st.late == |Seqs.Filter(rows, IsLate)|
  {
    Seqs.CountDisjoint(rows, IsPresent, IsOut);
    DailyStats(|rows|,
      Seqs.Count(rows, IsPresent),
      Seqs.Count(rows, IsOut),
      Seqs.Count(rows, IsLate))
  }

  /** `onTime = total - late`. */
  function OnTime(st: DailyStats): int {
    st.total - st.late
  }

  /** "On time" counts every row that is not late, including rows without
      any IN; and the late counter, unlike the "Late" filter, also counts
      rows that have since checked out. */
  lemma OnTimeCount(rows: seq<DailyEntry>)
    requires forall e :: e in rows ==> e.status in {"absent", "present", "out"}
    ensures OnTime(Stats(rows)) == |Seqs.Filter(rows, e => !IsLate(e))|
    ensures forall e :: e in rows && e.firstIn.None? ==> e in Seqs.Filter(rows, e => !IsLate(e))
    ensures Stats(rows).late >= |Seqs.Filter(rows, e => StatusMatches("Late", e))|
  {
    Seqs.CountComplement(rows, IsLate, e => !IsLate(e));
    Seqs.CountMonotone(rows, e => StatusMatches("Late", e), IsLate);
  }

  // ---------------------------------------------------------------------
  // Fetch window

  /** `fetchData`'s `from_date` and `to_date` for the selected day: the day
      and the next one, as YYYY-MM-DD text. */
  function FetchWindow(day: int): (r: (string, string))
    ensures r.0 == Calendar.Ymd(Calendar.DateOfDay(day))
    ensures r.1 == Calendar.Ymd(Calendar.NextDay(Calendar.DateOfDay(day)))
  {
    var start := Calendar.DateOfDay(day);
    var end := Calendar.DateOfDay(day + 1);
    Calendar.DayNumberInjective(end, Calendar.NextDay(start));
    (Calendar.Ymd(start), Calendar.Ymd(end))
  }
}
