/** The employee management screen: the employee list with its search and
    status filter, the enabled/disabled counters, and enabling or disabling
    face recognition for one employee. The server's replies are inputs. */
module EmployeeManagement {
  import opened Wrappers
  import opened JsString
  import Seqs

  /** An employee of `employees/`. A missing `employee_id` or `name` is
      `None`; `details` stands for the fields the screen only displays. */
  datatype Employee = Employee(
    employeeId: Option<string>,
    name: Option<string>,
    isActive: bool,
    details: seq<string>)

  // ---------------------------------------------------------------------
  // Local status update

  /** `updateEmployeeStatus`: a copy of the list where every entry whose id
      is strictly equal to `id` has `is_active` set to `newStatus`. */
  function UpdateEmployeeStatus(emps: seq<Employee>, id: Option<string>, newStatus: bool): (r: seq<Employee>)
    ensures |r| == |emps|
    ensures forall i :: 0 <= i < |emps| ==>
      if emps[i].employeeId == id then r[i] == emps[i].(isActive := newStatus) else r[i] == emps[i]
  {
    seq(|emps|, i requires 0 <= i < |emps| => if emps[i].employeeId == id then emps[i].(isActive := newStatus) else emps[i])
  }

  /** A second update of the same id overrides the first, and repeating an
      update changes nothing. */
  lemma UpdateOverrides(emps: seq<Employee>, id: Option<string>, a: bool, b: bool)
    ensures UpdateEmployeeStatus(UpdateEmployeeStatus(emps, id, a), id, b) == UpdateEmployeeStatus(emps, id, b)
    ensures UpdateEmployeeStatus(UpdateEmployeeStatus(emps, id, a), id, a) == UpdateEmployeeStatus(emps, id, a)
  {
  }

  /** Setting a status that every matching entry already has leaves the
      list as it was. */
  lemma UpdateNoChange(emps: seq<Employee>, id: Option<string>, newStatus: bool)
    requires forall e :: e in emps && e.employeeId == id ==> e.isActive == newStatus
    ensures UpdateEmployeeStatus(emps, id, newStatus) == emps
  {
    var r := UpdateEmployeeStatus(emps, id, newStatus);
    forall i | 0 <= i < |emps|
      ensures r[i] == emps[i]
    {
      assert emps[i] in emps;
    }
  }

  // ---------------------------------------------------------------------
  // Error messages

  /** `err.response?.data?.error` is truthy. */
  predicate HasServerError(serverError: Option<string>) {
    serverError.Some? && serverError.value != ""
  }

  /** `handleError`'s message. */
  function ErrorMessage(serverError: Option<string>, action: string): string {
    if HasServerError(serverError) then "Error " + action + ": " + serverError.value
    else "An unknown error occurred while trying to " + action + "."
  }

  /** Both messages name the action; the server's text appears exactly when
      it carries one, behind "Error ". */
  lemma ErrorMessageMeaning(serverError: Option<string>, action: string)
    ensures Contains(ErrorMessage(serverError, action), action)
    ensures IsPrefix("Error ", ErrorMessage(serverError, action)) <==> HasServerError(serverError)
    ensures HasServerError(serverError) ==> Contains(ErrorMessage(serverError, action), serverError.value)
  {
    var m := ErrorMessage(serverError, action);
    if HasServerError(serverError) {
      assert OccursAt(m, action, 6);
      assert OccursAt(m, serverError.value, 6 + |action| + 2);
    } else {
      var lead := "An unknown error occurred while trying to ";
      assert OccursAt(m, action, |lead|);
      assert m == lead + action + ".";
      assert m[0] == lead[0] == 'A';
      assert m[..6][0] == 'A';
    }
  }

  // ---------------------------------------------------------------------
  // Enabling and disabling

  /** The screen's state: the list, the error banner and the id whose
      request is in flight (`Some(None)` for an employee without an id). */
  datatype Screen = Screen(employees: seq<Employee>, error: Option<string>, processingId: Option<Option<string>>)

  /** The outcome of the `enable_face/` or `disable_face/` request. */
  datatype Outcome = Succeeded | Failed(serverError: Option<string>)

  function Action(enable: bool): string {
    if enable then "enabling face recognition" else "disabling face recognition"
  }

  /** `handleEnable` (`enable`) and `handleDisable` (`!enable`) once the
      request has settled: the list changes only after a success, a failure
      sets the error, and the in-flight id is cleared either way. */
  function Toggle(st: Screen, id: Option<string>, enable: bool, outcome: Outcome): (r: Screen)
    ensures r.processingId == None
    ensures outcome.Succeeded? ==> r.error == None && r.employees == UpdateEmployeeStatus(st.employees, id, enable)
    ensures outcome.Failed? ==> r.employees == st.employees && r.error == Some(ErrorMessage(outcome.serverError, Action(enable)))
  {
    var busy := st.(processingId := Some(id), error := None);
    var settled :=
      match outcome
      case Succeeded => busy.(employees := UpdateEmployeeStatus(busy.employees, id, enable))
      case Failed(err) => busy.(error := Some(ErrorMessage(err, Action(enable))));
    settled.(processingId := None)
  }

  /** After a successful toggle every entry with that id has the new status;
      after a failure nothing in the list changed. */
  lemma ToggleEffect(st: Screen, id: Option<string>, enable: bool, outcome: Outcome)
    ensures outcome.Succeeded? ==> forall e :: e in Toggle(st, id, enable, outcome).employees && e.employeeId == id ==> e.isActive == enable
    ensures outcome.Succeeded? ==> |Toggle(st, id, enable, outcome).employees| == |st.employees|
    ensures outcome.Failed? ==> Stats(Toggle(st, id, enable, outcome).employees) == Stats(st.employees)
  {
    if outcome.Succeeded? {
      var r := Toggle(st, id, enable, outcome).employees;
      forall e | e in r && e.employeeId == id
        ensures e.isActive == enable
      {
        var i :| 0 <= i < |r| && r[i] == e;
      }
    }
  }

  /** Which radio button fired. */
  datatype Radio = EnableRadio | DisableRadio

  /** A radio's `onChange`: disabled while this employee's request is in
      flight; the Enable radio only acts on a disabled employee and the
      Disable radio only on an enabled one. */
  function RadioChange(st: Screen, emp: Employee, radio: Radio, outcome: Outcome): (r: Screen)
    ensures st.processingId == Some(emp.employeeId) ==> r == st
    ensures radio.EnableRadio? && emp.isActive ==> r == st
    ensures radio.DisableRadio? && !emp.isActive ==> r == st
    ensures st.processingId != Some(emp.employeeId) && (radio.EnableRadio? <==> !emp.isActive) ==>
      r == Toggle(st, emp.employeeId, radio.EnableRadio?, outcome)
  {
    if st.processingId == Some(emp.employeeId) then st
    else match radio
      case EnableRadio => if !emp.isActive then Toggle(st, emp.employeeId, true, outcome) else st
      case DisableRadio => if emp.isActive then Toggle(st, emp.employeeId, false, outcome) else st
  }

  /** A successful radio change flips the employee's status (for every
      entry sharing its id). */
  lemma RadioFlips(st: Screen, emp: Employee, radio: Radio)
    requires st.processingId != Some(emp.employeeId)
    requires radio.EnableRadio? <==> !emp.isActive
    ensures forall e :: e in RadioChange(st, emp, radio, Succeeded).employees && e.employeeId == emp.employeeId ==>
      e.isActive == !emp.isActive
  {
    ToggleEffect(st, emp.employeeId, radio.EnableRadio?, Succeeded);
  }

  /** `fetchEmployees` once settled. */
  function Load(st: Screen, reply: Result<seq<Employee>, string>): (r: Screen)
    ensures reply.Success? ==> r.employees == reply.value && r.error == None
    ensures reply.Failure? ==>
      && r.employees == st.employees
      && r.error == Some("Failed to load employees. Please check your network or server connection.")
  {
    match reply
    case Success(rows) => st.(employees := rows, error := None)
    case Failure(_) => st.(error := Some("Failed to load employees. Please check your network or server connection."))
  }

  // ---------------------------------------------------------------------
  // Filters and counters

  /** `emp.employee_id?.toLowerCase().includes(q) || emp.name?...`: a missing
      field does not match. */
  predicate MatchesSearch(query: string, e: Employee) {
    || (e.employeeId.Some? && Contains(Lower(e.employeeId.value), Lower(query)))
    || (e.name.Some? && Contains(Lower(e.name.value), Lower(query)))
  }

  /** The status filter: "all", "enabled", "disabled"; any other value
      matches nobody. */
  predicate MatchesStatus(statusFilter: string, e: Employee) {
    || statusFilter == "all"
    || (statusFilter == "enabled" && e.isActive)
    || (statusFilter == "disabled" && !e.isActive)
  }

  predicate Matches(query: string, statusFilter: string, e: Employee) {
    MatchesSearch(query, e) && MatchesStatus(statusFilter, e)
  }

  /** `filteredEmployees` */
  function FilteredEmployees(emps: seq<Employee>, query: string, statusFilter: string): (r: seq<Employee>)
    ensures forall e :: e in r <==> e in emps && MatchesSearch(query, e) && MatchesStatus(statusFilter, e)
  {
    Seqs.Filter(emps, e => Matches(query, statusFilter, e))
  }

  /** An empty query matches exactly the employees with an id or a name. */
  lemma EmptyQuery(e: Employee)
    ensures MatchesSearch("", e) <==> e.employeeId.Some? || e.name.Some?
  {
    if e.employeeId.Some? {
      ContainsEmpty(Lower(e.employeeId.value));
    }
    if e.name.Some? {
      ContainsEmpty(Lower(e.name.value));
    }
  }

  /** The list shown keeps the order of the employees, and the "enabled" and
      "disabled" views split the "all" view. */
  lemma FilterViews(emps: seq<Employee>, query: string)
    ensures forall f :: Seqs.IsSubsequence(FilteredEmployees(emps, query, f), emps)
    ensures |FilteredEmployees(emps, query, "enabled")| + |FilteredEmployees(emps, query, "disabled")|
         == |FilteredEmployees(emps, query, "all")|
    ensures forall f :: f != "all" && f != "enabled" && f != "disabled" ==> FilteredEmployees(emps, query, f) == []
  {
    forall f ensures Seqs.IsSubsequence(FilteredEmployees(emps, query, f), emps) {
      Seqs.FilterIsSubsequence(emps, e => Matches(query, f, e));
    }
    Seqs.CountSplit(emps, e => Matches(query, "all", e), e => Matches(query, "enabled", e),
      e => Matches(query, "disabled", e), IsEnabled);
    forall f | f != "all" && f != "enabled" && f != "disabled"
      ensures FilteredEmployees(emps, query, f) == []
    {
      Seqs.FilterNone(emps, e => Matches(query, f, e));
    }
  }

  predicate IsEnabled(e: Employee) {
    e.isActive
  }

  predicate IsDisabled(e: Employee) {
    !e.isActive
  }

  datatype EmployeeStats = EmployeeStats(total: nat, enabled: nat, disabled: int)

  /** `stats`, over the whole list whatever the filters. */
  function Stats(emps: seq<Employee>): (st: EmployeeStats)
    ensures st.total == |emps| && st.enabled == |Seqs.Filter(emps, IsEnabled)|
    ensures st.enabled + st.disabled == st.total
    ensures st.disabled == |Seqs.Filter(emps, IsDisabled)|
  {
    Seqs.CountComplement(emps, IsEnabled, IsDisabled);
    var enabled := Seqs.Count(emps, IsEnabled);
    EmployeeStats(|emps|, enabled, |emps| - enabled)
  }
}
