/** The face-encoding screen: employee rows from the global employee list
    normalised to one shape, the card helpers (`hasValue`, `getInitials`,
    the encode gate), the filter chain, the counters and the local update
    after a face encoding was generated. The network replies are inputs. */
module FaceEncoding {
  import opened Wrappers
  import opened JsString
  import Seqs

  // ---------------------------------------------------------------------
  // JavaScript field values

  /** A field of a JSON row: absent, `null`, or text. */
  datatype Field = Undefined | Null | Str(text: string)

  /** JavaScript truthiness of a field. */
  predicate Truthy(f: Field) {
    f.Str? && f.text != ""
  }

  /** `a || b` */
  function Or(a: Field, b: Field): Field {
    if Truthy(a) then a else b
  }

  /** `(f || "")` for a text field. */
  function TextOr(f: Field): string {
    if Truthy(f) then f.text else ""
  }

  /** `String(f)`: absent and `null` become the words "undefined" and "null". */
  function StringOf(f: Field): string {
    match f
    case Undefined => "undefined"
    case Null => "null"
    case Str(s) => s
  }

  /** `hasValue`: not undefined, not null, and not blank once trimmed. */
  predicate HasValue(f: Field) {
    f.Str? && Trim(f.text) != ""
  }

  /** A field has a value exactly when it is text with a non-blank character;
      such a field is truthy. */
  lemma HasValueMeaning(f: Field)
    ensures HasValue(f) <==> f.Str? && exists i :: 0 <= i < |f.text| && !IsSpace(f.text[i])
    ensures HasValue(f) ==> Truthy(f)
  {
    if f.Str? && f.text == "" {
      assert AllSpace(f.text);
    }
  }

  // ---------------------------------------------------------------------
  // Normalisation

  /** A stored face encoding, or the literal `true` the screen writes when a
      reply does not carry one. */
  datatype EncodingValue = Stored(data: string) | Marker

  /** A row of `employees_from_global/`, with both spellings of the fields
      that have two. `isActive` is `None` for null or absent. */
  datatype RawRow = RawRow(
    employeeId: Field, employee_id: Field,
    employeeName: Field, employee_name: Field,
    profileImage: Field, profile_image: Field,
    department: Field,
    designation: Field,
    primaryRole: Field, primary_role: Field,
    email: Field,
    mobileNumber: Field, mobile_number: Field,
    age: Field,
    gender: Field,
    isActive: Option<bool>,
    encodingStatus: Field, encoding_status: Field,
    currentFaceEncoding: Option<EncodingValue>)

  /** An employee as the screen holds it. */
  datatype Employee = Employee(
    employeeId: Field,
    employeeName: Field,
    profileImage: Field,
    department: Field,
    designation: Field,
    primaryRole: Field,
    email: Field,
    mobileNumber: Field,
    age: Field,
    gender: Field,
    isActive: bool,
    encodingStatus: Field,
    currentFaceEncoding: Option<EncodingValue>)

  /** The `rows.map(r => ({...}))` normalisation. */
  function Normalize(r: RawRow): Employee {
    Employee(
      Or(r.employeeId, r.employee_id),
      Or(r.employeeName, r.employee_name),
      Or(r.profileImage, r.profile_image),
      r.department,
      r.designation,
      Or(r.primaryRole, r.primary_role),
      r.email,
      Or(r.mobileNumber, r.mobile_number),
      r.age,
      r.gender,
      r.isActive.GetOr(false),
      Or(r.encodingStatus, r.encoding_status),
      r.currentFaceEncoding)
  }

  /** Each two-spelling field takes the camelCase value when it is truthy and
      the snake_case value otherwise, even when that one is empty or null;
      `is_active` is false only when missing or null. */
  lemma NormalizeFields(r: RawRow)
    ensures var e := Normalize(r);
      && (Truthy(r.employeeId) ==> e.employeeId == r.employeeId)
      && (!Truthy(r.employeeId) ==> e.employeeId == r.employee_id)
      && (Truthy(r.employeeName) ==> e.employeeName == r.employeeName)
      && (!Truthy(r.employeeName) ==> e.employeeName == r.employee_name)
      && (Truthy(r.profileImage) ==> e.profileImage == r.profileImage)
      && (!Truthy(r.profileImage) ==> e.profileImage == r.profile_image)
      && (Truthy(r.primaryRole) ==> e.primaryRole == r.primaryRole)
      && (!Truthy(r.primaryRole) ==> e.primaryRole == r.primary_role)
      && (Truthy(r.mobileNumber) ==> e.mobileNumber == r.mobileNumber)
      && (!Truthy(r.mobileNumber) ==> e.mobileNumber == r.mobile_number)
      && (Truthy(r.encodingStatus) ==> e.encodingStatus == r.encodingStatus)
      && (!Truthy(r.encodingStatus) ==> e.encodingStatus == r.encoding_status)
      && (e.isActive <==> r.isActive == Some(true))
      && e.currentFaceEncoding == r.currentFaceEncoding
  {
  }

  /** What a reply to the employee list leaves on screen: the normalised rows
      (none when the body is not an array) or the load error. */
  datatype ListReply = Body(rows: Option<seq<RawRow>>) | LoadFailed

  function Load(reply: ListReply): (r: (seq<Employee>, string))
    ensures reply.LoadFailed? ==> r.1 == "Failed to load employees"
    ensures reply.Body? ==> r.1 == "" && |r.0| == (if reply.rows.Some? then |reply.rows.value| else 0)
    ensures reply.Body? && reply.rows.Some? ==> forall i :: 0 <= i < |r.0| ==> r.0[i] == Normalize(reply.rows.value[i])
  {
    match reply
    case LoadFailed => ([], "Failed to load employees")
    case Body(rows) =>
      var rs := rows.GetOr([]);
      (seq(|rs|, i requires 0 <= i < |rs| => Normalize(rs[i])), "")
  }

  // ---------------------------------------------------------------------
  // Card helpers

  /** The first letters of the words, skipping empty words (whose `n[0]` is
      undefined and joins as nothing). */
  function Initials(words: seq<string>): string {
    if words == [] then []
    else (if words[0] != [] then [words[0][0]] else []) + Initials(words[1..])
  }

  /** The characters of `s` that start a word: not a space, and first or
      right after a space (`afterSpace` says whether the text before `s`
      ended in a space or was empty). */
  function WordStarts(s: string, afterSpace: bool): string {
    if s == [] then []
    else (if s[0] != ' ' && afterSpace then [s[0]] else []) + WordStarts(s[1..], s[0] == ' ')
  }

  lemma {:induction false} InitialsAreWordStarts(s: string)
    ensures Initials(Split(s, ' ')) == WordStarts(s, true)
    ensures Initials(Split(s, ' ')[1..]) == WordStarts(s, false)
  {
    if s != [] {
      var rest := Split(s[1..], ' ');
      InitialsAreWordStarts(s[1..]);
      if s[0] == ' ' {
        assert Split(s, ' ') == [[]] + rest;
        assert ([[]] + rest)[1..] == rest;
      } else {
        var w := [s[0]] + rest[0];
        assert Split(s, ' ') == [w] + rest[1..];
        assert ([w] + rest[1..])[1..] == rest[1..];
      }
    }
  }

  /** `getInitials`: "?" for a falsy name, otherwise the first two of the
      upper-cased word initials. */
  function GetInitials(name: Field): (r: string)
    ensures !Truthy(name) ==> r == "?"
    ensures Truthy(name) ==> |r| <= 2 && IsPrefix(r, Upper(WordStarts(name.text, true)))
    ensures Truthy(name) ==> |r| == if |WordStarts(name.text, true)| < 2 then |WordStarts(name.text, true)| else 2
  {
    if !Truthy(name) then "?"
    else
      var all := Upper(Initials(Split(name.text, ' ')));
      InitialsAreWordStarts(name.text);
      if |all| <= 2 then all else all[..2]
  }

  /** Two words give their two initials, upper-cased. */
  lemma GetInitialsExample()
    ensures GetInitials(Str("jo li")) == "JL"
  {
    var s := "jo li";
    assert WordStarts(s[4..], false) == [];
    assert WordStarts(s[3..], true) == "l";
    assert WordStarts(s[2..], false) == "l";
    assert WordStarts(s[1..], false) == "l";
    assert WordStarts(s, true) == "jl";
  }

  /** A name made only of spaces is truthy, so it gets no "?" but nothing. */
  lemma BlankNameHasNoInitials()
    ensures GetInitials(Str("  ")) == ""
  {
    assert WordStarts("  ", true) == WordStarts(" ", true);
  }

  /** `canEncode`: a profile image and no encoding in flight on this card. */
  predicate CanEncode(e: Employee, busy: bool) {
    HasValue(e.profileImage) && !busy
  }

  // ---------------------------------------------------------------------
  // Filters

  predicate IsEncoded(e: Employee) {
    e.encodingStatus == Str("Encoded")
  }

  predicate HasProfileImage(e: Employee) {
    HasValue(e.profileImage)
  }

  predicate IsActive(e: Employee) {
    e.isActive
  }

  predicate IsInactive(e: Employee) {
    !e.isActive
  }

  predicate IsPending(e: Employee) {
    !IsEncoded(e)
  }

  /** The active filter: "active", "inactive", anything else keeps all. */
  predicate ActiveOk(activeFilter: string, e: Employee) {
    if activeFilter == "active" then e.isActive
    else if activeFilter == "inactive" then !e.isActive
    else true
  }

  /** The encoding filter: "encoded", "pending", anything else keeps all. */
  predicate EncodingOk(encodingFilter: string, e: Employee) {
    if encodingFilter == "encoded" then IsEncoded(e)
    else if encodingFilter == "pending" then !IsEncoded(e)
    else true
  }

  /** The search over an already lower-cased, trimmed query. */
  predicate SearchOk(q: string, e: Employee) {
    || Contains(Lower(TextOr(e.employeeName)), q)
    || Contains(Lower(StringOf(e.employeeId)), q)
    || Contains(Lower(TextOr(e.department)), q)
    || Contains(Lower(TextOr(e.email)), q)
    || Contains(Lower(TextOr(e.primaryRole)), q)
  }

  /** `searchQuery.toLowerCase().trim()` */
  function Query(searchQuery: string): string {
    Trim(Lower(searchQuery))
  }

  /** An employee is shown when it passes every stage of the chain. */
  predicate Shown(activeFilter: string, encodingFilter: string, searchQuery: string, e: Employee) {
    && HasProfileImage(e)
    && ActiveOk(activeFilter, e)
    && EncodingOk(encodingFilter, e)
    && (searchQuery != "" ==> SearchOk(Query(searchQuery), e))
  }

  function ActiveStage(s: seq<Employee>, activeFilter: string): seq<Employee> {
    if activeFilter == "active" then Seqs.Filter(s, IsActive)
    else if activeFilter == "inactive" then Seqs.Filter(s, IsInactive)
    else s
  }

  function EncodingStage(s: seq<Employee>, encodingFilter: string): seq<Employee> {
    if encodingFilter == "encoded" then Seqs.Filter(s, IsEncoded)
    else if encodingFilter == "pending" then Seqs.Filter(s, IsPending)
    else s
  }

  function SearchStage(s: seq<Employee>, searchQuery: string): seq<Employee> {
    if searchQuery != "" then Seqs.Filter(s, e => SearchOk(Query(searchQuery), e)) else s
  }

  /** `filteredEmployees`: profile image, then the active filter, then the
      encoding filter, then the search. */
  function FilteredEmployees(emps: seq<Employee>, activeFilter: string, encodingFilter: string, searchQuery: string): (r: seq<Employee>)
    ensures forall e :: e in r <==> e in emps && Shown(activeFilter, encodingFilter, searchQuery, e)
  {
    SearchStage(EncodingStage(ActiveStage(Seqs.Filter(emps, HasProfileImage), activeFilter), encodingFilter), searchQuery)
  }

  /** Each stage is a filter whose predicate is the matching conjunct. */
  lemma ActiveStageFilter(s: seq<Employee>, activeFilter: string)
    ensures ActiveStage(s, activeFilter) == Seqs.Filter(s, e => ActiveOk(activeFilter, e))
  {
    if activeFilter == "active" {
      Seqs.FilterCongruent(s, IsActive, e => ActiveOk(activeFilter, e));
    } else if activeFilter == "inactive" {
      Seqs.FilterCongruent(s, IsInactive, e => ActiveOk(activeFilter, e));
    } else {
      Seqs.FilterAll(s, e => ActiveOk(activeFilter, e));
    }
  }

  lemma EncodingStageFilter(s: seq<Employee>, encodingFilter: string)
    ensures EncodingStage(s, encodingFilter) == Seqs.Filter(s, e => EncodingOk(encodingFilter, e))
  {
    if encodingFilter == "encoded" {
      Seqs.FilterCongruent(s, IsEncoded, e => EncodingOk(encodingFilter, e));
    } else if encodingFilter == "pending" {
      Seqs.FilterCongruent(s, IsPending, e => EncodingOk(encodingFilter, e));
    } else {
      Seqs.FilterAll(s, e => EncodingOk(encodingFilter, e));
    }
  }

  lemma SearchStageFilter(s: seq<Employee>, searchQuery: string)
    ensures SearchStage(s, searchQuery) == Seqs.Filter(s, e => searchQuery != "" ==> SearchOk(Query(searchQuery), e))
  {
    if searchQuery != "" {
      Seqs.FilterCongruent(s, e => SearchOk(Query(searchQuery), e), e => searchQuery != "" ==> SearchOk(Query(searchQuery), e));
    } else {
      Seqs.FilterAll(s, e => searchQuery != "" ==> SearchOk(Query(searchQuery), e));
    }
  }

  /** The chain of filters is one filter by the conjunction of its stages,
      so the list shown keeps the employees' order. */
  lemma FilterChainIsOneFilter(emps: seq<Employee>, activeFilter: string, encodingFilter: string, searchQuery: string)
    ensures FilteredEmployees(emps, activeFilter, encodingFilter, searchQuery)
         == Seqs.Filter(emps, e => Shown(activeFilter, encodingFilter, searchQuery, e))
    ensures Seqs.IsSubsequence(FilteredEmployees(emps, activeFilter, encodingFilter, searchQuery), emps)
  {
    var a := e => ActiveOk(activeFilter, e);
    var b := e => EncodingOk(encodingFilter, e);
    var c := e => searchQuery != "" ==> SearchOk(Query(searchQuery), e);
    var f0 := Seqs.Filter(emps, HasProfileImage);
    ActiveStageFilter(f0, activeFilter);
    var p1 := e => HasProfileImage(e) && ActiveOk(activeFilter, e);
    Seqs.FilterFusion(emps, HasProfileImage, a, p1);
    var f1 := Seqs.Filter(emps, p1);
    EncodingStageFilter(f1, encodingFilter);
    var p2 := e => p1(e) && EncodingOk(encodingFilter, e);
    Seqs.FilterFusion(emps, p1, b, p2);
    var f2 := Seqs.Filter(emps, p2);
    SearchStageFilter(f2, searchQuery);
    var p3 := e => p2(e) && (searchQuery != "" ==> SearchOk(Query(searchQuery), e));
    Seqs.FilterFusion(emps, p2, c, p3);
    Seqs.FilterCongruent(emps, p3, e => Shown(activeFilter, encodingFilter, searchQuery, e));
    Seqs.FilterIsSubsequence(emps, e => Shown(activeFilter, encodingFilter, searchQuery, e));
  }

  /** A query of spaces only trims to nothing and so matches everyone. */
  lemma BlankQueryKeepsAll(emps: seq<Employee>, activeFilter: string, encodingFilter: string, searchQuery: string)
    requires AllSpace(searchQuery)
    ensures FilteredEmployees(emps, activeFilter, encodingFilter, searchQuery)
         == FilteredEmployees(emps, activeFilter, encodingFilter, "")
  {
    if searchQuery != "" {
      LowerKeepsSpace(searchQuery);
      assert Query(searchQuery) == [];
      var s := EncodingStage(ActiveStage(Seqs.Filter(emps, HasProfileImage), activeFilter), encodingFilter);
      forall e | e in s
        ensures SearchOk(Query(searchQuery), e)
      {
        ContainsEmpty(Lower(TextOr(e.employeeName)));
      }
      Seqs.FilterAll(s, e => SearchOk(Query(searchQuery), e));
    }
  }

  /** Every card on screen has a profile image, so its encode button is
      enabled exactly when the card is not busy. */
  lemma ShownCardsCanEncode(emps: seq<Employee>, activeFilter: string, encodingFilter: string, searchQuery: string, busy: bool)
    ensures forall e :: e in FilteredEmployees(emps, activeFilter, encodingFilter, searchQuery) ==> (CanEncode(e, busy) <==> !busy)
  {
  }

  // ---------------------------------------------------------------------
  // Counters

  datatype ScreenStats = ScreenStats(total: nat, active: nat, encoded: nat)

  /** `stats`, counted over the list on screen. */
  function Stats(shown: seq<Employee>): (st: ScreenStats)
    ensures st.total == |shown|
    ensures st.active == |Seqs.Filter(shown, IsActive)| && st.active <= st.total
    ensures st.encoded == |Seqs.Filter(shown, IsEncoded)| && st.encoded <= st.total
  {
    ScreenStats(|shown|, Seqs.Count(shown, IsActive), Seqs.Count(shown, IsEncoded))
  }

  /** The counters follow the filters: with "active" every shown employee
      is active, with "inactive" none is, and likewise for encodings. */
  lemma StatsUnderFilters(emps: seq<Employee>, activeFilter: string, encodingFilter: string, searchQuery: string)
    ensures var st := Stats(FilteredEmployees(emps, activeFilter, encodingFilter, searchQuery));
      && (activeFilter == "active" ==> st.active == st.total)
      && (activeFilter == "inactive" ==> st.active == 0)
      && (encodingFilter == "encoded" ==> st.encoded == st.total)
      && (encodingFilter == "pending" ==> st.encoded == 0)
  {
    var shown := FilteredEmployees(emps, activeFilter, encodingFilter, searchQuery);
    if activeFilter == "active" {
      Seqs.FilterAll(shown, IsActive);
    }
    if activeFilter == "inactive" {
      Seqs.FilterNone(shown, IsActive);
    }
    if encodingFilter == "encoded" {
      Seqs.FilterAll(shown, IsEncoded);
    }
    if encodingFilter == "pending" {
      Seqs.FilterNone(shown, IsEncoded);
    }
  }

  // ---------------------------------------------------------------------
  // Encoding one employee

  /** The body of a successful `encode_face/` reply (`None` for a null body). */
  datatype ReplyData = ReplyData(isActive: Option<bool>, currentFaceEncoding: Option<EncodingValue>)

  /** The request's outcome: a reply, or a failure with the server's `error`. */
  datatype EncodeReply = Replied(data: Option<ReplyData>) | Rejected(serverError: Field)

  /** The updated entry: encoded, active exactly when the reply says so
      (`Boolean(undefined)` is false), holding the reply's encoding or the
      literal `true`, and otherwise the entry it was. */
  function Encoded(e: Employee, data: Option<ReplyData>): (r: Employee)
    ensures IsEncoded(r) && r.currentFaceEncoding.Some?
    ensures r.encodingStatus == Str("Encoded")
    ensures r.isActive <==> data.Some? && data.value.isActive == Some(true)
    ensures data.Some? && data.value.currentFaceEncoding.Some? ==> r.currentFaceEncoding == data.value.currentFaceEncoding
    ensures !(data.Some? && data.value.currentFaceEncoding.Some?) ==> r.currentFaceEncoding == Some(Marker)
    ensures r.employeeId == e.employeeId && r.profileImage == e.profileImage && r.employeeName == e.employeeName
    ensures r.(isActive := e.isActive, encodingStatus := e.encodingStatus, currentFaceEncoding := e.currentFaceEncoding) == e
  {
    var d := data.GetOr(ReplyData(None, None));
    e.(isActive := d.isActive.GetOr(false),
       encodingStatus := Str("Encoded"),
       currentFaceEncoding := Some(d.currentFaceEncoding.GetOr(Marker)))
  }

  /** `encodeOne`: on a reply the list is mapped, updating the entries whose
      id is strictly equal to `id`; on a failure the list stays as it was and
      the alert shows the server's error or a fixed text. */
  function EncodeOne(emps: seq<Employee>, id: Field, reply: EncodeReply): (r: (seq<Employee>, Option<string>))
    ensures |r.0| == |emps|
    ensures forall i :: 0 <= i < |emps| && emps[i].employeeId != id ==> r.0[i] == emps[i]
    ensures reply.Replied? ==>
      && r.1 == None
      && forall i :: 0 <= i < |emps| && emps[i].employeeId == id ==> r.0[i] == Encoded(emps[i], reply.data)
    ensures reply.Rejected? ==>
      && r.0 == emps
      && r.1 == Some(if Truthy(reply.serverError) then reply.serverError.text else "Failed to generate encoding")
  {
    match reply
    case Rejected(err) => (emps, Some(if Truthy(err) then err.text else "Failed to generate encoding"))
    case Replied(data) =>
      (seq(|emps|, i requires 0 <= i < |emps| => if emps[i].employeeId == id then Encoded(emps[i], data) else emps[i]), None)
  }

  /** After a reply, every employee with that id counts as encoded and drops
      out of the "pending" view, while the number of encoded employees on
      the full list never decreases. */
  lemma EncodeOneEffect(emps: seq<Employee>, id: Field, data: Option<ReplyData>, activeFilter: string, searchQuery: string)
    ensures var after := EncodeOne(emps, id, Replied(data)).0;
      && (forall e :: e in after && e.employeeId == id ==> IsEncoded(e))
      && (forall e :: e in FilteredEmployees(after, activeFilter, "pending", searchQuery) ==> e.employeeId != id)
      && Seqs.Count(after, IsEncoded) >= Seqs.Count(emps, IsEncoded)
  {
    var after := EncodeOne(emps, id, Replied(data)).0;
    forall e | e in after && e.employeeId == id
      ensures IsEncoded(e)
    {
      var i :| 0 <= i < |after| && after[i] == e;
    }
    CountEncodedGrows(emps, after, id, data);
  }

  lemma {:induction false} CountEncodedGrows(emps: seq<Employee>, after: seq<Employee>, id: Field, data: Option<ReplyData>)
    requires |after| == |emps|
    requires forall i :: 0 <= i < |emps| ==> after[i] == if emps[i].employeeId == id then Encoded(emps[i], data) else emps[i]
    ensures Seqs.Count(after, IsEncoded) >= Seqs.Count(emps, IsEncoded)
  {
    if emps != [] {
      CountEncodedGrows(emps[1..], after[1..], id, data);
    }
  }

  /** Applying the same reply twice changes nothing more. */
  lemma EncodeOneIdempotent(emps: seq<Employee>, id: Field, data: Option<ReplyData>)
    ensures var once := EncodeOne(emps, id, Replied(data)).0;
      EncodeOne(once, id, Replied(data)).0 == once
  {
    var once := EncodeOne(emps, id, Replied(data)).0;
    var twice := EncodeOne(once, id, Replied(data)).0;
    forall i | 0 <= i < |emps|
      ensures twice[i] == once[i]
    {
      if emps[i].employeeId == id {
        assert once[i].employeeId == id;
      }
    }
  }
}
