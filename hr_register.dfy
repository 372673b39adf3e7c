/** The HR registration form: the password strength meter and the form's
    state through edits and a submission. The registration request's
    outcome is an input. */
module HrRegister {
  import opened Wrappers

  // ---------------------------------------------------------------------
  // Password strength

  predicate HasUpper(p: string) {
    exists i :: 0 <= i < |p| && 'A' <= p[i] <= 'Z'
  }

  predicate HasDigit(p: string) {
    exists i :: 0 <= i < |p| && '0' <= p[i] <= '9'
  }

  predicate IsAsciiAlnum(c: char) {
    'A' <= c <= 'Z' || 'a' <= c <= 'z' || '0' <= c <= '9'
  }

  /** `/[^A-Za-z0-9]/.test(p)` */
  predicate HasSymbol(p: string) {
    exists i :: 0 <= i < |p| && !IsAsciiAlnum(p[i])
  }

  /** The number of the four criteria `p` meets. */
  function CriteriaMet(p: string): (n: nat)
    ensures n <= 4
  {
    (if |p| >= 8 then 1 else 0) + (if HasUpper(p) then 1 else 0)
    + (if HasDigit(p) then 1 else 0) + (if HasSymbol(p) then 1 else 0)
  }

  /** The meter's score: four guarded additions of 25. */
  function StrengthScore(p: string): (score: nat)
    ensures score == 25 * CriteriaMet(p)
    ensures score in {0, 25, 50, 75, 100}
  {
    var score := 0;
    var score := if |p| >= 8 then score + 25 else score;
    var score := if HasUpper(p) then score + 25 else score;
    var score := if HasDigit(p) then score + 25 else score;
    var score := if HasSymbol(p) then score + 25 else score;
    score
  }

  /** The empty password scores 0; one that meets every criterion scores 100. */
  lemma StrengthExtremes(p: string)
    ensures StrengthScore("") == 0
    ensures StrengthScore(p) == 100 <==> |p| >= 8 && HasUpper(p) && HasDigit(p) && HasSymbol(p)
    ensures StrengthScore(p) == 0 <==> |p| < 8 && !HasUpper(p) && !HasDigit(p) && !HasSymbol(p)
  {
  }

  /** Typing more characters never lowers the score. */
  lemma StrengthMonotone(p: string, q: string)
    ensures StrengthScore(p) <= StrengthScore(p + q)
  {
    var pq := p + q;
    if HasUpper(p) {
      var i :| 0 <= i < |p| && 'A' <= p[i] <= 'Z';
      assert pq[i] == p[i];
    }
    if HasDigit(p) {
      var i :| 0 <= i < |p| && '0' <= p[i] <= '9';
      assert pq[i] == p[i];
    }
    if HasSymbol(p) {
      var i :| 0 <= i < |p| && !IsAsciiAlnum(p[i]);
      assert pq[i] == p[i];
    }
  }

  datatype MeterColour = Red | Amber | Green

  /** `bg`: red below 50, amber below 75, green otherwise. */
  function Colour(score: int): MeterColour {
    if score < 50 then Red else if score < 75 then Amber else Green
  }

  /** On the scores the meter can show: red for at most one criterion, amber
      for two, green for three or four. */
  lemma ColourByCriteria(p: string)
    ensures Colour(StrengthScore(p)) == Red <==> CriteriaMet(p) <= 1
    ensures Colour(StrengthScore(p)) == Amber <==> CriteriaMet(p) == 2
    ensures Colour(StrengthScore(p)) == Green <==> CriteriaMet(p) >= 3
  {
  }

  // ---------------------------------------------------------------------
  // The form

  /** The body of a `hrregistration/` POST. */
  datatype Request = Request(name: string, role: string, password: string, confirmPassword: string)

  /** The POST's outcome: accepted, or rejected with the server's `error`. */
  datatype Outcome = Accepted | Rejected(serverError: Option<string>)

  /** The form's state; `sent` lists the requests issued so far. */
  datatype Form = Form(
    name: string, role: string, password: string, confirmPassword: string,
    message: string, success: bool, loading: bool, sent: seq<Request>)

  /** The input fields `handleChange` can be called for. */
  datatype FieldName = Name | Role | Password | ConfirmPassword

  /** `handleChange`: the named field takes the value. */
  function Change(f: Form, field: FieldName, value: string): (r: Form)
    ensures field == Name ==> r == f.(name := value)
    ensures field == Role ==> r == f.(role := value)
    ensures field == Password ==> r == f.(password := value)
    ensures field == ConfirmPassword ==> r == f.(confirmPassword := value)
  {
    match field
    case Name => f.(name := value)
    case Role => f.(role := value)
    case Password => f.(password := value)
    case ConfirmPassword => f.(confirmPassword := value)
  }

  /** `handleSubmit` once the request (if any) has settled. */
  function Submit(f: Form, outcome: Outcome): (r: Form)
    ensures f.password != f.confirmPassword ==>
      r == f.(message := "Passwords do not match", success := false)
    ensures f.password == f.confirmPassword ==>
      && r.sent == f.sent + [Request(f.name, f.role, f.password, f.confirmPassword)]
      && !r.loading
      && (outcome.Accepted? ==>
            (r.message == "Registration successful!" && r.success
             && r.name == "" && r.role == "" && r.password == "" && r.confirmPassword == ""))
      && (outcome.Rejected? ==>
            (!r.success
             && r.name == f.name && r.role == f.role && r.password == f.password && r.confirmPassword == f.confirmPassword))
  {
    if f.password != f.confirmPassword then f.(message := "Passwords do not match", success := false)
    else
      var posting := f.(loading := true, sent := f.sent + [Request(f.name, f.role, f.password, f.confirmPassword)]);
      var settled :=
        match outcome
        case Accepted =>
          posting.(message := "Registration successful!", success := true,
                   name := "", role := "", password := "", confirmPassword := "")
        case Rejected(err) =>
          posting.(message := if err.Some? && err.value != "" then err.value else "Registration failed. Please try again.",
                   success := false);
      settled.(loading := false)
  }

  /** A request is issued exactly when the passwords match, and it carries
      the form's fields; a rejection shows the server's error or a fixed
      text, and never reports success. */
  lemma SubmitMeaning(f: Form, outcome: Outcome)
    ensures |Submit(f, outcome).sent| == |f.sent| + (if f.password == f.confirmPassword then 1 else 0)
    ensures Submit(f, outcome).success <==> f.password == f.confirmPassword && outcome.Accepted?
    ensures f.password == f.confirmPassword && outcome.Rejected? ==>
      Submit(f, outcome).message ==
        if outcome.serverError.Some? && outcome.serverError.value != "" then outcome.serverError.value
        else "Registration failed. Please try again."
  {
  }

  /** After a successful registration the form is empty, so an immediate
      second submit (two empty passwords match) sends an empty request. */
  lemma ResubmitAfterSuccess(f: Form, outcome: Outcome)
    requires f.password == f.confirmPassword
    ensures var g := Submit(Submit(f, Accepted), outcome);
      g.sent[|g.sent| - 1] == Request("", "", "", "")
  {
  }

  /** Editing one field never touches the others or the message. */
  lemma ChangeIsLocal(f: Form, field: FieldName, value: string)
    ensures var r := Change(f, field, value);
      && r.message == f.message && r.success == f.success && r.sent == f.sent
      && (field != Name ==> r.name == f.name)
      && (field != Role ==> r.role == f.role)
      && (field != Password ==> r.password == f.password)
      && (field != ConfirmPassword ==> r.confirmPassword == f.confirmPassword)
  {
  }

  /** The form component: its state variables as fields, changed in place by
      the handlers. */
  class RegisterForm {
    var name: string
    var role: string
    var password: string
    var confirmPassword: string
    var message: string
    var success: bool
    var loading: bool
    var sent: seq<Request>

    /** The form's state as a value. */
    function State(): Form
      reads this
    {
      Form(name, role, password, confirmPassword, message, success, loading, sent)
    }

    /** The initial state: empty fields, no message, nothing sent. */
    constructor ()
      ensures State() == Form("", "", "", "", "", false, false, [])
    {
      name, role, password, confirmPassword := "", "", "", "";
      message, success, loading := "", false, false;
      sent := [];
    }

    method HandleChange(field: FieldName, value: string)
      modifies this
      ensures State() == Change(old(State()), field, value)
    {
      match field
      case Name => name := value;
      case Role => role := value;
      case Password => password := value;
      case ConfirmPassword => confirmPassword := value;
    }

    /** The meter for the current password. */
    method Strength() returns (score: nat, bg: MeterColour)
      ensures score == StrengthScore(password) && bg == Colour(score)
    {
      score := StrengthScore(password);
      bg := Colour(score);
    }

    method HandleSubmit(outcome: Outcome)
      modifies this
      ensures State() == Submit(old(State()), outcome)
    {
      if password != confirmPassword {
        message := "Passwords do not match";
        success := false;
        return;
      }
      loading := true;
      sent := sent + [Request(name, role, password, confirmPassword)];
      match outcome {
        case Accepted =>
          message := "Registration successful!";
          success := true;
          name, role, password, confirmPassword := "", "", "", "";
        case Rejected(err) =>
          message := if err.Some? && err.value != "" then err.value else "Registration failed. Please try again.";
          success := false;
      }
      loading := false;
    }
  }
}
