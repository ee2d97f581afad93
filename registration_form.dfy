/** The client registration form of components/EventRegistrationForm.tsx: its field state,
    the ordered validation (missing field, email pattern, ten-digit phone) and the submit
    transition. */
module RegistrationForm {
  import opened Wrappers
  import opened Text

  datatype FormData = FormData(
    name: string,
    registrationNumber: string,
    year: string,
    branch: string,
    officialEmail: string,
    phoneNumber: string,
    event: string)

  const InitialFormState := FormData("", "", "", "", "", "", "")

  /** The keys of the form data, as `handleChange` names them. */
  datatype Field = Name | RegistrationNumber | Year | Branch | OfficialEmail | PhoneNumber | EventId

  function Get(d: FormData, f: Field): string
  {
    match f
    case Name => d.name
    case RegistrationNumber => d.registrationNumber
    case Year => d.year
    case Branch => d.branch
    case OfficialEmail => d.officialEmail
    case PhoneNumber => d.phoneNumber
    case EventId => d.event
  }

  /** `{ ...prev, [field]: value }`: the named field takes the value, every other keeps its own. */
  function With(d: FormData, f: Field, v: string): (r: FormData)
    ensures Get(r, f) == v
    ensures forall g :: g != f ==> Get(r, g) == Get(d, g)
  {
    match f
    case Name => d.(name := v)
    case RegistrationNumber => d.(registrationNumber := v)
    case Year => d.(year := v)
    case Branch => d.(branch := v)
    case OfficialEmail => d.(officialEmail := v)
    case PhoneNumber => d.(phoneNumber := v)
    case EventId => d.(event := v)
  }

  /** `Object.values(formData)`, in declaration order. */
  function Values(d: FormData): (vs: seq<string>)
    ensures |vs| == 7
    ensures forall f :: Get(d, f) in vs
    ensures forall v :: v in vs ==> exists f :: Get(d, f) == v
  {
    var vs := [d.name, d.registrationNumber, d.year, d.branch, d.officialEmail, d.phoneNumber, d.event];
    assert vs[0] == Get(d, Name) && vs[1] == Get(d, RegistrationNumber) && vs[2] == Get(d, Year);
    assert vs[3] == Get(d, Branch) && vs[4] == Get(d, OfficialEmail) && vs[5] == Get(d, PhoneNumber);
    assert vs[6] == Get(d, EventId);
    vs
  }

  /** `Object.values(formData).some((value) => !value)`. */
  predicate AnyMissing(d: FormData)
  {
    exists k :: 0 <= k < 7 && Values(d)[k] == ""
  }

  lemma AnyMissingIffSomeFieldEmpty(d: FormData)
    ensures AnyMissing(d) <==> exists f :: Get(d, f) == ""
  {
    if exists f :: Get(d, f) == "" {
      var f :| Get(d, f) == "";
      var vs := Values(d);
      assert Get(d, f) in vs;
      var k :| 0 <= k < |vs| && vs[k] == Get(d, f);
      assert Values(d)[k] == "";
    }
    if AnyMissing(d) {
      var k :| 0 <= k < 7 && Values(d)[k] == "";
      assert Values(d)[k] in Values(d);
    }
  }

  /** A character of the class `[^\s@]`. */
  predicate Plain(c: char)
  {
    c != '@' && !IsWhitespace(c)
  }

  /** A match of `[^\s@]+`. */
  predicate PlainRun(s: string)
  {
    |s| > 0 && forall k :: 0 <= k < |s| ==> Plain(s[k])
  }

  /** The regular expression `^[^\s@]+@[^\s@]+\.[^\s@]+$` matches `s`: `s` is a plain run, an
      `@`, a plain run, a dot and a plain run. */
  ghost predicate MatchesEmailRegex(s: string)
  {
    exists i, j :: 0 < i && i + 1 < j && j + 1 < |s| && s[i] == '@' && s[j] == '.'
      && PlainRun(s[..i]) && PlainRun(s[i + 1..j]) && PlainRun(s[j + 1..])
  }

  predicate NoWhitespace(s: string)
  {
    forall k :: 0 <= k < |s| ==> !IsWhitespace(s[k])
  }

  /** Position `i` holds the only `@` of `s`. */
  predicate OnlyAtSignAt(s: string, i: int)
  {
    0 <= i < |s| && s[i] == '@' && forall k :: 0 <= k < |s| && k != i ==> s[k] != '@'
  }

  /** The email check, stated as: no white space, exactly one `@` with something before it,
      and after the `@` a dot that is neither the first nor the last character. */
  function IsValidEmail(s: string): (r: bool)
    ensures r <==> MatchesEmailRegex(s)
  {
    if EmailShape(s) then
      EmailRegexSound(s);
      true
    else
      assert !MatchesEmailRegex(s) by {
        if MatchesEmailRegex(s) {
          EmailRegexComplete(s);
        }
      }
      false
  }

  predicate EmailShape(s: string)
  {
    NoWhitespace(s)
    && exists i :: 0 < i < |s| && OnlyAtSignAt(s, i) && exists j :: i + 1 < j < |s| - 1 && s[j] == '.'
  }

  lemma EmailRegexSound(s: string)
    requires EmailShape(s)
    ensures MatchesEmailRegex(s)
  {
    var i :| 0 < i < |s| && OnlyAtSignAt(s, i) && exists j :: i + 1 < j < |s| - 1 && s[j] == '.';
    var j :| i + 1 < j < |s| - 1 && s[j] == '.';
    assert PlainRun(s[..i]) && PlainRun(s[i + 1..j]) && PlainRun(s[j + 1..]) by {
      forall k | 0 <= k < |s| && k != i
        ensures Plain(s[k])
      {
      }
    }
  }

  lemma EmailRegexComplete(s: string)
    requires MatchesEmailRegex(s)
    ensures EmailShape(s)
  {
    var i, j :| 0 < i && i + 1 < j && j + 1 < |s| && s[i] == '@' && s[j] == '.'
      && PlainRun(s[..i]) && PlainRun(s[i + 1..j]) && PlainRun(s[j + 1..]);
    forall k | 0 <= k < |s| && k != i && k != j
      ensures Plain(s[k])
    {
      if k < i {
        assert s[k] == s[..i][k];
      } else if k < j {
        assert s[k] == s[i + 1..j][k - i - 1];
      } else {
        assert s[k] == s[j + 1..][k - j - 1];
      }
    }
    assert OnlyAtSignAt(s, i);
  }

  /** The phone check `^\d{10}$`: exactly ten decimal digits. */
  predicate IsValidPhone(s: string)
  {
    |s| == 10 && AllDigits(s)
  }

  /** The result of `validateForm`, naming the toast it shows on failure. */
  datatype Verdict = Passed | MissingFields | InvalidEmail | InvalidPhone

  function ToastTitle(v: Verdict): string
  {
    match v
    case Passed => ""
    case MissingFields => "Missing Fields"
    case InvalidEmail => "Invalid Email"
    case InvalidPhone => "Invalid Phone"
  }

  /** `validateForm`: the checks run in order and only the first failure is reported. */
  function ValidateForm(d: FormData): (v: Verdict)
    ensures v == MissingFields <==> exists f :: Get(d, f) == ""
    ensures v == InvalidEmail <==> (forall f :: Get(d, f) != "") && !MatchesEmailRegex(d.officialEmail)
    ensures v == InvalidPhone <==>
      (forall f :: Get(d, f) != "") && MatchesEmailRegex(d.officialEmail) && !IsValidPhone(d.phoneNumber)
    ensures v == Passed <==>
      (forall f :: Get(d, f) != "") && MatchesEmailRegex(d.officialEmail) && IsValidPhone(d.phoneNumber)
  {
    AnyMissingIffSomeFieldEmpty(d);
    if AnyMissing(d) then MissingFields
    else if !IsValidEmail(d.officialEmail) then InvalidEmail
    else if !IsValidPhone(d.phoneNumber) then InvalidPhone
    else Passed
  }

  /** What `await onSubmit?.(formData)` comes to: no handler given, a resolved boolean, or a
      thrown error. */
  datatype SubmitOutcome = NoHandler | Resolved(success: bool) | Threw

  /** The component's state: the form data and the submitting flag. */
  class Form {
    var formData: FormData
    var isSubmitting: bool

    constructor ()
      ensures formData == InitialFormState && !isSubmitting
    {
      formData := InitialFormState;
      isSubmitting := false;
    }

    /** `handleChange`: only the named field changes. */
    method HandleChange(f: Field, v: string)
      modifies this
      ensures formData == With(old(formData), f, v)
      ensures isSubmitting == old(isSubmitting)
    {
      formData := With(formData, f, v);
    }

    /** `handleSubmit`: an invalid form never reaches `onSubmit`; a valid one is sent, reset
        only when the handler resolves to true, and `isSubmitting` ends false in every case.
        `outcome` is what the handler does; `sent` is the data it was called with. */
    method HandleSubmit(outcome: SubmitOutcome) returns (sent: Option<FormData>)
      modifies this
      ensures ValidateForm(old(formData)) != Passed ==>
        sent == None && formData == old(formData) && isSubmitting == old(isSubmitting)
      ensures ValidateForm(old(formData)) == Passed ==>
        && sent == (if outcome.NoHandler? then None else Some(old(formData)))
        && formData == (if outcome == Resolved(true) then InitialFormState else old(formData))
        && !isSubmitting
    {
      if ValidateForm(formData) != Passed {
        return None;
      }
      isSubmitting := true;
      sent := if outcome.NoHandler? then None else Some(formData);
      if outcome == Resolved(true) {
        formData := InitialFormState;
      }
      isSubmitting := false;
    }
  }
}
