/** The login form of client/src/pages/Login.jsx: the field values, the
    error map that validation rebuilds, the email pattern, and what a
    submission does with the session. */
module LoginPage {
  import opened Seqs
  import opened Http
  import opened Text
  import opened UserController
  import opened AuthContext

  const EmailField := "email"
  const PasswordField := "password"

  const EmailRequired := "Email is required"
  const EmailInvalid := "Please enter a valid email address"
  const PasswordRequired := "Password is required"

  const FixErrors := "Please fix the validation errors"
  const LoginSucceeded := "Login successful!"
  const NoSuchUser := "User doesn't exist. Please register first."
  const WrongCredentials := "Invalid email or password."
  const TryAgain := "Login failed. Please try again."

  // ---- the email pattern ----

  /** A character of the class `[^\s@]`. */
  predicate PlainChar(c: char) {
    !IsSpace(c) && c != '@'
  }

  /** The whole string is a run of `[^\s@]`. */
  predicate AllPlain(s: string) {
    forall i | 0 <= i < |s| :: PlainChar(s[i])
  }

  /** The three runs of `/^[^\s@]+@[^\s@]+\.[^\s@]+$/`, cut at the `@` at
      position `at` and the `.` at position `dot`. */
  predicate RegexSplit(s: string, at: int, dot: int) {
    && 0 < at && at + 1 < dot && dot + 1 < |s|
    && AllPlain(s[..at]) && s[at] == '@'
    && AllPlain(s[at + 1..dot]) && s[dot] == '.'
    && AllPlain(s[dot + 1..])
  }

  /** `emailRegex.test(s)`: some way of cutting `s` matches the pattern. */
  predicate EmailRegexTest(s: string) {
    exists at, dot | 0 <= at < |s| && 0 <= dot < |s| :: RegexSplit(s, at, dot)
  }

  /** The same set of strings, described by their shape: no whitespace,
      exactly one `@` with something before it, and a `.` after it that is
      neither the first nor the last character of the domain. */
  predicate WellFormedEmail(s: string) {
    && NoSpace(s)
    && match IndexOf(s, '@')
       case None => false
       case Some(at) =>
         && at > 0
         && '@' !in s[at + 1..]
         && exists dot | at + 1 < dot < |s| - 1 :: s[dot] == '.'
  }

  lemma EmailRegexIffWellFormed(s: string)
    ensures EmailRegexTest(s) <==> WellFormedEmail(s)
  {
    if EmailRegexTest(s) {
      var at, dot :| 0 <= at < |s| && 0 <= dot < |s| && RegexSplit(s, at, dot);
      RegexSplitShape(s, at, dot);
    }
    if WellFormedEmail(s) {
      var at := IndexOf(s, '@').value;
      var dot :| at + 1 < dot < |s| - 1 && s[dot] == '.';
      ShapeRegexSplit(s, at, dot);
    }
  }

  lemma RegexSplitShape(s: string, at: int, dot: int)
    requires RegexSplit(s, at, dot)
    ensures WellFormedEmail(s)
  {
    forall i | 0 <= i < |s| ensures !IsSpace(s[i]) && (i != at ==> s[i] != '@') {
      if i < at {
        assert s[..at][i] == s[i];
      } else if at < i < dot {
        assert s[at + 1..dot][i - at - 1] == s[i];
      } else if dot < i {
        assert s[dot + 1..][i - dot - 1] == s[i];
      }
    }
    IndexOfAt(s, '@', at);
    var rest := s[at + 1..];
    forall j | 0 <= j < |rest| ensures rest[j] != '@' {
      assert rest[j] == s[at + 1 + j];
    }
  }

  lemma ShapeRegexSplit(s: string, at: nat, dot: int)
    requires WellFormedEmail(s) && IndexOf(s, '@') == Some(at)
    requires at + 1 < dot < |s| - 1 && s[dot] == '.'
    ensures RegexSplit(s, at, dot)
  {
    forall i | at < i < |s| ensures s[i] != '@' {
      assert s[at + 1..][i - at - 1] == s[i];
    }
    forall i | 0 <= i < |s[..at]| ensures PlainChar(s[..at][i]) {
      assert s[..at][i] == s[i];
    }
    var domain := s[at + 1..dot];
    forall i | 0 <= i < |domain| ensures PlainChar(domain[i]) {
      assert domain[i] == s[at + 1 + i];
    }
    var top := s[dot + 1..];
    forall i | 0 <= i < |top| ensures PlainChar(top[i]) {
      assert top[i] == s[dot + 1 + i];
    }
  }

  // ---- validation ----

  /** What validateForm accepts for the email field. */
  predicate EmailAccepted(email: string) {
    !IsBlank(email) && WellFormedEmail(Trim(email))
  }

  /** The error map validateForm builds. */
  function FormErrors(email: string, password: string): (errors: map<string, string>)
    ensures EmailField in errors <==> !EmailAccepted(email)
    ensures EmailField in errors ==> errors[EmailField] == (if IsBlank(email) then EmailRequired else EmailInvalid)
    ensures PasswordField in errors <==> password == ""
    ensures PasswordField in errors ==> errors[PasswordField] == PasswordRequired
    ensures forall k | k in errors :: k == EmailField || k == PasswordField
  {
    EmailRegexIffWellFormed(Trim(email));
    var withEmail: map<string, string> :=
      if IsBlank(email) then map[EmailField := EmailRequired]
      else if !EmailRegexTest(Trim(email)) then map[EmailField := EmailInvalid]
      else map[];
    if password == "" then withEmail[PasswordField := PasswordRequired] else withEmail
  }

  /** The form passes exactly when both fields do. */
  lemma NoErrorsIffBothFieldsPass(email: string, password: string)
    ensures FormErrors(email, password) == map[] <==> EmailAccepted(email) && password != ""
  {
    var e := FormErrors(email, password);
    if !EmailAccepted(email) { assert EmailField in e; }
    if password == "" { assert PasswordField in e; }
  }

  /** The password is checked as typed: a password of spaces passes. */
  lemma PasswordNotTrimmed(email: string)
    ensures PasswordField !in FormErrors(email, " ")
  {
  }

  /** What the catch block of handleSubmit shows for a thrown error. */
  function FailureToast(e: Thrown): (toast: string)
    ensures e.response.None? ==> toast == TryAgain
    ensures e.response.Some? && e.response.value.status == 404 ==> toast == NoSuchUser
    ensures e.response.Some? && e.response.value.status == 401 ==> toast == WrongCredentials
    ensures e.response.Some? && e.response.value.status != 404 && e.response.value.status != 401 ==>
              toast == (if e.response.value.message != "" then e.response.value.message else TryAgain)
  {
    var message := match e.response
      case Some(resp) => if resp.message != "" then resp.message else TryAgain
      case None => TryAgain;
    if e.response.Some? && e.response.value.status == 404 then NoSuchUser
    else if e.response.Some? && e.response.value.status == 401 then WrongCredentials
    else message
  }

  /** Whatever the server answers, a failed login through the session shows
      the generic toast, since the session rethrows without a response. */
  lemma LoginFailureToast(reply: Option<Reply<AuthPayload>>)
    ensures FailureToast(Thrown(FailureMessage(reply, LoginFailed), None)) == TryAgain
  {
  }

  /** What a submission showed and did. `sent` is the email and password
      passed to login, if it was called. */
  datatype Submitted = Submitted(toast: string, navigated: bool, sent: Option<(string, string)>)

  /** The page's state: `formData`, `errors` and `isLoading`. */
  class LoginForm {
    var form: map<string, string>
    var errors: map<string, string>
    var isLoading: bool

    predicate Valid()
      reads this
    {
      EmailField in form && PasswordField in form
    }

    constructor ()
      ensures Valid() && form == map[EmailField := "", PasswordField := ""]
      ensures errors == map[] && !isLoading
    {
      form := map[EmailField := "", PasswordField := ""];
      errors := map[];
      isLoading := false;
    }

    /** validateForm: rebuilds the error map field by field and reports
        whether it came out empty. */
    method ValidateForm() returns (ok: bool)
      requires Valid()
      modifies this
      ensures Valid() && form == old(form) && isLoading == old(isLoading)
      ensures errors == FormErrors(form[EmailField], form[PasswordField])
      ensures ok <==> errors == map[]
    {
      var email := form[EmailField];
      var newErrors: map<string, string> := map[];
      if IsBlank(email) {
        newErrors := newErrors[EmailField := EmailRequired];
      } else {
        if !EmailRegexTest(Trim(email)) {
          newErrors := newErrors[EmailField := EmailInvalid];
        }
      }
      if form[PasswordField] == "" {
        newErrors := newErrors[PasswordField := PasswordRequired];
      }
      errors := newErrors;
      ok := |newErrors| == 0;
      assert ok <==> newErrors == map[] by {
        if |newErrors| == 0 { assert newErrors.Keys == {}; }
      }
    }

    /** handleChange: the named field takes the value; an error shown for
        that field is set to the empty string; nothing else changes. */
    method HandleChange(name: string, value: string)
      requires Valid()
      modifies this
      ensures Valid() && form == old(form)[name := value] && isLoading == old(isLoading)
      ensures name in old(errors) && old(errors)[name] != "" ==> errors == old(errors)[name := ""]
      ensures !(name in old(errors) && old(errors)[name] != "") ==> errors == old(errors)
    {
      form := form[name := value];
      if name in errors && errors[name] != "" {
        errors := errors[name := ""];
      }
    }

    /** handleSubmit, where `reply` is the server's answer to the login
        request the session sends. An invalid form never calls login. */
    method HandleSubmit(session: Session, reply: Option<Reply<AuthPayload>>) returns (out: Submitted)
      requires Valid()
      modifies this, session
      ensures Valid() && form == old(form)
      ensures errors == FormErrors(old(form)[EmailField], old(form)[PasswordField])
      ensures errors != map[] ==>
                out == Submitted(FixErrors, false, None) && session.State() == old(session.State()) &&
                isLoading == old(isLoading)
      ensures errors == map[] ==> !isLoading && out.sent == Some((Trim(old(form)[EmailField]), old(form)[PasswordField]))
      ensures errors == map[] && reply.Some? && reply.value.Ok? ==>
                out.toast == LoginSucceeded && out.navigated &&
                session.State() == SignedIn(old(session.State()), reply.value.value)
      ensures errors == map[] && !(reply.Some? && reply.value.Ok?) ==>
                out.toast == TryAgain && !out.navigated && session.State() == old(session.State())
    {
      var ok := ValidateForm();
      if !ok {
        out := Submitted(FixErrors, false, None);
        return;
      }
      isLoading := true;
      var email := Trim(form[EmailField]);
      var password := form[PasswordField];
      var result := session.Login(email, password, reply);
      match result {
        case Signed(_) =>
          out := Submitted(LoginSucceeded, true, Some((email, password)));
        case Failed(e) =>
          out := Submitted(FailureToast(e), false, Some((email, password)));
      }
      isLoading := false;
    }
  }
}
