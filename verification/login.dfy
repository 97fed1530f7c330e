/** The login page: its field rules, the redirect after a successful login and the
    message shown when logging in fails. */
module LoginPage {
  import opened Wrappers
  import Text
  import opened FormValidation
  import FieldRules
  import Auth
  import Query
  import opened ApiErrors
  import opened Navigation

  const PasswordRequired := "Password is required"
  const DefaultError := "Failed to log in. Please try again."
  /** The message of the `Error` the auth hook throws when no stored user matches. */
  const InvalidCredentials := "Invalid credentials"

  const InitialValues: map<string, Val> := map["email" := Str(""), "password" := Str("")]

  /** The password rule: only the empty string is rejected (no trimming, no length). */
  function PasswordRule(value: string): (r: Option<string>)
    ensures r.None? <==> value != ""
    ensures r.Some? ==> r.value == PasswordRequired
  {
    if value == "" then Some(PasswordRequired) else None
  }

  const Rules: map<string, Rule> := map[
    "email" := (v: Val, values: map<string, Val>) => FieldRules.EmailRule(FieldRules.TextOf(v)),
    "password" := (v: Val, values: map<string, Val>) => PasswordRule(FieldRules.TextOf(v))]

  function EmailOf(values: map<string, Val>): string {
    FieldRules.TextOf(Member(Obj(values), "email"))
  }

  function PasswordOf(values: map<string, Val>): string {
    FieldRules.TextOf(Member(Obj(values), "password"))
  }

  lemma EmailVerdict(values: map<string, Val>)
    ensures Fails(Rules, values, "email") <==> !Text.LooksLikeEmail(EmailOf(values))
  {
    ReadField(values, "email");
    var v := GetNestedValue(values, "email");
    assert RuleResult(Rules, values, "email") == FieldRules.EmailRule(FieldRules.TextOf(v));
  }

  lemma PasswordVerdict(values: map<string, Val>)
    ensures Fails(Rules, values, "password") <==> PasswordOf(values) == ""
  {
    ReadField(values, "password");
    var v := GetNestedValue(values, "password");
    assert RuleResult(Rules, values, "password") == PasswordRule(FieldRules.TextOf(v));
  }

  lemma RuleFields(field: string)
    requires field in Rules
    ensures field == "email" || field == "password"
  {
  }

  /** The login form validates exactly when the email matches the pattern and a
      password, of any length, was typed. */
  lemma ValidIff(values: map<string, Val>)
    ensures AllValid(Rules, values) <==> Text.LooksLikeEmail(EmailOf(values)) && PasswordOf(values) != ""
  {
    EmailVerdict(values);
    PasswordVerdict(values);
    if AllValid(Rules, values) {
      assert "email" in Rules && "password" in Rules;
    } else {
      var field :| field in Rules && Fails(Rules, values, field);
      RuleFields(field);
    }
  }

  /** The part of the backend's `existingUser` the page reads. */
  datatype ExistingUser = ExistingUser(userId: string, email: string, fullName: string, isActive: bool, hasProfile: bool)

  /** The backend login call either answers or throws. */
  datatype Response = Answered(existing: ExistingUser) | Threw(err: Thrown)

  datatype Outcome =
    | NotSubmitted
    | ShowError(message: Option<string>)
    | Redirect(path: string)

  /** The catch block's message: with a `description`, its first message if that is
      non-empty, else `message` as it is; without one, `message` if non-empty, else the
      default text; anything that is not an object also gets the default text. */
  function ErrorMessage(err: Thrown): (r: Option<string>)
    ensures !err.ErrorObject? ==> r == Some(DefaultError)
    ensures err.ErrorObject? && err.description.Some? && Usable(FirstMessage(err.description.value)) ==>
      r == FirstMessage(err.description.value)
    ensures err.ErrorObject? && err.description.Some? && !Usable(FirstMessage(err.description.value)) ==>
      r == err.message
    ensures err.ErrorObject? && err.description.None? ==>
      r == if Usable(err.message) then err.message else Some(DefaultError)
  {
    match err
    case ErrorObject(message, Some(d)) =>
      var first := FirstMessage(d);
      if Usable(first) then first else message
    case ErrorObject(message, None) =>
      if Usable(message) then message else Some(DefaultError)
    case _ => Some(DefaultError)
  }

  /** Without a `description`, or with a usable first message, the page always shows a
      non-empty message; only a `description` with no usable first message can leave
      it empty or unset. */
  lemma ErrorMessageShown(err: Thrown)
    ensures Usable(ErrorMessage(err)) <==>
      !(err.ErrorObject? && err.description.Some? && !Usable(FirstMessage(err.description.value)) && !Usable(err.message))
  {
  }

  /** The redirect after a login, as written: an inactive account goes to the verify
      page with its email put into the link as is (not encoded), an active one without a
      profile to the onboarding page, and every other one where `handleAuthRedirect`
      sends it. */
  function PostLoginPathAsWritten(u: ExistingUser, authRedirect: Destination): (r: string)
    ensures !u.isActive ==> r == "/verify?email=" + u.email
    ensures u.isActive && !u.hasProfile ==> RouteOf(r) == Some(Onboarding)
    ensures u.isActive && u.hasProfile ==> RouteOf(r) == Some(authRedirect)
  {
    PathsNameTheirPage(Onboarding);
    PathsNameTheirPage(authRedirect);
    if !u.isActive then "/verify?email=" + u.email
    else if !u.hasProfile then Path(Onboarding)
    else Path(authRedirect)
  }

  /** The redirect after a login as intended: an inactive account goes to the verify page with its
      email as the (encoded) `email` parameter, an active one without a profile to the
      onboarding page, and every other one where `handleAuthRedirect` sends it. */
  function PostLoginPath(u: ExistingUser, authRedirect: Destination): (r: string)
    ensures !u.isActive ==> r == "/verify?email=" + Query.EncodeURIComponent(u.email)
    ensures u.isActive && !u.hasProfile ==> RouteOf(r) == Some(Onboarding)
    ensures u.isActive && u.hasProfile ==> RouteOf(r) == Some(authRedirect)
  {
    PathsNameTheirPage(Onboarding);
    PathsNameTheirPage(authRedirect);
    if !u.isActive then "/verify?email=" + Query.EncodeURIComponent(u.email)
    else if !u.hasProfile then Path(Onboarding)
    else Path(authRedirect)
  }

  /** The corrected verify link of an inactive account hands over its email intact,
      whatever characters it holds. */
  lemma VerifyLinkCarriesEmail(u: ExistingUser, authRedirect: Destination)
    requires !u.isActive
    ensures Query.SearchParam(PostLoginPath(u, authRedirect), "email") == Some(u.email)
  {
    var e := Query.EncodeURIComponent(u.email);
    assert "/verify?email=" + e == "/verify" + "?" + "email" + "=" + e;
    Query.SingleParam("/verify", "email", e);
    Query.DecodeEncode(u.email);
  }

  /** The user record the page writes to the storage slot before calling the auth
      context's `login`: no user type, not onboarded. */
  function StoredRecord(u: ExistingUser): (r: Auth.User)
    ensures r.id == u.userId && r.email == u.email && r.name == u.fullName
    ensures r.userType.None? && !r.isOnboarded && r.hasProfile == u.hasProfile
  {
    Auth.User(u.userId, u.email, u.fullName, None, false, u.hasProfile)
  }

  /** `handleSubmit`: nothing happens unless the form validates; a thrown backend call
      shows its message; otherwise the answer is stored, the auth context logs in with
      the typed email (it throws "Invalid credentials" when the stored email differs)
      and the page redirects. `authRedirect` is where `handleAuthRedirect` would go. */
  function HandleSubmit(values: map<string, Val>, s: Auth.AuthState, response: Response, authRedirect: Destination)
    : (r: (Auth.AuthState, Outcome))
    ensures r.1.NotSubmitted? <==> !AllValid(Rules, values)
    ensures r.1.NotSubmitted? ==> r.0 == s
    ensures AllValid(Rules, values) && response.Threw? ==> r == (s, ShowError(ErrorMessage(response.err)))
    ensures r.1.Redirect? <==> AllValid(Rules, values) && response.Answered? && response.existing.email == EmailOf(values)
    ensures r.1.Redirect? ==>
      && r.1.path == PostLoginPathAsWritten(response.existing, authRedirect)
      && r.0.user == Some(StoredRecord(response.existing))
      && r.0.stored == r.0.user
    ensures AllValid(Rules, values) && response.Answered? && response.existing.email != EmailOf(values) ==>
      && r.1 == ShowError(Some(InvalidCredentials))
      && r.0.user == s.user
      && r.0.error == Some(Auth.LoginFailedMessage)
  {
    if !AllValid(Rules, values) then (s, NotSubmitted)
    else match response
      case Threw(err) => (s, ShowError(ErrorMessage(err)))
      case Answered(u) =>
        var stored := s.(stored := Some(StoredRecord(u)));
        var login := Auth.Login(stored, EmailOf(values), PasswordOf(values));
        if login.result.None? then (login.state, ShowError(ErrorMessage(Raised(InvalidCredentials))))
        else (login.state, Redirect(PostLoginPathAsWritten(u, authRedirect)))
  }
}
