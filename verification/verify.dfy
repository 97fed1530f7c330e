/** The account-verification page: initial values read from the `email` query
    parameter, the field rules, the lock on the email field and the error message. */
module VerifyPage {
  import opened Wrappers
  import Text
  import opened FormValidation
  import FieldRules
  import Query
  import opened ApiErrors
  import LoginPage
  import Navigation

  const OtpRequired := "OTP is required"
  const DefaultError := "Failed to verify account. Please try again."
  const Verified := "Account verified successfully! You can now login."

  /** `searchParams.get("email")` for the page's URL. */
  function EmailParam(url: string): Option<string> {
    Query.SearchParam(url, "email")
  }

  /** The form starts with the `email` parameter (or "" without one) and an empty OTP. */
  function InitialValues(url: string): (values: map<string, Val>)
    ensures values.Keys == {"email", "otp"} && values["otp"] == Str("")
    ensures EmailParam(url).Some? ==> values["email"] == Str(EmailParam(url).value)
    ensures EmailParam(url).None? ==> values["email"] == Str("")
  {
    map["email" := Str(EmailParam(url).GetOr("")), "otp" := Str("")]
  }

  /** `disabled={!!searchParams.get("email")}`: the email field is locked when the
      parameter is present and non-empty; `?email=` leaves it editable. */
  predicate EmailLocked(url: string) {
    Usable(EmailParam(url))
  }

  const Rules: map<string, Rule> := map[
    "email" := (v: Val, values: map<string, Val>) => FieldRules.EmailRule(FieldRules.TextOf(v)),
    "otp" := (v: Val, values: map<string, Val>) => FieldRules.RequiredText(FieldRules.TextOf(v), OtpRequired)]

  lemma EmailVerdict(values: map<string, Val>)
    ensures Fails(Rules, values, "email") <==> !Text.LooksLikeEmail(FieldRules.TextOf(Member(Obj(values), "email")))
  {
    ReadField(values, "email");
    var v := GetNestedValue(values, "email");
    assert RuleResult(Rules, values, "email") == FieldRules.EmailRule(FieldRules.TextOf(v));
  }

  lemma OtpVerdict(values: map<string, Val>)
    ensures Fails(Rules, values, "otp") <==> Text.IsBlank(FieldRules.TextOf(Member(Obj(values), "otp")))
  {
    ReadField(values, "otp");
    var v := GetNestedValue(values, "otp");
    assert RuleResult(Rules, values, "otp") == FieldRules.RequiredText(FieldRules.TextOf(v), OtpRequired);
  }

  lemma RuleFields(field: string)
    requires field in Rules
    ensures field == "email" || field == "otp"
  {
  }

  /** The verify form validates exactly when the email matches the pattern and the
      OTP is not blank. */
  lemma ValidIff(values: map<string, Val>)
    ensures AllValid(Rules, values) <==>
      Text.LooksLikeEmail(FieldRules.TextOf(Member(Obj(values), "email")))
      && !Text.IsBlank(FieldRules.TextOf(Member(Obj(values), "otp")))
  {
    EmailVerdict(values);
    OtpVerdict(values);
    assert "email" in Rules && "otp" in Rules;
    forall field | field in Rules
      ensures field == "email" || field == "otp"
    {
      RuleFields(field);
    }
  }

  /** Straight after loading, the OTP is empty, so the form never validates untouched. */
  lemma InitialValuesRejected(url: string)
    ensures Fails(Rules, InitialValues(url), "otp")
    ensures !AllValid(Rules, InitialValues(url))
  {
    OtpVerdict(InitialValues(url));
    assert Text.IsBlank("");
    assert "otp" in Rules;
  }

  /** The catch block's message: `description?.message?.[0] || message || default`.
      Reading `description` off `null` or `undefined` throws inside the handler, so no
      message is set then. */
  function ErrorMessage(err: Thrown): (r: Option<string>)
    ensures err.Nullish? <==> r.None?
    ensures r.Some? ==> r.value != ""
    ensures err.Primitive? ==> r == Some(DefaultError)
    ensures err.ErrorObject? && err.description.Some? && Usable(FirstMessage(err.description.value)) ==>
      r == FirstMessage(err.description.value)
    ensures err.ErrorObject? && !(err.description.Some? && Usable(FirstMessage(err.description.value))) ==>
      r == if Usable(err.message) then err.message else Some(DefaultError)
  {
    match err
    case Nullish => None
    case Primitive => Some(DefaultError)
    case ErrorObject(message, description) =>
      var first := if description.Some? then FirstMessage(description.value) else None;
      if Usable(first) then first
      else if Usable(message) then message
      else Some(DefaultError)
  }

  /** The login and verify pages pick the same message for an error object except when
      no first validation message is usable and `message` is missing or empty: then the
      verify page falls back to its default text, while the login page shows the bare
      `message` (with a `description`) or its own default text (without one). */
  lemma AgreesWithLogin(err: Thrown)
    requires err.ErrorObject?
    ensures Usable(err.message) || (err.description.Some? && Usable(FirstMessage(err.description.value))) ==>
      ErrorMessage(err) == LoginPage.ErrorMessage(err)
    ensures !Usable(err.message) && !(err.description.Some? && Usable(FirstMessage(err.description.value))) ==>
      ErrorMessage(err) == Some(DefaultError) && ErrorMessage(err) != LoginPage.ErrorMessage(err)
  {
  }

  /** The body `handleSubmit` posts to the verify endpoint. */
  datatype VerifyRequest = VerifyRequest(email: string, otp: string)

  /** The request `handleSubmit` sends: the form's email and OTP, and only when the form
      validates, so the email then matches the pattern and the OTP is not blank. */
  function Request(values: map<string, Val>): (r: Option<VerifyRequest>)
    ensures r.Some? <==> AllValid(Rules, values)
    ensures r.Some? ==>
      && r.value.email == FieldRules.TextOf(Member(Obj(values), "email"))
      && r.value.otp == FieldRules.TextOf(Member(Obj(values), "otp"))
    ensures r.Some? ==> Text.LooksLikeEmail(r.value.email) && !Text.IsBlank(r.value.otp)
  {
    if AllValid(Rules, values) then
      ValidIff(values);
      Some(VerifyRequest(FieldRules.TextOf(Member(Obj(values), "email")), FieldRules.TextOf(Member(Obj(values), "otp"))))
    else None
  }

  /** The backend verify call either succeeds or throws (a response that is not `ok`
      throws its body). */
  datatype Response = Confirmed | Threw(err: Thrown)

  datatype Outcome =
    | NotSubmitted
    | ShowError(message: Option<string>)
    | Success(notice: string, next: Navigation.Destination)

  /** `handleSubmit`: nothing happens unless the form validates; success shows the
      confirmation and later moves to the login page; a failure shows its message. */
  function HandleSubmit(values: map<string, Val>, response: Response): (r: Outcome)
    ensures r.NotSubmitted? <==> !AllValid(Rules, values)
    ensures r.Success? <==> AllValid(Rules, values) && response.Confirmed?
    ensures r.Success? ==> r.next == Navigation.Login && r.notice == Verified
    ensures r.ShowError? ==> response.Threw? && r.message == ErrorMessage(response.err)
  {
    if !AllValid(Rules, values) then NotSubmitted
    else match response
      case Confirmed => Success(Verified, Navigation.Login)
      case Threw(err) => ShowError(ErrorMessage(err))
  }

  /** The hand-off from the login page through the corrected (encoded) link: an inactive
      account's verify page opens with its own email filled in, and locked exactly when
      that email is not empty. */
  lemma LoginHandOff(u: LoginPage.ExistingUser, authRedirect: Navigation.Destination)
    requires !u.isActive
    ensures InitialValues(LoginPage.PostLoginPath(u, authRedirect))["email"] == Str(u.email)
    ensures EmailLocked(LoginPage.PostLoginPath(u, authRedirect)) <==> u.email != ""
  {
    LoginPage.VerifyLinkCarriesEmail(u, authRedirect);
  }

  /** As written, the login page puts the email into the link unencoded, so every '+'
      of an address arrives on the verify page as a space. The email is taken to hold
      no space or control character: the URL parser drops tabs and line breaks and
      trims such characters from the end, which the query model leaves out. */
  lemma AsWrittenLinkLosesPlus(u: LoginPage.ExistingUser, authRedirect: Navigation.Destination)
    requires !u.isActive && '&' !in u.email && '#' !in u.email && '%' !in u.email
    requires forall i :: 0 <= i < |u.email| ==> u.email[i] > ' '
    ensures var v := InitialValues(LoginPage.PostLoginPathAsWritten(u, authRedirect))["email"];
      && v.Str? && |v.s| == |u.email|
      && forall i :: 0 <= i < |u.email| ==> v.s[i] == if u.email[i] == '+' then ' ' else u.email[i]
    ensures '+' in u.email ==> InitialValues(LoginPage.PostLoginPathAsWritten(u, authRedirect))["email"] != Str(u.email)
  {
    var url := LoginPage.PostLoginPathAsWritten(u, authRedirect);
    assert url == "/verify" + "?" + "email" + "=" + u.email;
    Query.SingleParam("/verify", "email", u.email);
    Query.DecodeWithoutEscapes(u.email);
    if '+' in u.email {
      var i :| 0 <= i < |u.email| && u.email[i] == '+';
      assert Query.Decode(u.email)[i] == ' ';
    }
  }

  /** The hand-off through the link the login page builds: an email with no '+', '&',
      '#', '%', space or control character arrives unchanged, locked exactly when it is
      not empty. */
  lemma LoginHandOffAsWritten(u: LoginPage.ExistingUser, authRedirect: Navigation.Destination)
    requires !u.isActive && '+' !in u.email && '&' !in u.email && '#' !in u.email && '%' !in u.email
    requires forall i :: 0 <= i < |u.email| ==> u.email[i] > ' '
    ensures InitialValues(LoginPage.PostLoginPathAsWritten(u, authRedirect))["email"] == Str(u.email)
    ensures EmailLocked(LoginPage.PostLoginPathAsWritten(u, authRedirect)) <==> u.email != ""
  {
    AsWrittenLinkLosesPlus(u, authRedirect);
    var v := InitialValues(LoginPage.PostLoginPathAsWritten(u, authRedirect))["email"];
    assert v.s == u.email;
  }

  /** One such address: "a+b@x.co" is shown, locked, as "a b@x.co", which the email
      rule accepts, so the form can be submitted with an address that is not the
      account's. */
  lemma SpacedAddressAccepted()
    ensures Query.Decode("a+b@x.co") == "a b@x.co"
    ensures FieldRules.EmailRule("a b@x.co").None?
  {
    PlusDecodes();
    assert Text.EmailWitness("a b@x.co", 3, 5);
  }

  lemma PlusDecodes()
    ensures Query.Decode("a+b@x.co") == "a b@x.co"
  {
    var s := "a+b@x.co";
    assert s[1..] == "+b@x.co" && s[1..][1..] == "b@x.co";
    assert Query.Decode("o") == "o";
    assert Query.Decode("co") == "co";
    assert Query.Decode(".co") == ".co";
    assert Query.Decode("x.co") == "x.co";
    assert Query.Decode("@x.co") == "@x.co";
    assert Query.Decode("b@x.co") == "b@x.co";
    assert Query.Decode("+b@x.co") == " b@x.co";
  }
}
