/** The sign-up page: its initial values, field rules and submit gating. */
module SignupPage {
  import opened Wrappers
  import Text
  import opened FormValidation
  import FieldRules

  const NameRequired := "Name is required"
  const PasswordRequired := "Password is required"
  const PasswordTooShort := "Password must be at least 6 characters"
  const ConfirmRequired := "Please confirm your password"
  const PasswordsDiffer := "Passwords do not match"
  const UserTypeRequired := "Please select a user type"

  /** The form starts empty, with the user type defaulting to "student". */
  const InitialValues: map<string, Val> := map[
    "name" := Str(""),
    "email" := Str(""),
    "password" := Str(""),
    "confirmPassword" := Str(""),
    "userType" := Str("student")]

  /** The password rule: required, then at least six characters. */
  function PasswordRule(value: string): (r: Option<string>)
    ensures value == "" ==> r == Some(PasswordRequired)
    ensures value != "" && |value| < 6 ==> r == Some(PasswordTooShort)
    ensures r.None? <==> |value| >= 6
  {
    if value == "" then Some(PasswordRequired)
    else if |value| < 6 then Some(PasswordTooShort)
    else None
  }

  /** The confirmation rule: required, then equal to the form's current password. */
  function ConfirmPasswordRule(value: string, password: string): (r: Option<string>)
    ensures value == "" ==> r == Some(ConfirmRequired)
    ensures value != "" && value != password ==> r == Some(PasswordsDiffer)
    ensures r.None? <==> value != "" && value == password
  {
    if value == "" then Some(ConfirmRequired)
    else if value != password then Some(PasswordsDiffer)
    else None
  }

  /** `form.values.password`. */
  function PasswordOf(values: map<string, Val>): string {
    FieldRules.TextOf(Member(Obj(values), "password"))
  }

  const Rules: map<string, Rule> := map[
    "name" := (v: Val, values: map<string, Val>) => FieldRules.RequiredText(FieldRules.TextOf(v), NameRequired),
    "email" := (v: Val, values: map<string, Val>) => FieldRules.EmailRule(FieldRules.TextOf(v)),
    "password" := (v: Val, values: map<string, Val>) => PasswordRule(FieldRules.TextOf(v)),
    "confirmPassword" := (v: Val, values: map<string, Val>) => ConfirmPasswordRule(FieldRules.TextOf(v), PasswordOf(values)),
    "userType" := (v: Val, values: map<string, Val>) => FieldRules.RequiredValue(v, UserTypeRequired)]

  /** The arguments `handleSubmit` passes to `signup`. */
  datatype SignupRequest = SignupRequest(email: string, password: string, name: string, userType: Val)

  /** `handleSubmit`: `signup` is called, with the form's fields, only when every rule
      passes; then the email matches the pattern, the name is not blank, the password
      has at least six characters and equals its confirmation. */
  function HandleSubmit(values: map<string, Val>): (r: Option<SignupRequest>)
    ensures r.Some? <==> AllValid(Rules, values)
    ensures r.Some? ==> Text.LooksLikeEmail(r.value.email)
    ensures r.Some? ==> !Text.IsBlank(r.value.name)
    ensures r.Some? ==> |r.value.password| >= 6
    ensures r.Some? ==> r.value.password == FieldRules.TextOf(Member(Obj(values), "confirmPassword"))
    ensures r.Some? ==> Truthy(r.value.userType)
    ensures r.Some? ==>
      && r.value.email == FieldRules.TextOf(Member(Obj(values), "email"))
      && r.value.password == PasswordOf(values)
      && r.value.name == FieldRules.TextOf(Member(Obj(values), "name"))
      && r.value.userType == Member(Obj(values), "userType")
  {
    if AllValid(Rules, values) then
      var request := SignupRequest(
        FieldRules.TextOf(Member(Obj(values), "email")),
        PasswordOf(values),
        FieldRules.TextOf(Member(Obj(values), "name")),
        Member(Obj(values), "userType"));
      SubmitImplies(values);
      Some(request)
    else None
  }

  /** What each rule's verdict says about the field it reads. */
  lemma RuleVerdicts(values: map<string, Val>)
    ensures Fails(Rules, values, "email") <==> !Text.LooksLikeEmail(FieldRules.TextOf(Member(Obj(values), "email")))
    ensures Fails(Rules, values, "name") <==> Text.IsBlank(FieldRules.TextOf(Member(Obj(values), "name")))
    ensures Fails(Rules, values, "password") <==> |PasswordOf(values)| < 6
    ensures Fails(Rules, values, "confirmPassword") <==>
      FieldRules.TextOf(Member(Obj(values), "confirmPassword")) == "" || FieldRules.TextOf(Member(Obj(values), "confirmPassword")) != PasswordOf(values)
    ensures Fails(Rules, values, "userType") <==> !Truthy(Member(Obj(values), "userType"))
  {
    EmailVerdict(values);
    NameVerdict(values);
    PasswordVerdict(values);
    ConfirmVerdict(values);
    UserTypeVerdict(values);
  }

  lemma EmailVerdict(values: map<string, Val>)
    ensures Fails(Rules, values, "email") <==> !Text.LooksLikeEmail(FieldRules.TextOf(Member(Obj(values), "email")))
  {
    ReadField(values, "email");
    var v := GetNestedValue(values, "email");
    assert RuleResult(Rules, values, "email") == FieldRules.EmailRule(FieldRules.TextOf(v));
  }

  lemma NameVerdict(values: map<string, Val>)
    ensures Fails(Rules, values, "name") <==> Text.IsBlank(FieldRules.TextOf(Member(Obj(values), "name")))
  {
    ReadField(values, "name");
    var v := GetNestedValue(values, "name");
    assert RuleResult(Rules, values, "name") == FieldRules.RequiredText(FieldRules.TextOf(v), NameRequired);
  }

  lemma PasswordVerdict(values: map<string, Val>)
    ensures Fails(Rules, values, "password") <==> |PasswordOf(values)| < 6
  {
    ReadField(values, "password");
    var v := GetNestedValue(values, "password");
    assert RuleResult(Rules, values, "password") == PasswordRule(FieldRules.TextOf(v));
  }

  lemma ConfirmVerdict(values: map<string, Val>)
    ensures Fails(Rules, values, "confirmPassword") <==>
      FieldRules.TextOf(Member(Obj(values), "confirmPassword")) == "" || FieldRules.TextOf(Member(Obj(values), "confirmPassword")) != PasswordOf(values)
  {
    ReadField(values, "confirmPassword");
    var v := GetNestedValue(values, "confirmPassword");
    assert RuleResult(Rules, values, "confirmPassword") == ConfirmPasswordRule(FieldRules.TextOf(v), PasswordOf(values));
  }

  lemma UserTypeVerdict(values: map<string, Val>)
    ensures Fails(Rules, values, "userType") <==> !Truthy(Member(Obj(values), "userType"))
  {
    ReadField(values, "userType");
    var v := GetNestedValue(values, "userType");
    assert RuleResult(Rules, values, "userType") == FieldRules.RequiredValue(v, UserTypeRequired);
  }

  lemma SubmitImplies(values: map<string, Val>)
    requires AllValid(Rules, values)
    ensures Text.LooksLikeEmail(FieldRules.TextOf(Member(Obj(values), "email")))
    ensures !Text.IsBlank(FieldRules.TextOf(Member(Obj(values), "name")))
    ensures |PasswordOf(values)| >= 6
    ensures PasswordOf(values) == FieldRules.TextOf(Member(Obj(values), "confirmPassword"))
    ensures Truthy(Member(Obj(values), "userType"))
  {
    RuleVerdicts(values);
    assert "email" in Rules && "name" in Rules && "password" in Rules && "confirmPassword" in Rules && "userType" in Rules;
  }

  lemma InitialEmailFails()
    ensures Fails(Rules, InitialValues, "email")
  {
    EmailVerdict(InitialValues);
    assert Member(Obj(InitialValues), "email") == Str("");
    assert !Text.LooksLikeEmail("");
  }

  lemma InitialNameFails()
    ensures Fails(Rules, InitialValues, "name")
  {
    NameVerdict(InitialValues);
    assert Member(Obj(InitialValues), "name") == Str("");
    assert Text.IsBlank("");
  }

  lemma InitialPasswordFails()
    ensures Fails(Rules, InitialValues, "password")
  {
    PasswordVerdict(InitialValues);
    assert Member(Obj(InitialValues), "password") == Str("");
  }

  lemma InitialConfirmFails()
    ensures Fails(Rules, InitialValues, "confirmPassword")
  {
    ConfirmVerdict(InitialValues);
    assert Member(Obj(InitialValues), "confirmPassword") == Str("");
  }

  lemma InitialUserTypePasses()
    ensures !Fails(Rules, InitialValues, "userType")
  {
    UserTypeVerdict(InitialValues);
    assert Member(Obj(InitialValues), "userType") == Str("student");
  }

  /** The fields the sign-up rules cover. */
  lemma RuleFields(field: string)
    requires field in Rules
    ensures field == "name" || field == "email" || field == "password" || field == "confirmPassword" || field == "userType"
  {
  }

  /** On the initial values every rule but the user type's fails. */
  lemma InitialValuesRejected()
    ensures forall field :: field in Rules ==> (Fails(Rules, InitialValues, field) <==> field != "userType")
  {
    InitialEmailFails();
    InitialNameFails();
    InitialPasswordFails();
    InitialConfirmFails();
    InitialUserTypePasses();
    forall field | field in Rules
      ensures Fails(Rules, InitialValues, field) <==> field != "userType"
    {
      RuleFields(field);
    }
  }

  /** So the untouched form submits nothing. */
  lemma InitialValuesNotSubmitted()
    ensures HandleSubmit(InitialValues).None?
  {
    InitialEmailFails();
    assert "email" in Rules;
  }
}
