/** The student onboarding page: its nested initial values, the twelve field rules,
    SAT score input parsing, the render guard and submit gating. */
module OnboardingPage {
  import opened Wrappers
  import opened FormValidation
  import FieldRules
  import Decimal
  import Auth
  import Navigation

  const SaveFailed := "Failed to save profile. Please try again."

  const InitialAcademic: map<string, Val> := map[
    "college" := Str(""),
    "highSchoolGPA" := Str(""),
    "highSchoolName" := Str(""),
    "graduationYear" := Str("")]

  const InitialSat: map<string, Val> := map["total" := Num(0), "math" := Num(0), "verbal" := Num(0)]

  /** Every text field starts empty, the SAT scores at 0 and the gender at "other". */
  const InitialValues: map<string, Val> := map[
    "academicProfile" := Obj(InitialAcademic),
    "satScore" := Obj(InitialSat),
    "englishProficiency" := Str(""),
    "projectsAndSkills" := Str(""),
    "financialSituation" := Str(""),
    "gender" := Str("other"),
    "dob" := Str("")]

  /** The rules on the three SAT scores. */
  predicate IsSatField(field: string) {
    field == "satScore.total" || field == "satScore.math" || field == "satScore.verbal"
  }

  /** `value > 0`, for the numbers the SAT fields hold. */
  predicate Positive(v: Val) {
    v.Num? && v.n > 0
  }

  /** `value > 0 ? null : message`. */
  function SatRule(v: Val, message: string): (r: Option<string>)
    ensures r.None? <==> Positive(v)
    ensures r.Some? ==> r.value == message
  {
    if Positive(v) then None else Some(message)
  }

  const Rules: map<string, Rule> := map[
    "academicProfile.college" := (v: Val, values: map<string, Val>) => FieldRules.RequiredValue(v, "College selection is required"),
    "academicProfile.highSchoolGPA" := (v: Val, values: map<string, Val>) => FieldRules.RequiredValue(v, "High school GPA is required"),
    "academicProfile.highSchoolName" := (v: Val, values: map<string, Val>) => FieldRules.RequiredValue(v, "High school name is required"),
    "academicProfile.graduationYear" := (v: Val, values: map<string, Val>) => FieldRules.RequiredValue(v, "Graduation year is required"),
    "satScore.total" := (v: Val, values: map<string, Val>) => SatRule(v, "SAT total score is required"),
    "satScore.math" := (v: Val, values: map<string, Val>) => SatRule(v, "SAT math score is required"),
    "satScore.verbal" := (v: Val, values: map<string, Val>) => SatRule(v, "SAT verbal score is required"),
    "englishProficiency" := (v: Val, values: map<string, Val>) => FieldRules.RequiredValue(v, "English proficiency information is required"),
    "projectsAndSkills" := (v: Val, values: map<string, Val>) => FieldRules.RequiredValue(v, "Projects and skills information is required"),
    "financialSituation" := (v: Val, values: map<string, Val>) => FieldRules.RequiredValue(v, "Financial situation information is required"),
    "gender" := (v: Val, values: map<string, Val>) => FieldRules.RequiredValue(v, "Gender is required"),
    "dob" := (v: Val, values: map<string, Val>) => FieldRules.RequiredValue(v, "Date of birth is required")]

  /** What each rule asks of the value at its path: a SAT score must be positive, any
      other field truthy (so in particular not the empty string). */
  lemma RuleVerdict(values: map<string, Val>, field: string)
    requires field in Rules
    ensures IsSatField(field) ==> (Fails(Rules, values, field) <==> !Positive(GetNestedValue(values, field)))
    ensures !IsSatField(field) ==> (Fails(Rules, values, field) <==> !Truthy(GetNestedValue(values, field)))
  {
  }

  lemma RuleFields(field: string)
    requires field in Rules
    ensures field in {"academicProfile.college", "academicProfile.highSchoolGPA", "academicProfile.highSchoolName",
      "academicProfile.graduationYear", "satScore.total", "satScore.math", "satScore.verbal", "englishProficiency",
      "projectsAndSkills", "financialSituation", "gender", "dob"}
  {
  }

  /** The academic paths start out as empty strings. */
  lemma InitialAcademicValue(key: string)
    requires key in InitialAcademic
    ensures GetNestedValue(InitialValues, "academicProfile." + key) == Str("")
  {
    assert "academicProfile." + key == "academicProfile" + "." + key;
    ReadNestedField(InitialValues, "academicProfile", key);
  }

  /** The SAT paths start out at 0. */
  lemma InitialSatValue(key: string)
    requires key in InitialSat
    ensures GetNestedValue(InitialValues, "satScore." + key) == Num(0)
  {
    assert "satScore." + key == "satScore" + "." + key;
    ReadNestedField(InitialValues, "satScore", key);
  }

  /** The top-level fields start out empty, except the gender. */
  lemma InitialTopValue(key: string)
    requires key in InitialValues && !InitialValues[key].Obj?
    ensures GetNestedValue(InitialValues, key) == if key == "gender" then Str("other") else Str("")
  {
    ReadField(InitialValues, key);
  }

  lemma InitialAcademicField(field: string)
    requires field in {"academicProfile.college", "academicProfile.highSchoolGPA", "academicProfile.highSchoolName", "academicProfile.graduationYear"}
    ensures GetNestedValue(InitialValues, field) == Str("")
  {
    if field == "academicProfile.college" {
      assert "academicProfile." + "college" == "academicProfile.college";
      InitialAcademicValue("college");
    }
    else if field == "academicProfile.highSchoolGPA" {
      assert "academicProfile." + "highSchoolGPA" == "academicProfile.highSchoolGPA";
      InitialAcademicValue("highSchoolGPA");
    }
    else if field == "academicProfile.highSchoolName" {
      assert "academicProfile." + "highSchoolName" == "academicProfile.highSchoolName";
      InitialAcademicValue("highSchoolName");
    }
    else {
      assert "academicProfile." + "graduationYear" == "academicProfile.graduationYear";
      InitialAcademicValue("graduationYear");
    }
  }

  lemma InitialSatField(field: string)
    requires IsSatField(field)
    ensures GetNestedValue(InitialValues, field) == Num(0)
  {
    if field == "satScore.total" {
      assert "satScore." + "total" == "satScore.total";
      InitialSatValue("total");
    }
    else if field == "satScore.math" {
      assert "satScore." + "math" == "satScore.math";
      InitialSatValue("math");
    }
    else {
      assert "satScore." + "verbal" == "satScore.verbal";
      InitialSatValue("verbal");
    }
  }

  /** The value each rule sees on the untouched form. */
  lemma InitialFieldValue(field: string)
    requires field in Rules
    ensures IsSatField(field) ==> GetNestedValue(InitialValues, field) == Num(0)
    ensures !IsSatField(field) ==> GetNestedValue(InitialValues, field) == if field == "gender" then Str("other") else Str("")
  {
    RuleFields(field);
    if IsSatField(field) { InitialSatField(field); }
    else if field in {"academicProfile.college", "academicProfile.highSchoolGPA", "academicProfile.highSchoolName", "academicProfile.graduationYear"} {
      InitialAcademicField(field);
    }
    else { InitialTopValue(field); }
  }

  lemma InitialVerdict(field: string)
    requires field in Rules
    ensures Fails(Rules, InitialValues, field) <==> field != "gender"
  {
    InitialFieldValue(field);
    RuleVerdict(InitialValues, field);
  }

  /** On the initial values every rule fails except the gender's, which defaults to
      "other"; so the untouched form never validates. */
  lemma InitialValuesRejected()
    ensures forall field :: field in Rules ==> (Fails(Rules, InitialValues, field) <==> field != "gender")
    ensures !AllValid(Rules, InitialValues)
  {
    forall field | field in Rules
      ensures Fails(Rules, InitialValues, field) <==> field != "gender"
    {
      InitialVerdict(field);
    }
    assert "dob" in Rules;
  }

  /** A SAT input's change handler: `Number.parseInt(text) || 0`. */
  function SatInput(text: string): (v: Val)
    ensures v.Num?
    ensures Decimal.ParseInt(text).None? ==> v == Num(0)
  {
    Num(Decimal.ParseIntOrZero(text))
  }

  /** Typing text without a digit stores 0, which no SAT rule accepts. */
  lemma NonNumericSatRejected(text: string)
    requires forall i :: 0 <= i < |text| ==> !Decimal.IsDigit(text[i])
    ensures SatInput(text) == Num(0)
    ensures !Positive(SatInput(text))
  {
    Decimal.NoDigitParsesToZero(text);
  }

  /** Typing a score back stores that score, which the SAT rules accept exactly when
      it is positive. */
  lemma TypedScore(n: nat)
    ensures SatInput(Decimal.NatToString(n)) == Num(n)
    ensures Positive(SatInput(Decimal.NatToString(n))) <==> n > 0
  {
    Decimal.ParseIntNatToString(n);
  }

  /** Typing a score without leading zeros stores the number spelled that way. */
  lemma TypedText(text: string)
    requires Decimal.Canonical(text)
    ensures SatInput(text).Num? && SatInput(text).n >= 0
    ensures Decimal.NatToString(SatInput(text).n) == text
  {
    Decimal.ParseIntCanonical(text);
  }

  datatype View = ShowForm | GoTo(destination: Navigation.Destination)

  /** The render guard: the form shows only for a signed-in user without a profile;
      everyone else is sent to the dashboard. */
  function Render(user: Option<Auth.User>): (r: View)
    ensures r.ShowForm? <==> user.Some? && !user.value.hasProfile
    ensures r.GoTo? ==> r.destination == Navigation.Dashboard
  {
    if user.Some? && !user.value.hasProfile then ShowForm else GoTo(Navigation.Dashboard)
  }

  /** A freshly signed-up user sees the form. After the hook's logout, or the context's
      intended logout, nobody does; after the context's logout as written (the one the
      navbar calls) a signed-in user without a profile still does. */
  lemma RenderAfterAuth(s: Auth.AuthState, email: string, password: string, name: string, t: Auth.UserType, id: string)
    ensures Render(Auth.Signup(s, email, password, name, t, id).state.user).ShowForm?
    ensures Render(Auth.Logout(s).user) == GoTo(Navigation.Dashboard)
    ensures Render(Auth.ContextLogout(s).user) == GoTo(Navigation.Dashboard)
    ensures Render(Auth.ContextLogoutAsWritten(s).user) == Render(s.user)
  {
    if s.user.Some? {
      Auth.ContextLogoutKeepsUser(s);
    }
  }

  /** What `submitOnboarding` does: it resolves with `undefined` (no student signed in),
      `true` or `false` (its own catch). The hook never throws, so `Rejected`, and with
      it the page's catch branch, is kept only for the page's own handling. */
  datatype SaveResult = Resolved(truthy: bool) | Rejected

  datatype Outcome = NotSubmitted | Stayed(error: Option<string>) | ToDashboard

  /** `handleSubmit`: saving runs only when every rule passes; the page moves to the
      dashboard only when saving resolves truthy, and shows its error only when it throws. */
  function HandleSubmit(values: map<string, Val>, result: SaveResult): (r: Outcome)
    ensures r.NotSubmitted? <==> !AllValid(Rules, values)
    ensures r.ToDashboard? <==> AllValid(Rules, values) && result == Resolved(true)
    ensures r.Stayed? ==> (r.error.Some? <==> result.Rejected?)
    ensures r.Stayed? && r.error.Some? ==> r.error.value == SaveFailed
  {
    if !AllValid(Rules, values) then NotSubmitted
    else match result
      case Resolved(truthy) => if truthy then ToDashboard else Stayed(None)
      case Rejected => Stayed(Some(SaveFailed))
  }

  /** Submitting the untouched form saves nothing and stays on the page. */
  lemma InitialSubmitDoesNothing(result: SaveResult)
    ensures HandleSubmit(InitialValues, result) == NotSubmitted
  {
    InitialValuesRejected();
  }
}
