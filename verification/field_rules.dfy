/** Rule shapes the pages share: a required text field (`value.trim() ? null : msg`),
    a required value (`value ? null : msg`) and the email rule. */
module FieldRules {
  import opened Wrappers
  import Text
  import FormValidation

  /** A text field's string. The pages only ever store strings in text fields; any
      other value (on which `trim` would throw) reads as "". */
  function TextOf(v: FormValidation.Val): string {
    if v.Str? then v.s else ""
  }

  /** `value.trim() ? null : message`. */
  function RequiredText(value: string, message: string): (r: Option<string>)
    ensures r.None? <==> !Text.IsBlank(value)
    ensures r.Some? ==> r.value == message
  {
    Text.TrimEmptyIffBlank(value);
    if Text.Trim(value) == "" then Some(message) else None
  }

  /** `value ? null : message`. */
  function RequiredValue(v: FormValidation.Val, message: string): (r: Option<string>)
    ensures r.None? <==> FormValidation.Truthy(v)
    ensures r.Some? ==> r.value == message
  {
    if FormValidation.Truthy(v) then None else Some(message)
  }

  const EmailRequired := "Email is required"
  const EmailInvalid := "Email is invalid"

  /** An address the pattern accepts is never blank: the '@' is not whitespace. */
  lemma EmailNotBlank(value: string)
    ensures Text.LooksLikeEmail(value) ==> !Text.IsBlank(value)
  {
    if Text.LooksLikeEmail(value) {
      var a, d :| Text.EmailWitness(value, a, d);
      assert !Text.IsSpace(value[a]);
    }
  }

  /** The email rule of the sign-up, login and verify pages: "required" when blank, then
      "invalid" when `/\S+@\S+\.\S+/` finds no match, otherwise no error. */
  function EmailRule(value: string): (r: Option<string>)
    ensures Text.IsBlank(value) ==> r == Some(EmailRequired)
    ensures !Text.IsBlank(value) && !Text.LooksLikeEmail(value) ==> r == Some(EmailInvalid)
    ensures r.None? <==> Text.LooksLikeEmail(value)
  {
    Text.TrimEmptyIffBlank(value);
    EmailNotBlank(value);
    if Text.Trim(value) == "" then Some(EmailRequired)
    else if !Text.IsEmailLike(value) then Some(EmailInvalid)
    else None
  }
}
