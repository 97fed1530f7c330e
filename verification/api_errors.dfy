/** What a page's `catch` block can receive: `null`/`undefined`, some other non-object
    value, or an error object with an optional `message` and an optional `description`
    whose `message` array holds validation messages. */
module ApiErrors {
  import opened Wrappers

  datatype Description = Description(messages: Option<seq<string>>)

  datatype Thrown =
    | Nullish
    | Primitive
    | ErrorObject(message: Option<string>, description: Option<Description>)

  /** `s || fallback` on an optional string: a missing or empty string is falsy. */
  predicate Usable(s: Option<string>) {
    s.Some? && s.value != ""
  }

  /** `description.message?.[0]`: the first validation message, if there is one. */
  function FirstMessage(d: Description): (r: Option<string>)
    ensures r.Some? <==> d.messages.Some? && |d.messages.value| > 0
    ensures r.Some? ==> r.value == d.messages.value[0]
  {
    if d.messages.Some? && |d.messages.value| > 0 then Some(d.messages.value[0]) else None
  }

  /** The `Error` a page throws itself, such as "Invalid credentials". */
  function Raised(message: string): (e: Thrown)
    ensures e.ErrorObject? && e.message == Some(message) && e.description.None?
  {
    ErrorObject(Some(message), None)
  }
}
