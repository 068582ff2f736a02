/**
 * The `Snippet` document shape: a required `text`, a `createdAt` that defaults to the
 * current time, and the `_id` the store assigns.
 */
module Snippets {
  import opened Wrappers

  /** The store-assigned document identity (`_id`). */
  type Id = nat

  /** A stored snippet. `createdAt` is a timestamp in milliseconds, as `Date.now` gives it. */
  datatype Snippet = Snippet(id: Id, text: string, createdAt: nat)

  /** A document is valid when its required string path `text` is present and non-empty. */
  predicate Valid(s: Snippet) {
    s.text != ""
  }

  /** Schema validation failure: the required path `text` is missing. */
  datatype ValidationError = TextRequired

  /**
   * Building a document and validating it: `text` may be absent, `createdAt` falls back to
   * its default, the current time `nowMs`, when it is not supplied.
   */
  function NewDocument(id: Id, text: Option<string>, createdAt: Option<nat>, nowMs: nat)
    : (r: Result<Snippet, ValidationError>)
    ensures r.Ok? <==> text.Some? && text.value != ""
    ensures r.Ok? ==> Valid(r.value) && r.value.id == id && r.value.text == text.value
    ensures r.Ok? ==> r.value.createdAt == (if createdAt.Some? then createdAt.value else nowMs)
  {
    match text
    case None => Err(TextRequired)
    case Some(t) =>
      if t == "" then Err(TextRequired) else Ok(Snippet(id, t, createdAt.GetOr(nowMs)))
  }
}
