/**
 The JavaScript value rules the app's code relies on, for strings that may
 be absent: truthiness, `s ?? ''` and `s || undefined`.
 */
module JsValues {
  import opened Wrappers

  /** JavaScript truthiness of an optional string: present and non-empty. */
  predicate Truthy(s: Option<string>) {
    s.Some? && s.value != ""
  }

  /** `s ?? ''`: an absent string reads as the empty string. */
  function OrEmpty(s: Option<string>): string {
    match s
    case None => ""
    case Some(v) => v
  }

  /** `s || undefined`: the empty string reads as absent. */
  function OrUndefined(s: string): Option<string> {
    if s == "" then None else Some(s)
  }

  /**
   Writing an optional string with `?? ''` and reading it back with
   `|| undefined` gives it back exactly when it is absent or non-empty;
   the other order gives back every string.
   */
  lemma OrEmptyRoundTrip(s: Option<string>, t: string)
    ensures OrUndefined(OrEmpty(s)) == s <==> !(s.Some? && s.value == "")
    ensures OrEmpty(OrUndefined(t)) == t
  {
  }
}
