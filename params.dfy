/** Query-string and body parameters as the route handlers test them. */
module Params {
  import opened Wrappers

  /** A parameter counts as given when present and non-empty: the
      truthiness test `if (p)` and `p || default` apply to a string. */
  predicate Given(param: Option<string>)
  {
    param.Some? && param.value != ""
  }

  /** `param || fallback`: the parameter when given, the fallback otherwise. */
  function OrDefault(param: Option<string>, fallback: string): (s: string)
    ensures s == fallback <==> !Given(param) || param.value == fallback
    ensures Given(param) ==> s == param.value
  {
    if Given(param) then param.value else fallback
  }
}
