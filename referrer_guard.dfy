/** src/rules/referrer-guard.ts: a second copy of the Referrer-Policy rule
    under another header-function name. Its definitions are kept separate
    and proved to behave exactly like the Referrer-Policy rule. */
module ReferrerGuard {
  import opened Shared
  import opened Strings
  import opened ArrayWrapper
  import Policy = ReferrerPolicy

  const HeaderName := "Referrer-Policy"

  const SupportedValues: seq<string> := [
    "no-referrer",
    "no-referrer-when-downgrade",
    "origin",
    "origin-when-cross-origin",
    "same-origin",
    "strict-origin",
    "strict-origin-when-cross-origin"
  ]

  /** `ReferrerGuardOption` has the same shape as `ReferrerPolicyOption`. */
  type ReferrerGuardOption = Policy.ReferrerPolicyOption

  function CheckValues(values: seq<string>): Option<ErrorKind>
  {
    if values == [] then None
    else if values[0] == "unsafe-url" then Some(DangerousValue)
    else if values[0] !in SupportedValues then Some(InvalidOption)
    else CheckValues(values[1..])
  }

  /** `createReferrerPolicyHeaderValue` of this module. */
  function CreateReferrerPolicyHeaderValue(option: ReferrerGuardOption): Result<Option<string>>
  {
    match option
    case Unset => Ok(None)
    case Flag(on) => if on then Err(InvalidOption) else Ok(None)
    case Other => Err(InvalidOption)
    case Values(v) =>
      var values := WrapArray(v);
      match CheckValues(values)
      case Some(error) => Err(error)
      case None => Ok(Some(Join(values, ", ")))
  }

  /** `createReferrerGuardHeader`. */
  function CreateReferrerGuardHeader(option: ReferrerGuardOption): Result<ResponseHeader>
  {
    var value :- CreateReferrerPolicyHeaderValue(option);
    Ok(ResponseHeader(HeaderName, value))
  }

  /** The two copies of the value check reach the same verdict on every list. */
  lemma {:induction false} CheckValuesAgree(values: seq<string>)
    ensures CheckValues(values) == Policy.CheckValues(values)
  {
    assert SupportedValues == Policy.SupportedValues;
    if values != [] && values[0] != "unsafe-url" && values[0] in SupportedValues {
      CheckValuesAgree(values[1..]);
    }
  }

  /** The guard builds the same Referrer-Policy header as the Referrer-Policy
      rule for every option, including the same errors. */
  lemma GuardAgreesWithPolicy(option: ReferrerGuardOption)
    ensures CreateReferrerPolicyHeaderValue(option) == Policy.CreateReferrerPolicyHeaderValue(option)
    ensures CreateReferrerGuardHeader(option) == Policy.CreateReferrerPolicyHeader(option)
  {
    if option.Values? {
      CheckValuesAgree(WrapArray(option.values));
    }
  }
}
