/** The Referrer-Policy rule (src/rules/referrer-policy.ts): one policy
    token or a list of fallbacks, each checked against the supported
    tokens, joined by ", ". */
module ReferrerPolicy {
  import opened Shared
  import opened Strings
  import opened ArrayWrapper

  const HeaderName := "Referrer-Policy"

  /** The policy tokens the rule accepts. */
  const SupportedValues: seq<string> := [
    "no-referrer",
    "no-referrer-when-downgrade",
    "origin",
    "origin-when-cross-origin",
    "same-origin",
    "strict-origin",
    "strict-origin-when-cross-origin"
  ]

  /** The token the rule refuses as dangerous. */
  const UnsafeUrl := "unsafe-url"

  /** `ReferrerPolicyOption`: undefined or null, a boolean, a string or an
      array of strings, or any other value. */
  datatype ReferrerPolicyOption =
    | Unset
    | Flag(on: bool)
    | Values(values: OneOrMany<string>)
    | Other

  predicate Supported(value: string)
  {
    value in SupportedValues
  }

  /** No supported token contains the list separator. */
  lemma SupportedValuesHaveNoSeparator(value: string)
    requires Supported(value)
    ensures !Contains(value, ", ")
  {
    MissingCharNoContains(value, ", ");
  }

  /** The `forEach` check: `None` when every value passes, otherwise the
      error of the first value that fails. */
  function CheckValues(values: seq<string>): (r: Option<ErrorKind>)
    ensures r.None? <==> forall k :: 0 <= k < |values| ==> Supported(values[k])
    ensures r == Some(DangerousValue) <==>
      exists k :: 0 <= k < |values| && values[k] == UnsafeUrl && forall j :: 0 <= j < k ==> Supported(values[j])
    ensures r.Some? ==> r.value == DangerousValue || r.value == InvalidOption
  {
    if values == [] then None
    else if values[0] == UnsafeUrl then
      assert !Supported(UnsafeUrl);
      Some(DangerousValue)
    else if !Supported(values[0]) then Some(InvalidOption)
    else
      var r := CheckValues(values[1..]);
      assert forall k :: 1 <= k < |values| ==> values[k] == values[1..][k - 1];
      assert r == Some(DangerousValue) ==>
        exists k :: 0 <= k < |values| && values[k] == UnsafeUrl && forall j :: 0 <= j < k ==> Supported(values[j]) by {
        if r == Some(DangerousValue) {
          var k :| 0 <= k < |values[1..]| && values[1..][k] == UnsafeUrl && forall j :: 0 <= j < k ==> Supported(values[1..][j]);
          assert values[k + 1] == UnsafeUrl;
          assert forall j :: 0 <= j < k + 1 ==> Supported(values[j]) by {
            forall j | 0 <= j < k + 1 ensures Supported(values[j]) {
              if j > 0 { assert values[j] == values[1..][j - 1]; }
            }
          }
        }
      }
      assert (exists k :: 0 <= k < |values| && values[k] == UnsafeUrl && forall j :: 0 <= j < k ==> Supported(values[j])) ==>
        r == Some(DangerousValue) by {
        if k :| 0 <= k < |values| && values[k] == UnsafeUrl && forall j :: 0 <= j < k ==> Supported(values[j]) {
          assert k > 0;
          assert values[1..][k - 1] == UnsafeUrl;
          assert forall j :: 0 <= j < k - 1 ==> Supported(values[1..][j]) by {
            forall j | 0 <= j < k - 1 ensures Supported(values[1..][j]) {
              assert values[1..][j] == values[j + 1];
            }
          }
        }
      }
      r
  }

  /** The values an option lists: a lone value is wrapped into an array. */
  function ListedValues(option: ReferrerPolicyOption): seq<string>
    requires option.Values?
  {
    WrapArray(option.values)
  }

  /** `createReferrerPolicyHeaderValue`: `None` means the header is not sent. */
  function CreateReferrerPolicyHeaderValue(option: ReferrerPolicyOption): (r: Result<Option<string>>)
    ensures r == Ok(None) <==> option.Unset? || option == Flag(false)
    ensures option == Flag(true) || option.Other? ==> r == Err(InvalidOption)
    ensures option.Values? ==>
      var values := ListedValues(option);
      (r.Ok? <==> forall k :: 0 <= k < |values| ==> Supported(values[k])) &&
      (r.Err? ==> r.error == DangerousValue || r.error == InvalidOption) &&
      (r == Err(DangerousValue) <==>
         exists k :: 0 <= k < |values| && values[k] == UnsafeUrl && forall j :: 0 <= j < k ==> Supported(values[j])) &&
      (r.Ok? && values != [] ==> r.value.Some? && Split(r.value.value, ", ") == values) &&
      (r.Ok? && values == [] ==> r.value == Some(""))
  {
    match option
    case Unset => Ok(None)
    case Flag(on) => if on then Err(InvalidOption) else Ok(None)
    case Other => Err(InvalidOption)
    case Values(v) =>
      var values := WrapArray(v);
      match CheckValues(values)
      case Some(error) => Err(error)
      case None =>
        if values != [] then
          SeparatorsBorderFree();
          forall k | 0 <= k < |values| ensures !Contains(values[k], ", ") {
            SupportedValuesHaveNoSeparator(values[k]);
          }
          SplitJoin(values, ", ");
          Ok(Some(Join(values, ", ")))
        else Ok(Some(Join(values, ", ")))
  }

  /** `createReferrerPolicyHeader`: the header is always produced, named
      Referrer-Policy, carrying the value (possibly none) or its error. */
  function CreateReferrerPolicyHeader(option: ReferrerPolicyOption): (r: Result<ResponseHeader>)
    ensures r.Ok? <==> CreateReferrerPolicyHeaderValue(option).Ok?
    ensures r.Err? ==> r.error == CreateReferrerPolicyHeaderValue(option).error
    ensures r.Ok? ==> r.value.name == HeaderName && r.value.value == CreateReferrerPolicyHeaderValue(option).value
  {
    var value :- CreateReferrerPolicyHeaderValue(option);
    Ok(ResponseHeader(HeaderName, value))
  }

  /** Undefined and false still give a Referrer-Policy header; only its
      value is missing. */
  lemma NoValueStillGivesHeader(option: ReferrerPolicyOption)
    requires option.Unset? || option == Flag(false)
    ensures CreateReferrerPolicyHeader(option) == Ok(ResponseHeader(HeaderName, None))
  {
  }
}
