/** `createHeadersObject` (src/index.ts): every rule is called once, in a
    fixed order, and each header that comes back with a value is put into a
    dictionary from header name to value. */
module SecureHeaders {
  import opened Shared
  import opened TokenOptions
  import Csp = ContentSecurityPolicy
  import ExpectCT
  import Hsts = ForceHttpsRedirect
  import FrameGuard
  import Noopen
  import Nosniff
  import ReferrerPolicy
  import XssProtection

  /** The `options` object: one option per rule, `Unset` when absent. */
  datatype Options = Options(
    contentSecurityPolicy: Csp.ContentSecurityPolicyOption,
    expectCT: ExpectCT.ExpectCTOption,
    forceHTTPSRedirect: Hsts.HstsOption,
    frameGuard: TokenOption,
    noopen: TokenOption,
    nosniff: TokenOption,
    referrerPolicy: ReferrerPolicy.ReferrerPolicyOption,
    xssProtection: TokenOption)

  /** `{}`: every option absent. */
  const NoOptions := Options(Csp.Unset, ExpectCT.Unset, Hsts.Unset, Unset, Unset, Unset,
                             ReferrerPolicy.Unset, Unset)

  /** A rule whose header is always built, as one that may build none. */
  function Present(r: Result<ResponseHeader>): (p: Result<Option<ResponseHeader>>)
    ensures p.Ok? <==> r.Ok?
    ensures p.Err? ==> p.error == r.error
    ensures p.Ok? ==> p.value == Some(r.value)
  {
    match r
    case Ok(header) => Ok(Some(header))
    case Err(e) => Err(e)
  }

  /** The array literal of `createHeadersObject`, element by element. */
  function Collect(csp: Result<Option<ResponseHeader>>, expectCT: Result<ResponseHeader>,
                   hsts: Result<ResponseHeader>, frameGuard: Result<ResponseHeader>,
                   noopen: Result<ResponseHeader>, nosniff: Result<ResponseHeader>,
                   referrerPolicy: Result<ResponseHeader>, xssProtection: Result<ResponseHeader>)
    : seq<Result<Option<ResponseHeader>>>
  {
    [csp, Present(expectCT), Present(hsts), Present(frameGuard), Present(noopen), Present(nosniff),
     Present(referrerPolicy), Present(xssProtection)]
  }

  /** The elements of the array literal of `createHeadersObject`: the eight
      rules, in order. */
  function RuleResults(options: Options, encode: UriEncoder): seq<Result<Option<ResponseHeader>>>
  {
    Collect(Csp.CreateContentSecurityPolicyHeader(options.contentSecurityPolicy, encode),
            ExpectCT.CreateExpectCTHeader(options.expectCT, encode),
            Hsts.CreateForceHTTPSRedirectHeader(options.forceHTTPSRedirect),
            FrameGuard.CreateFrameGuardHeader(options.frameGuard, encode),
            Noopen.CreateNoopenHeader(options.noopen),
            Nosniff.CreateNosniffHeader(options.nosniff),
            ReferrerPolicy.CreateReferrerPolicyHeader(options.referrerPolicy),
            XssProtection.CreateXSSProtectionHeader(options.xssProtection, encode))
  }

  /** Evaluating an array literal element by element: the first element
      that throws aborts the whole literal with its error. */
  function EvaluateInOrder(rs: seq<Result<Option<ResponseHeader>>>): (r: Result<seq<Option<ResponseHeader>>>)
    ensures r.Ok? <==> forall k :: 0 <= k < |rs| ==> rs[k].Ok?
    ensures r.Ok? ==> |r.value| == |rs| && forall k :: 0 <= k < |rs| ==> r.value[k] == rs[k].value
    ensures r.Err? ==> exists k :: 0 <= k < |rs| && rs[k] == Err(r.error) && forall j :: 0 <= j < k ==> rs[j].Ok?
  {
    if rs == [] then Ok([])
    else
      var first :- rs[0];
      var rest :- EvaluateInOrder(rs[1..]);
      assert forall k :: 1 <= k < |rs| ==> rs[k] == rs[1..][k - 1];
      Ok([first] + rest)
  }

  /** The headers of the array literal, or the error of the first rule that
      throws. */
  function RuleHeaders(options: Options, encode: UriEncoder): Result<seq<Option<ResponseHeader>>>
  {
    EvaluateInOrder(RuleResults(options, encode))
  }

  /** A rule's result carries a value for the header `name`. */
  predicate Defines(header: Option<ResponseHeader>, name: string)
  {
    header.Some? && header.value.name == name && header.value.value.Some?
  }

  /** The dictionary the headers fill, one after the other: a header without
      a value is skipped, and a later header overwrites an earlier one of
      the same name. */
  function HeadersMap(headers: seq<Option<ResponseHeader>>): map<string, string>
  {
    if headers == [] then map[]
    else
      var m := HeadersMap(headers[..|headers| - 1]);
      var last := headers[|headers| - 1];
      if last.Some? && last.value.value.Some? then m[last.value.name := last.value.value.value] else m
  }

  /** A name is a key exactly when some header defines a value for it. */
  lemma {:induction false} HeadersMapKeys(headers: seq<Option<ResponseHeader>>, name: string)
    ensures name in HeadersMap(headers) <==> exists k :: 0 <= k < |headers| && Defines(headers[k], name)
  {
    if headers != [] {
      var init := headers[..|headers| - 1];
      HeadersMapKeys(init, name);
      if exists k :: 0 <= k < |headers| && Defines(headers[k], name) {
        var k :| 0 <= k < |headers| && Defines(headers[k], name);
        if k < |init| {
          assert Defines(init[k], name);
        }
      }
      if exists k :: 0 <= k < |init| && Defines(init[k], name) {
        var k :| 0 <= k < |init| && Defines(init[k], name);
        assert Defines(headers[k], name);
      }
    }
  }

  /** The value under a name is the value of the last header that defines
      it. */
  lemma {:induction false} HeadersMapValue(headers: seq<Option<ResponseHeader>>, k: nat)
    requires k < |headers| && headers[k].Some? && headers[k].value.value.Some?
    requires forall j :: k < j < |headers| ==> !Defines(headers[j], headers[k].value.name)
    ensures var name := headers[k].value.name;
      name in HeadersMap(headers) && HeadersMap(headers)[name] == headers[k].value.value.value
  {
    if k < |headers| - 1 {
      var init := headers[..|headers| - 1];
      assert init[k] == headers[k];
      assert !Defines(headers[|headers| - 1], headers[k].value.name);
      HeadersMapValue(init, k);
    }
  }

  /** Every header of a successful call is kept under the rule's own name
      with the rule's own value when that value is defined, the empty
      string included: the eight names are distinct, so none overwrites
      another. */
  lemma KeptHeaderValue(options: Options, encode: UriEncoder, k: nat)
    requires RuleHeaders(options, encode).Ok?
    requires var hs := RuleHeaders(options, encode).value;
      k < |hs| && hs[k].Some? && hs[k].value.value.Some?
    ensures var hs := RuleHeaders(options, encode).value;
      hs[k].value.name in HeadersMap(hs) && HeadersMap(hs)[hs[k].value.name] == hs[k].value.value.value
  {
    RuleHeaderNames(options, encode);
    KeptAmongNamedHeaders(RuleHeaders(options, encode).value, k);
  }

  /** At most one Content-Security-Policy header (under either name)
      first, then the seven other rules' headers, each under its own name. */
  predicate NamedAsRules(hs: seq<Option<ResponseHeader>>)
  {
    |hs| == 8 &&
    (hs[0].Some? ==> hs[0].value.name == Csp.HeaderName || hs[0].value.name == Csp.ReportOnlyHeaderName) &&
    hs[1].Some? && hs[1].value.name == ExpectCT.HeaderName &&
    hs[2].Some? && hs[2].value.name == Hsts.HeaderName &&
    hs[3].Some? && hs[3].value.name == FrameGuard.HeaderName &&
    hs[4].Some? && hs[4].value.name == Noopen.HeaderName &&
    hs[5].Some? && hs[5].value.name == Nosniff.HeaderName &&
    hs[6].Some? && hs[6].value.name == ReferrerPolicy.HeaderName &&
    hs[7].Some? && hs[7].value.name == XssProtection.HeaderName
  }

  /** The array literal's headers are named as the rules name them. */
  lemma RuleHeaderNames(options: Options, encode: UriEncoder)
    requires RuleHeaders(options, encode).Ok?
    ensures NamedAsRules(RuleHeaders(options, encode).value)
  {
    CollectedNames(Csp.CreateContentSecurityPolicyHeader(options.contentSecurityPolicy, encode),
                   ExpectCT.CreateExpectCTHeader(options.expectCT, encode),
                   Hsts.CreateForceHTTPSRedirectHeader(options.forceHTTPSRedirect),
                   FrameGuard.CreateFrameGuardHeader(options.frameGuard, encode),
                   Noopen.CreateNoopenHeader(options.noopen),
                   Nosniff.CreateNosniffHeader(options.nosniff),
                   ReferrerPolicy.CreateReferrerPolicyHeader(options.referrerPolicy),
                   XssProtection.CreateXSSProtectionHeader(options.xssProtection, encode));
  }

  /** Evaluating the literal over results that carry the rules' names gives
      headers named as the rules name them. */
  lemma CollectedNames(csp: Result<Option<ResponseHeader>>, expectCT: Result<ResponseHeader>, hsts: Result<ResponseHeader>,
                       frameGuard: Result<ResponseHeader>, noopen: Result<ResponseHeader>, nosniff: Result<ResponseHeader>,
                       referrerPolicy: Result<ResponseHeader>, xssProtection: Result<ResponseHeader>)
    requires EvaluateInOrder(Collect(csp, expectCT, hsts, frameGuard, noopen, nosniff, referrerPolicy, xssProtection)).Ok?
    requires csp.Ok? && csp.value.Some? ==>
      csp.value.value.name == Csp.HeaderName || csp.value.value.name == Csp.ReportOnlyHeaderName
    requires expectCT.Ok? ==> expectCT.value.name == ExpectCT.HeaderName
    requires hsts.Ok? ==> hsts.value.name == Hsts.HeaderName
    requires frameGuard.Ok? ==> frameGuard.value.name == FrameGuard.HeaderName
    requires noopen.Ok? ==> noopen.value.name == Noopen.HeaderName
    requires nosniff.Ok? ==> nosniff.value.name == Nosniff.HeaderName
    requires referrerPolicy.Ok? ==> referrerPolicy.value.name == ReferrerPolicy.HeaderName
    requires xssProtection.Ok? ==> xssProtection.value.name == XssProtection.HeaderName
    ensures NamedAsRules(EvaluateInOrder(Collect(csp, expectCT, hsts, frameGuard, noopen, nosniff, referrerPolicy, xssProtection)).value)
  {
    var rs := Collect(csp, expectCT, hsts, frameGuard, noopen, nosniff, referrerPolicy, xssProtection);
    var hs := EvaluateInOrder(rs).value;
    assert forall j :: 0 <= j < 8 ==> rs[j].Ok? && hs[j] == rs[j].value;
  }

  /** In a list named as the rules name their headers, every header with a
      value is kept. */
  lemma KeptAmongNamedHeaders(hs: seq<Option<ResponseHeader>>, k: nat)
    requires NamedAsRules(hs) && k < 8 && hs[k].Some? && hs[k].value.value.Some?
    ensures hs[k].value.name in HeadersMap(hs) && HeadersMap(hs)[hs[k].value.name] == hs[k].value.value.value
  {
    // The eight names differ in length, except X-Frame-Options and
    // Referrer-Policy, which differ in their first character.
    var names := seq(8, j requires 0 <= j < 8 => if hs[j].Some? then hs[j].value.name else Csp.HeaderName);
    assert |names[0]| == 23 || |names[0]| == 35;
    assert |names[1]| == 9 && |names[2]| == 25 && |names[4]| == 18 && |names[5]| == 22 && |names[7]| == 16;
    assert |names[3]| == 15 && names[3][0] == 'X';
    assert |names[6]| == 15 && names[6][0] == 'R';
    forall j | k < j < |hs| ensures !Defines(hs[j], hs[k].value.name) {
      assert |names[j]| != |names[k]| || names[j][0] != names[k][0];
    }
    HeadersMapValue(hs, k);
  }

  /** A Content-Security-Policy option without directives still gives its
      header, with the empty value: only an undefined value is dropped. */
  lemma EmptyPolicyValueIsKept(options: Options, encode: UriEncoder)
    requires options.contentSecurityPolicy.Policy? && options.contentSecurityPolicy.directives.None?
    requires RuleHeaders(options, encode).Ok?
    ensures var name := Csp.GetProperHeaderName(options.contentSecurityPolicy.reportOnly);
      var m := HeadersMap(RuleHeaders(options, encode).value);
      name in m && m[name] == ""
  {
    Csp.NoDirectivesGiveEmptyValue(options.contentSecurityPolicy, encode);
    KeptHeaderValue(options, encode, 0);
  }

  /** `createHeadersObject`; a missing `options` argument is `{}`. */
  method CreateHeadersObject(encode: UriEncoder, options: Options := NoOptions)
    returns (r: Result<map<string, string>>)
    ensures r.Ok? <==> RuleHeaders(options, encode).Ok?
    ensures r.Err? ==> r.error == RuleHeaders(options, encode).error
    ensures r.Ok? ==> r.value == HeadersMap(RuleHeaders(options, encode).value)
  {
    var headers :- RuleHeaders(options, encode);
    var newHeaders := FillHeaders(headers);
    return Ok(newHeaders);
  }

  /** The `forEach` of `createHeadersObject`: each header with a value is
      written into the dictionary, in order. */
  method FillHeaders(headers: seq<Option<ResponseHeader>>) returns (newHeaders: map<string, string>)
    ensures newHeaders == HeadersMap(headers)
  {
    newHeaders := map[];
    var i := 0;
    while i < |headers|
      invariant 0 <= i <= |headers|
      invariant newHeaders == HeadersMap(headers[..i])
    {
      var header := headers[i];
      assert headers[..i + 1][..i] == headers[..i];
      if header.Some? && header.value.value.Some? {
        newHeaders := newHeaders[header.value.name := header.value.value.value];
      }
      i := i + 1;
    }
    assert headers[..|headers|] == headers;
  }

  /** The eight headers of `{}`: no Content-Security-Policy header,
      Expect-CT and Referrer-Policy without a value, and the five default
      values. */
  const DefaultHeaderList: seq<Option<ResponseHeader>> := [
    None,
    Some(ResponseHeader("Expect-CT", None)),
    Some(ResponseHeader("Strict-Transport-Security", Some("max-age=63072000"))),
    Some(ResponseHeader("X-Frame-Options", Some("deny"))),
    Some(ResponseHeader("X-Download-Options", Some("noopen"))),
    Some(ResponseHeader("X-Content-Type-Options", Some("nosniff"))),
    Some(ResponseHeader("Referrer-Policy", None)),
    Some(ResponseHeader("X-XSS-Protection", Some("1")))]

  /** What the single-token rules return for an absent option. */
  lemma TokenRuleDefaults(encode: UriEncoder)
    ensures FrameGuard.CreateFrameGuardHeader(Unset, encode) == Ok(ResponseHeader("X-Frame-Options", Some("deny")))
    ensures Noopen.CreateNoopenHeader(Unset) == Ok(ResponseHeader("X-Download-Options", Some("noopen")))
    ensures Nosniff.CreateNosniffHeader(Unset) == Ok(ResponseHeader("X-Content-Type-Options", Some("nosniff")))
    ensures XssProtection.CreateXSSProtectionHeader(Unset, encode) == Ok(ResponseHeader("X-XSS-Protection", Some("1")))
  {
  }

  /** What the other four wired rules return for an absent option. */
  lemma OtherRuleDefaults(encode: UriEncoder)
    ensures Csp.CreateContentSecurityPolicyHeader(Csp.Unset, encode) == Ok(None)
    ensures ExpectCT.CreateExpectCTHeader(ExpectCT.Unset, encode) == Ok(ResponseHeader("Expect-CT", None))
    ensures Hsts.CreateForceHTTPSRedirectHeader(Hsts.Unset)
         == Ok(ResponseHeader("Strict-Transport-Security", Some("max-age=63072000")))
    ensures ReferrerPolicy.CreateReferrerPolicyHeader(ReferrerPolicy.Unset) == Ok(ResponseHeader("Referrer-Policy", None))
  {
    Hsts.DefaultMaxAgeText();
  }

  /** When all eight rules succeed, the array literal holds their headers. */
  lemma CollectAllOk(csp: Option<ResponseHeader>, expectCT: ResponseHeader, hsts: ResponseHeader,
                     frameGuard: ResponseHeader, noopen: ResponseHeader, nosniff: ResponseHeader,
                     referrerPolicy: ResponseHeader, xssProtection: ResponseHeader)
    ensures EvaluateInOrder(Collect(Ok(csp), Ok(expectCT), Ok(hsts), Ok(frameGuard), Ok(noopen), Ok(nosniff),
                                    Ok(referrerPolicy), Ok(xssProtection)))
         == Ok([csp, Some(expectCT), Some(hsts), Some(frameGuard), Some(noopen), Some(nosniff),
                Some(referrerPolicy), Some(xssProtection)])
  {
    var rs := Collect(Ok(csp), Ok(expectCT), Ok(hsts), Ok(frameGuard), Ok(noopen), Ok(nosniff),
                      Ok(referrerPolicy), Ok(xssProtection));
    var hs := [csp, Some(expectCT), Some(hsts), Some(frameGuard), Some(noopen), Some(nosniff),
               Some(referrerPolicy), Some(xssProtection)];
    var r := EvaluateInOrder(rs);
    assert forall k :: 0 <= k < 8 ==> rs[k] == Ok(hs[k]);
    assert r.Ok?;
    assert r.value == hs;
  }

  /** With `{}` every rule succeeds and the array literal holds the default
      headers. */
  lemma DefaultRuleHeaders(encode: UriEncoder)
    ensures RuleHeaders(NoOptions, encode) == Ok(DefaultHeaderList)
  {
    TokenRuleDefaults(encode);
    OtherRuleDefaults(encode);
    CollectAllOk(None, ResponseHeader("Expect-CT", None),
                 ResponseHeader("Strict-Transport-Security", Some("max-age=63072000")),
                 ResponseHeader("X-Frame-Options", Some("deny")),
                 ResponseHeader("X-Download-Options", Some("noopen")),
                 ResponseHeader("X-Content-Type-Options", Some("nosniff")),
                 ResponseHeader("Referrer-Policy", None),
                 ResponseHeader("X-XSS-Protection", Some("1")));
  }

  /** The dictionary the default headers fill. */
  lemma DefaultHeadersMap(hs: seq<Option<ResponseHeader>>)
    requires hs == DefaultHeaderList
    ensures HeadersMap(hs) ==
      map["Strict-Transport-Security" := "max-age=63072000",
          "X-Frame-Options" := "deny",
          "X-Download-Options" := "noopen",
          "X-Content-Type-Options" := "nosniff",
          "X-XSS-Protection" := "1"]
  {
    var m0 := HeadersMap(hs[..0]);
    assert m0 == map[];
    assert hs[..1][..0] == hs[..0];
    var m1 := HeadersMap(hs[..1]);
    assert m1 == m0;
    assert hs[..2][..1] == hs[..1];
    var m2 := HeadersMap(hs[..2]);
    assert m2 == m1;
    assert hs[..3][..2] == hs[..2];
    var m3 := HeadersMap(hs[..3]);
    assert m3 == m2["Strict-Transport-Security" := "max-age=63072000"];
    assert hs[..4][..3] == hs[..3];
    var m4 := HeadersMap(hs[..4]);
    assert m4 == m3["X-Frame-Options" := "deny"];
    assert hs[..5][..4] == hs[..4];
    var m5 := HeadersMap(hs[..5]);
    assert m5 == m4["X-Download-Options" := "noopen"];
    assert hs[..6][..5] == hs[..5];
    var m6 := HeadersMap(hs[..6]);
    assert m6 == m5["X-Content-Type-Options" := "nosniff"];
    assert hs[..7][..6] == hs[..6];
    var m7 := HeadersMap(hs[..7]);
    assert m7 == m6;
    assert hs[..8][..7] == hs[..7];
    assert hs[..8] == hs;
    assert HeadersMap(hs) == m7["X-XSS-Protection" := "1"];
  }

  /** With `{}` the dictionary holds exactly the five default headers. */
  lemma DefaultHeaders(encode: UriEncoder)
    ensures RuleHeaders(NoOptions, encode).Ok?
    ensures HeadersMap(RuleHeaders(NoOptions, encode).value) ==
      map["Strict-Transport-Security" := "max-age=63072000",
          "X-Frame-Options" := "deny",
          "X-Download-Options" := "noopen",
          "X-Content-Type-Options" := "nosniff",
          "X-XSS-Protection" := "1"]
  {
    DefaultRuleHeaders(encode);
    DefaultHeadersMap(RuleHeaders(NoOptions, encode).value);
  }
}
