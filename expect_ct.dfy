/** The Expect-CT rule (src/rules/expect-ct.ts), and a reader of the header
    it writes: `max-age`, then optionally `enforce`, then optionally
    `report-uri=<uri>`, separated by ", " (the directives of RFC 9163
    section 2.1, with the URI written unquoted as this rule writes it). */
module ExpectCT {
  import opened Shared
  import opened Strings
  import opened MaxAgeDirectives

  const HeaderName := "Expect-CT"

  /** One day, in seconds. */
  const DefaultMaxAge := 60 * 60 * 24

  /** The tuple's parameter object; `reportURI` is `None` when missing or null. */
  datatype ExpectCTParams = ExpectCTParams(maxAge: MaxAgeParam, enforce: bool, reportURI: Option<string>)

  /** `ExpectCTOption`: undefined or null, a boolean, an array
      `[lead, params]` (`params` is `None` when missing or null), or any
      other value. */
  datatype ExpectCTOption =
    | Unset
    | Flag(on: bool)
    | Tuple(lead: Lead, params: Option<ExpectCTParams>)
    | Other

  /** What an Expect-CT header asks of the browser; `reportUri` is the
      serialised URI. */
  datatype ExpectCTPolicy = ExpectCTPolicy(maxAge: int, enforce: bool, reportUri: Option<string>)

  const ReportUriPrefix := "report-uri="

  /** The default max-age as the header writes it. */
  lemma DefaultMaxAgeText()
    ensures MaxAgeDirective(DefaultMaxAge) == "max-age=86400"
  {
    assert NatToString(8) == "8";
    assert NatToString(86) == "86";
    assert NatToString(864) == "864";
    assert NatToString(8640) == "8640";
    assert NatToString(86400) == "86400";
  }

  /** The header text for a policy: the directives that apply, joined by ", ". */
  function ExpectCTValue(age: int, enforce: bool, reportUri: Option<string>): string
  {
    Join(Defined([Some(MaxAgeDirective(age)),
                  if enforce then Some("enforce") else None,
                  if reportUri.Some? then Some(ReportUriPrefix + reportUri.value) else None]), ", ")
  }

  /** Reads a header value. Everything after the `report-uri=` prefix is the
      URI, which may itself contain ", ". */
  function DecodeExpectCT(value: string): Option<ExpectCTPolicy>
  {
    var directives := Split(value, ", ");
    match ParseMaxAge(directives[0])
    case None => None
    case Some(age) =>
      var rest := directives[1..];
      var enforce := rest != [] && rest[0] == "enforce";
      var rest := if enforce then rest[1..] else rest;
      if rest == [] then Some(ExpectCTPolicy(age, enforce, None))
      else
        var tail := Join(rest, ", ");
        if HasPrefix(tail, ReportUriPrefix) then
          Some(ExpectCTPolicy(age, enforce, Some(tail[|ReportUriPrefix|..])))
        else None
  }

  /** A directive list that starts with `report-uri=...` does not start with
      `enforce`, and joins back to that directive. */
  lemma ReportDirectiveIsNotEnforce(uri: string)
    ensures var parts := Split(ReportUriPrefix + uri, ", ");
      parts[0] != "enforce" && Join(parts, ", ") == ReportUriPrefix + uri
  {
  }

  /** The directives of a value, before they are joined. */
  lemma ExpectCTDirectives(age: int, enforce: bool, reportUri: Option<string>)
    ensures Defined([Some(MaxAgeDirective(age)),
                     if enforce then Some("enforce") else None,
                     if reportUri.Some? then Some(ReportUriPrefix + reportUri.value) else None])
         == [MaxAgeDirective(age)] + (if enforce then ["enforce"] else [])
            + (if reportUri.Some? then [ReportUriPrefix + reportUri.value] else [])
  {
    DefinedOfThree(Some(MaxAgeDirective(age)),
                   if enforce then Some("enforce") else None,
                   if reportUri.Some? then Some(ReportUriPrefix + reportUri.value) else None);
  }

  /** The `max-age` and `enforce` directives are free of ", ". */
  lemma HeadDirectivesHaveNoSeparator(age: int, enforce: bool)
    ensures var head := [MaxAgeDirective(age)] + (if enforce then ["enforce"] else []);
      forall k :: 0 <= k < |head| ==> !Contains(head[k], ", ")
  {
    MaxAgeDirectiveHasNoSeparator(age);
    MissingCharNoContains("enforce", ", ");
  }

  /** A value without a report URI reads back as its policy. */
  lemma RoundTripWithoutReport(age: int, enforce: bool)
    ensures DecodeExpectCT(ExpectCTValue(age, enforce, None)) == Some(ExpectCTPolicy(age, enforce, None))
  {
    var head := [MaxAgeDirective(age)] + (if enforce then ["enforce"] else []);
    ExpectCTDirectives(age, enforce, None);
    assert head + [] == head;
    SeparatorsBorderFree();
    HeadDirectivesHaveNoSeparator(age, enforce);
    SplitJoin(head, ", ");
    MaxAgeRoundTrip(age);
  }

  /** A value with a report URI reads back as its policy. */
  lemma RoundTripWithReport(age: int, enforce: bool, uri: string)
    ensures DecodeExpectCT(ExpectCTValue(age, enforce, Some(uri))) == Some(ExpectCTPolicy(age, enforce, Some(uri)))
  {
    var flags := if enforce then ["enforce"] else [];
    var head := [MaxAgeDirective(age)] + flags;
    var d := ReportUriPrefix + uri;
    var v := ExpectCTValue(age, enforce, Some(uri));
    var parts := Split(d, ", ");
    var directives := Split(v, ", ");
    assert directives == [MaxAgeDirective(age)] + (flags + parts) by {
      ExpectCTDirectives(age, enforce, Some(uri));
      SeparatorsBorderFree();
      HeadDirectivesHaveNoSeparator(age, enforce);
      JoinAppend(head, d, ", ");
      assert v == Join(head, ", ") + ", " + d;
      SplitAfterJoin(head, ", ", d);
      assert head + parts == [MaxAgeDirective(age)] + (flags + parts);
    }
    assert ParseMaxAge(directives[0]) == Some(age) by {
      MaxAgeRoundTrip(age);
    }
    assert parts[0] != "enforce" && Join(parts, ", ") == d by {
      ReportDirectiveIsNotEnforce(uri);
    }
    var rest := directives[1..];
    assert rest == flags + parts;
    if enforce {
      assert rest[0] == "enforce" && rest[1..] == parts;
    } else {
      assert rest == parts;
    }
    assert HasPrefix(d, ReportUriPrefix) && d[|ReportUriPrefix|..] == uri;
  }

  /** Every value the rule writes reads back as the policy it was written for. */
  lemma ExpectCTValueRoundTrip(age: int, enforce: bool, reportUri: Option<string>)
    ensures DecodeExpectCT(ExpectCTValue(age, enforce, reportUri))
         == Some(ExpectCTPolicy(age, enforce, reportUri))
  {
    if reportUri.None? {
      RoundTripWithoutReport(age, enforce);
    } else {
      RoundTripWithReport(age, enforce, reportUri.value);
    }
  }

  /** `createExpectCTHeaderValue`: `None` means the header is not sent. */
  function CreateExpectCTHeaderValue(option: ExpectCTOption, encode: UriEncoder): (r: Result<Option<string>>)
    ensures r == Ok(None) <==> option.Unset? || option == Flag(false)
    ensures option == Flag(true) ==>
      r.Ok? && r.value.Some? && DecodeExpectCT(r.value.value) == Some(ExpectCTPolicy(DefaultMaxAge, false, None))
    ensures option == Flag(true) ==>
      r == Ok(Some(ExpectCTValue(DefaultMaxAge, false, None))) && r == Ok(Some("max-age=86400"))
    ensures option.Other? || (option.Tuple? && option.lead != LeadTrue) ==> r == Err(InvalidOption)
    ensures option.Tuple? && option.lead == LeadTrue && option.params.None? ==> r == Err(TypeError)
    ensures option.Tuple? && option.lead == LeadTrue && option.params.Some? ==>
      var params := option.params.value;
      var ageOk := !(params.maxAge.MaxAgeNotNumber? || params.maxAge == MaxAge(NonFinite));
      var uriOk := params.reportURI.None? || encode(params.reportURI.value).Some?;
      (r.Ok? <==> ageOk && uriOk) &&
      (!ageOk ==> r == Err(InvalidOption)) &&
      (ageOk && !uriOk ==> r == Err(InvalidUri)) &&
      (r.Ok? ==>
         var age := if params.maxAge.MaxAge? then params.maxAge.age.n else DefaultMaxAge;
         var reportUri := if params.reportURI.Some? then encode(params.reportURI.value) else None;
         r.value == Some(ExpectCTValue(age, params.enforce, reportUri)) &&
         DecodeExpectCT(r.value.value) == Some(ExpectCTPolicy(age, params.enforce, reportUri)))
  {
    match option
    case Unset => Ok(None)
    case Flag(on) =>
      if !on then Ok(None)
      else
        DefinedOfThree(Some(MaxAgeDirective(DefaultMaxAge)), None, None);
        ExpectCTValueRoundTrip(DefaultMaxAge, false, None);
        DefaultMaxAgeText();
        Ok(Some(MaxAgeDirective(DefaultMaxAge)))
    case Tuple(lead, params) =>
      if lead != LeadTrue then Err(InvalidOption)
      else if params.None? then Err(TypeError)
      else
        var maxAge :- ResolveMaxAge(params.value.maxAge, DefaultMaxAge);
        var reportUri: Option<string> := if params.value.reportURI.Some? then encode(params.value.reportURI.value) else None;
        if params.value.reportURI.Some? && reportUri.None? then Err(InvalidUri)
        else
          ExpectCTValueRoundTrip(maxAge, params.value.enforce, reportUri);
          Ok(Some(ExpectCTValue(maxAge, params.value.enforce, reportUri)))
    case Other => Err(InvalidOption)
  }

  /** `createExpectCTHeader`: the header is always produced, named Expect-CT,
      carrying the value (possibly none) or the value's error. */
  function CreateExpectCTHeader(option: ExpectCTOption, encode: UriEncoder): (r: Result<ResponseHeader>)
    ensures r.Ok? <==> CreateExpectCTHeaderValue(option, encode).Ok?
    ensures r.Err? ==> r.error == CreateExpectCTHeaderValue(option, encode).error
    ensures r.Ok? ==> r.value.name == HeaderName && r.value.value == CreateExpectCTHeaderValue(option, encode).value
  {
    var value :- CreateExpectCTHeaderValue(option, encode);
    Ok(ResponseHeader(HeaderName, value))
  }
}
