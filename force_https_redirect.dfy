/** The Strict-Transport-Security rule (src/rules/force-https-redirect.ts),
    and a reader of the header it writes: the `max-age`, `includeSubDomains`
    and `preload` directives of RFC 6797 section 6.1, separated by "; ". */
module ForceHttpsRedirect {
  import opened Shared
  import opened Strings
  import opened MaxAgeDirectives

  const HeaderName := "Strict-Transport-Security"

  /** Two years, in seconds. */
  const DefaultMaxAge := 60 * 60 * 24 * 365 * 2

  /** The tuple's parameter object; an absent flag is `false`. */
  datatype HstsParams = HstsParams(maxAge: MaxAgeParam, includeSubDomains: bool, preload: bool)

  /** `ForceHTTPSRedirectOption`: undefined or null, a boolean, an array
      `[lead, params]` (`params` is `None` when missing or null), or any
      other value. */
  datatype HstsOption =
    | Unset
    | Flag(on: bool)
    | Tuple(lead: Lead, params: Option<HstsParams>)
    | Other

  /** What a Strict-Transport-Security header asks of the browser. */
  datatype HstsPolicy = HstsPolicy(maxAge: int, includeSubDomains: bool, preload: bool)

  /** The header text for a policy: the directives that apply, joined by "; ". */
  function HstsValue(age: int, includeSubDomains: bool, preload: bool): string
  {
    Join(Defined([Some(MaxAgeDirective(age)),
                  if includeSubDomains then Some("includeSubDomains") else None,
                  if preload then Some("preload") else None]), "; ")
  }

  /** Reads a header value: a `max-age` directive, then optionally
      `includeSubDomains`, then optionally `preload`. */
  function DecodeHsts(value: string): Option<HstsPolicy>
  {
    var directives := Split(value, "; ");
    match ParseMaxAge(directives[0])
    case None => None
    case Some(age) =>
      match ReadFlags(directives[1..])
      case None => None
      case Some(flags) => Some(HstsPolicy(age, flags.0, flags.1))
  }

  /** Reads the directives after `max-age`: the `includeSubDomains` and
      `preload` flags, in that order, each at most once. */
  function ReadFlags(rest: seq<string>): Option<(bool, bool)>
  {
    if rest == [] then Some((false, false))
    else if rest == ["includeSubDomains"] then Some((true, false))
    else if rest == ["preload"] then Some((false, true))
    else if rest == ["includeSubDomains", "preload"] then Some((true, true))
    else None
  }

  /** The flag directives read back as the flags they were written for. */
  lemma ReadFlagsRoundTrip(includeSubDomains: bool, preload: bool)
    ensures ReadFlags((if includeSubDomains then ["includeSubDomains"] else [])
                      + (if preload then ["preload"] else []))
         == Some((includeSubDomains, preload))
  {
    assert ["includeSubDomains"] != ["preload"];
    assert [] + ["preload"] == ["preload"];
    assert ["includeSubDomains"] + ["preload"] == ["includeSubDomains", "preload"];
  }

  /** The default directive is `max-age=63072000`. */
  lemma DefaultMaxAgeText()
    ensures MaxAgeDirective(DefaultMaxAge) == "max-age=63072000"
  {
    assert NatToString(6) == "6";
    assert NatToString(63) == "63";
    assert NatToString(630) == "630";
    assert NatToString(6307) == "6307";
    assert NatToString(63072) == "63072";
    assert NatToString(630720) == "630720";
    assert NatToString(6307200) == "6307200";
    assert NatToString(63072000) == "63072000";
  }

  /** With no flag set the value is the bare `max-age` directive. */
  lemma HstsValueMaxAgeOnly(age: int)
    ensures HstsValue(age, false, false) == MaxAgeDirective(age)
  {
    DefinedOfThree(Some(MaxAgeDirective(age)), None, None);
  }

  /** Every value the rule writes reads back as the policy it was written for. */
  lemma HstsValueRoundTrip(age: int, includeSubDomains: bool, preload: bool)
    ensures DecodeHsts(HstsValue(age, includeSubDomains, preload))
         == Some(HstsPolicy(age, includeSubDomains, preload))
  {
    var directives := Split(HstsValue(age, includeSubDomains, preload), "; ");
    var flags := (if includeSubDomains then ["includeSubDomains"] else []) + (if preload then ["preload"] else []);
    assert directives == [MaxAgeDirective(age)] + flags by {
      HstsValueSplits(age, includeSubDomains, preload);
    }
    assert directives[0] == MaxAgeDirective(age) && directives[1..] == flags;
    assert ParseMaxAge(MaxAgeDirective(age)) == Some(age) by {
      MaxAgeRoundTrip(age);
    }
    assert ReadFlags(flags) == Some((includeSubDomains, preload)) by {
      ReadFlagsRoundTrip(includeSubDomains, preload);
    }
  }

  /** The header text splits at "; " into the directives it was joined from. */
  lemma HstsValueSplits(age: int, includeSubDomains: bool, preload: bool)
    ensures Split(HstsValue(age, includeSubDomains, preload), "; ")
         == [MaxAgeDirective(age)] + (if includeSubDomains then ["includeSubDomains"] else [])
            + (if preload then ["preload"] else [])
  {
    var i: Option<string> := if includeSubDomains then Some("includeSubDomains") else None;
    var p: Option<string> := if preload then Some("preload") else None;
    var parts := Defined([Some(MaxAgeDirective(age)), i, p]);
    DefinedOfThree(Some(MaxAgeDirective(age)), i, p);
    SeparatorsBorderFree();
    MaxAgeDirectiveHasNoSeparator(age);
    FlagDirectivesHaveNoSeparator();
    SplitJoin(parts, "; ");
  }

  lemma FlagDirectivesHaveNoSeparator()
    ensures !Contains("includeSubDomains", "; ") && !Contains("preload", "; ")
  {
    MissingCharNoContains("includeSubDomains", "; ");
    MissingCharNoContains("preload", "; ");
  }

  /** `createHSTSHeaderValue`: `None` means the header is not sent. */
  function CreateHSTSHeaderValue(option: HstsOption): (r: Result<Option<string>>)
    ensures r == Ok(None) <==> option == Flag(false)
    ensures option.Unset? || option == Flag(true) ==>
      r.Ok? && r.value.Some? && DecodeHsts(r.value.value) == Some(HstsPolicy(DefaultMaxAge, false, false))
    ensures option.Unset? || option == Flag(true) ==>
      r == Ok(Some(HstsValue(DefaultMaxAge, false, false))) && r == Ok(Some("max-age=63072000"))
    ensures option.Other? || (option.Tuple? && option.lead != LeadTrue) ==> r == Err(InvalidOption)
    ensures option.Tuple? && option.lead == LeadTrue && option.params.None? ==> r == Err(TypeError)
    ensures option.Tuple? && option.lead == LeadTrue && option.params.Some? ==>
      var params := option.params.value;
      (r.Err? <==> params.maxAge.MaxAgeNotNumber? || params.maxAge == MaxAge(NonFinite)) &&
      (r.Err? ==> r.error == InvalidOption) &&
      (r.Ok? ==>
         var age := if params.maxAge.MaxAge? then params.maxAge.age.n else DefaultMaxAge;
         r.value == Some(HstsValue(age, params.includeSubDomains, params.preload)) &&
         DecodeHsts(r.value.value) == Some(HstsPolicy(age, params.includeSubDomains, params.preload)))
  {
    match option
    case Unset =>
      HstsValueMaxAgeOnly(DefaultMaxAge);
      HstsValueRoundTrip(DefaultMaxAge, false, false);
      DefaultMaxAgeText();
      Ok(Some(MaxAgeDirective(DefaultMaxAge)))
    case Flag(on) =>
      if !on then Ok(None)
      else
        HstsValueMaxAgeOnly(DefaultMaxAge);
        HstsValueRoundTrip(DefaultMaxAge, false, false);
        DefaultMaxAgeText();
        Ok(Some(MaxAgeDirective(DefaultMaxAge)))
    case Tuple(lead, params) =>
      if lead != LeadTrue then Err(InvalidOption)
      else if params.None? then Err(TypeError)
      else
        var maxAge :- ResolveMaxAge(params.value.maxAge, DefaultMaxAge);
        HstsValueRoundTrip(maxAge, params.value.includeSubDomains, params.value.preload);
        Ok(Some(HstsValue(maxAge, params.value.includeSubDomains, params.value.preload)))
    case Other => Err(InvalidOption)
  }

  /** `createForceHTTPSRedirectHeader`: the header is always produced, named
      Strict-Transport-Security, carrying the value (possibly none) or the
      value's error. */
  function CreateForceHTTPSRedirectHeader(option: HstsOption): (r: Result<ResponseHeader>)
    ensures r.Ok? <==> CreateHSTSHeaderValue(option).Ok?
    ensures r.Err? ==> r.error == CreateHSTSHeaderValue(option).error
    ensures r.Ok? ==> r.value.name == HeaderName && r.value.value == CreateHSTSHeaderValue(option).value
  {
    var value :- CreateHSTSHeaderValue(option);
    Ok(ResponseHeader(HeaderName, value))
  }
}
