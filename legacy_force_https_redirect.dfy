/** The earlier Strict-Transport-Security rule (src/force-https-redirect.ts):
    the tuple's first element is `true` or the max-age itself, and its
    second element, which may be missing, holds only the two flags. */
module LegacyForceHttpsRedirect {
  import opened Shared
  import opened Strings
  import opened MaxAgeDirectives
  import Current = ForceHttpsRedirect

  /** The tuple's optional second element; an absent flag is `false`. */
  datatype HstsFlags = HstsFlags(includeSubDomains: bool, preload: bool)

  /** The legacy `ForceHTTPSRedirectOption`; `flags` is `None` when the
      second element is missing or null. */
  datatype LegacyHstsOption =
    | Unset
    | Flag(on: bool)
    | Tuple(lead: Lead, flags: Option<HstsFlags>)
    | Other

  /** `createHSTSHeaderValue` of the legacy module. */
  function CreateHSTSHeaderValue(option: LegacyHstsOption): (r: Result<Option<string>>)
    ensures r == Ok(None) <==> option == Flag(false)
    ensures r.Err? ==> r.error == InvalidOption
    ensures option.Other? ==> r.Err?
    ensures option.Unset? || option == Flag(true) ==>
      r.Ok? && r.value.Some? &&
      Current.DecodeHsts(r.value.value) == Some(Current.HstsPolicy(Current.DefaultMaxAge, false, false))
    ensures option.Unset? || option == Flag(true) ==>
      r == Ok(Some(Current.HstsValue(Current.DefaultMaxAge, false, false))) && r == Ok(Some("max-age=63072000"))
    ensures option.Tuple? ==>
      var flags := if option.flags.Some? then option.flags.value else HstsFlags(false, false);
      (r.Err? <==> option.lead.LeadOther? || option.lead == LeadNumber(NonFinite)) &&
      (r.Ok? ==>
         var age := if option.lead.LeadNumber? then option.lead.number.n else Current.DefaultMaxAge;
         r.value == Some(Current.HstsValue(age, flags.includeSubDomains, flags.preload)) &&
         Current.DecodeHsts(r.value.value) ==
         Some(Current.HstsPolicy(age, flags.includeSubDomains, flags.preload)))
  {
    match option
    case Unset =>
      Current.HstsValueMaxAgeOnly(Current.DefaultMaxAge);
      Current.HstsValueRoundTrip(Current.DefaultMaxAge, false, false);
      Current.DefaultMaxAgeText();
      Ok(Some(MaxAgeDirective(Current.DefaultMaxAge)))
    case Flag(on) =>
      if !on then Ok(None)
      else
        Current.HstsValueMaxAgeOnly(Current.DefaultMaxAge);
        Current.HstsValueRoundTrip(Current.DefaultMaxAge, false, false);
        Current.DefaultMaxAgeText();
        Ok(Some(MaxAgeDirective(Current.DefaultMaxAge)))
    case Tuple(lead, flags) =>
      if lead == LeadNumber(NonFinite) then Err(InvalidOption)
      else if !lead.LeadNumber? && lead != LeadTrue then Err(InvalidOption)
      else
        var maxAge := if lead.LeadNumber? then lead.number.n else Current.DefaultMaxAge;
        var f := if flags.Some? then flags.value else HstsFlags(false, false);
        Current.HstsValueRoundTrip(maxAge, f.includeSubDomains, f.preload);
        Ok(Some(Current.HstsValue(maxAge, f.includeSubDomains, f.preload)))
    case Other => Err(InvalidOption)
  }

  /** `createForceHTTPSRedirectHeader` of the legacy module. */
  function CreateForceHTTPSRedirectHeader(option: LegacyHstsOption): (r: Result<ResponseHeader>)
    ensures r.Ok? <==> CreateHSTSHeaderValue(option).Ok?
    ensures r.Err? ==> r.error == CreateHSTSHeaderValue(option).error
    ensures r.Ok? ==> r.value.name == Current.HeaderName && r.value.value == CreateHSTSHeaderValue(option).value
  {
    var value :- CreateHSTSHeaderValue(option);
    Ok(ResponseHeader(Current.HeaderName, value))
  }

  /** The current option that says the same thing: `[n, flags]` becomes
      `[true, { maxAge: n, ...flags }]` and `[true, flags]` leaves `maxAge`
      out. */
  function ToCurrent(option: LegacyHstsOption): Current.HstsOption
  {
    match option
    case Unset => Current.Unset
    case Flag(on) => Current.Flag(on)
    case Tuple(lead, flags) =>
      var f := if flags.Some? then flags.value else HstsFlags(false, false);
      var maxAge := if lead.LeadNumber? then MaxAge(lead.number) else MaxAgeAbsent;
      Current.Tuple(if lead.LeadNumber? then LeadTrue else lead,
                    Some(Current.HstsParams(maxAge, f.includeSubDomains, f.preload)))
    case Other => Current.Other
  }

  /** Both rules write the same header, or both reject, for every legacy
      option and its current counterpart. */
  lemma LegacyAgreesWithCurrent(option: LegacyHstsOption)
    ensures CreateHSTSHeaderValue(option) == Current.CreateHSTSHeaderValue(ToCurrent(option))
  {
  }

  /** A tuple without its second element is accepted by the legacy rule but
      makes the current rule fail on the missing parameter object. */
  lemma BareTupleOnlyLegacy()
    ensures CreateHSTSHeaderValue(Tuple(LeadTrue, None)).Ok?
    ensures Current.CreateHSTSHeaderValue(Current.Tuple(LeadTrue, None)) == Err(TypeError)
  {
  }
}
