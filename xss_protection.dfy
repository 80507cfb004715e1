/** The X-XSS-Protection rule (src/rules/xss-protection.ts), and a reader of
    the four forms of the header it writes. */
module XssProtection {
  import opened Shared
  import opened Strings
  import opened TokenOptions

  const HeaderName := "X-XSS-Protection"

  const ReportPrefix := "1; report="

  /** What the header asks of the browser's XSS filter. */
  datatype XssFilter = FilterOff | Sanitize | BlockRendering | ReportTo(uri: string)

  /** Reads a header value. */
  function DecodeXXSSProtection(value: string): Option<XssFilter>
  {
    if value == "0" then Some(FilterOff)
    else if value == "1" then Some(Sanitize)
    else if value == "1; mode=block" then Some(BlockRendering)
    else if HasPrefix(value, ReportPrefix) then Some(ReportTo(value[|ReportPrefix|..]))
    else None
  }

  /** The options the rule rejects as invalid. */
  predicate Rejected(option: TokenOption)
  {
    || option == Flag(true)
    || option.Other?
    || (option.Token? && option.text != "sanitize" && option.text != "block-rendering")
    || (option.Tagged? && option.tag != "report")
  }

  /** `createXXSSProtectionHeaderValue`: a value is always sent when the
      option is accepted; `false` switches the filter off rather than
      omitting the header. */
  function CreateXXSSProtectionHeaderValue(option: TokenOption, encode: UriEncoder): (r: Result<Option<string>>)
    ensures r.Ok? ==> r.value.Some?
    ensures r == Err(InvalidOption) <==> Rejected(option)
    ensures option == Flag(false) ==>
      r.Ok? && DecodeXXSSProtection(r.value.value) == Some(FilterOff)
    ensures option.Unset? || option == Token("sanitize") ==>
      r.Ok? && DecodeXXSSProtection(r.value.value) == Some(Sanitize)
    ensures option == Token("block-rendering") ==>
      r.Ok? && DecodeXXSSProtection(r.value.value) == Some(BlockRendering)
    ensures option.Tagged? && option.tag == "report" ==>
      (r.Ok? <==> encode(option.uri).Some?) &&
      (r.Err? ==> r.error == InvalidUri) &&
      (r.Ok? ==> DecodeXXSSProtection(r.value.value) == Some(ReportTo(encode(option.uri).value)))
  {
    match option
    case Unset => Ok(Some("1"))
    case Flag(on) => if on then Err(InvalidOption) else Ok(Some("0"))
    case Token(text) =>
      if text == "sanitize" then Ok(Some("1"))
      else if text == "block-rendering" then Ok(Some("1; mode=block"))
      else Err(InvalidOption)
    case Tagged(tag, uri) =>
      if tag != "report" then Err(InvalidOption)
      else
        (match encode(uri)
         case None => Err(InvalidUri)
         case Some(serialised) =>
          var value := "1; report=" + serialised;
          assert value[..|ReportPrefix|] == ReportPrefix;
          assert value[3] == 'r' != "1; mode=block"[3];
          Ok(Some(value)))
    case Other => Err(InvalidOption)
  }

  /** `createXSSProtectionHeader`: the header is always produced, named
      X-XSS-Protection, carrying the value or its error. */
  function CreateXSSProtectionHeader(option: TokenOption, encode: UriEncoder): (r: Result<ResponseHeader>)
    ensures r.Ok? <==> CreateXXSSProtectionHeaderValue(option, encode).Ok?
    ensures r.Err? ==> r.error == CreateXXSSProtectionHeaderValue(option, encode).error
    ensures r.Ok? ==> r.value.name == HeaderName && r.value.value == CreateXXSSProtectionHeaderValue(option, encode).value
  {
    var value :- CreateXXSSProtectionHeaderValue(option, encode);
    Ok(ResponseHeader(HeaderName, value))
  }
}
