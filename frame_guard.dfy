/** The X-Frame-Options rule (src/rules/frame-guard.ts), and a reader of the
    three forms of the header (RFC 7034 section 2.1). */
module FrameGuard {
  import opened Shared
  import opened Strings
  import opened TokenOptions

  const HeaderName := "X-Frame-Options"

  const AllowFromPrefix := "allow-from "

  /** The framing policies the header expresses. */
  datatype FramePolicy = Deny | SameOrigin | AllowFrom(origin: string)

  /** Reads a header value. */
  function DecodeXFrameOptions(value: string): Option<FramePolicy>
  {
    if value == "deny" then Some(Deny)
    else if value == "sameorigin" then Some(SameOrigin)
    else if HasPrefix(value, AllowFromPrefix) then Some(AllowFrom(value[|AllowFromPrefix|..]))
    else None
  }

  /** The options the rule rejects as invalid. */
  predicate Rejected(option: TokenOption)
  {
    || option == Flag(true)
    || option.Other?
    || (option.Token? && option.text != "deny" && option.text != "sameorigin")
    || (option.Tagged? && option.tag != "allow-from")
  }

  /** `createXFrameOptionsHeaderValue`: `None` means the header is not sent. */
  function CreateXFrameOptionsHeaderValue(option: TokenOption, encode: UriEncoder): (r: Result<Option<string>>)
    ensures r == Ok(None) <==> option == Flag(false)
    ensures r == Err(InvalidOption) <==> Rejected(option)
    ensures option.Unset? || option == Token("deny") ==>
      r.Ok? && r.value.Some? && DecodeXFrameOptions(r.value.value) == Some(Deny)
    ensures option == Token("sameorigin") ==>
      r.Ok? && r.value.Some? && DecodeXFrameOptions(r.value.value) == Some(SameOrigin)
    ensures option.Tagged? && option.tag == "allow-from" ==>
      (r.Ok? <==> encode(option.uri).Some?) &&
      (r.Err? ==> r.error == InvalidUri) &&
      (r.Ok? ==>
         r.value.Some? &&
         DecodeXFrameOptions(r.value.value) == Some(AllowFrom(encode(option.uri).value)))
  {
    match option
    case Unset => Ok(Some("deny"))
    case Flag(on) => if on then Err(InvalidOption) else Ok(None)
    case Token(text) =>
      if text == "deny" || text == "sameorigin" then Ok(Some(text)) else Err(InvalidOption)
    case Tagged(tag, uri) =>
      if tag != "allow-from" then Err(InvalidOption)
      else
        (match encode(uri)
         case None => Err(InvalidUri)
         case Some(serialised) =>
          var value := tag + " " + serialised;
          assert value[..|AllowFromPrefix|] == AllowFromPrefix;
          Ok(Some(value)))
    case Other => Err(InvalidOption)
  }

  /** `createFrameGuardHeader`: the header is always produced, named
      X-Frame-Options, carrying the value (possibly none) or its error. */
  function CreateFrameGuardHeader(option: TokenOption, encode: UriEncoder): (r: Result<ResponseHeader>)
    ensures r.Ok? <==> CreateXFrameOptionsHeaderValue(option, encode).Ok?
    ensures r.Err? ==> r.error == CreateXFrameOptionsHeaderValue(option, encode).error
    ensures r.Ok? ==> r.value.name == HeaderName && r.value.value == CreateXFrameOptionsHeaderValue(option, encode).value
  {
    var value :- CreateXFrameOptionsHeaderValue(option, encode);
    Ok(ResponseHeader(HeaderName, value))
  }
}
