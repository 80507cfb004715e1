/** The X-Content-Type-Options rule (src/rules/nosniff.ts). */
module Nosniff {
  import opened Shared
  import opened TokenOptions

  const HeaderName := "X-Content-Type-Options"

  /** `createXContentTypeOptionsHeaderValue`: the only value ever sent is
      `nosniff`; `false` omits the header and anything else is rejected. */
  function CreateXContentTypeOptionsHeaderValue(option: TokenOption): (r: Result<Option<string>>)
    ensures r.Ok? <==> option.Unset? || option == Flag(false) || option == Token("nosniff")
    ensures r == Ok(None) <==> option == Flag(false)
    ensures r.Ok? && r.value.Some? ==> r.value.value == "nosniff"
    ensures r.Err? ==> r.error == InvalidOption
  {
    match option
    case Unset => Ok(Some("nosniff"))
    case Flag(on) => if on then Err(InvalidOption) else Ok(None)
    case Token(text) => if text == "nosniff" then Ok(Some(text)) else Err(InvalidOption)
    case _ => Err(InvalidOption)
  }

  /** `createNosniffHeader`: the header is always produced, named
      X-Content-Type-Options, carrying the value (possibly none) or its error. */
  function CreateNosniffHeader(option: TokenOption): (r: Result<ResponseHeader>)
    ensures r.Ok? <==> CreateXContentTypeOptionsHeaderValue(option).Ok?
    ensures r.Err? ==> r.error == CreateXContentTypeOptionsHeaderValue(option).error
    ensures r.Ok? ==> r.value.name == HeaderName && r.value.value == CreateXContentTypeOptionsHeaderValue(option).value
  {
    var value :- CreateXContentTypeOptionsHeaderValue(option);
    Ok(ResponseHeader(HeaderName, value))
  }
}
