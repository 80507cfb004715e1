/** The X-Download-Options rule (src/rules/noopen.ts). */
module Noopen {
  import opened Shared
  import opened TokenOptions

  const HeaderName := "X-Download-Options"

  /** `createXDownloadOptionsHeaderValue`: the only value ever sent is
      `noopen`; `false` omits the header and anything else is rejected. */
  function CreateXDownloadOptionsHeaderValue(option: TokenOption): (r: Result<Option<string>>)
    ensures r.Ok? <==> option.Unset? || option == Flag(false) || option == Token("noopen")
    ensures r == Ok(None) <==> option == Flag(false)
    ensures r.Ok? && r.value.Some? ==> r.value.value == "noopen"
    ensures r.Err? ==> r.error == InvalidOption
  {
    match option
    case Unset => Ok(Some("noopen"))
    case Flag(on) => if on then Err(InvalidOption) else Ok(None)
    case Token(text) => if text == "noopen" then Ok(Some(text)) else Err(InvalidOption)
    case _ => Err(InvalidOption)
  }

  /** `createNoopenHeader`: the header is always produced, named
      X-Download-Options, carrying the value (possibly none) or its error. */
  function CreateNoopenHeader(option: TokenOption): (r: Result<ResponseHeader>)
    ensures r.Ok? <==> CreateXDownloadOptionsHeaderValue(option).Ok?
    ensures r.Err? ==> r.error == CreateXDownloadOptionsHeaderValue(option).error
    ensures r.Ok? ==> r.value.name == HeaderName && r.value.value == CreateXDownloadOptionsHeaderValue(option).value
  {
    var value :- CreateXDownloadOptionsHeaderValue(option);
    Ok(ResponseHeader(HeaderName, value))
  }
}
