/** The option shape shared by the single-token rules. */
module TokenOptions {

  /** The options of the single-token headers (X-Frame-Options,
      X-XSS-Protection, X-Content-Type-Options, X-Download-Options):
      undefined or null, a boolean, a string, a two-element array
      `[tag, { uri }]`, or any other value. */
  datatype TokenOption =
    | Unset
    | Flag(on: bool)
    | Token(text: string)
    | Tagged(tag: string, uri: string)
    | Other
}
