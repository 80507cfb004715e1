# next-secure-headers: header synthesis

This project is a Dafny model of how next-secure-headers turns a page's
security options into HTTP response headers. It covers:

- each rule's header-value function and header constructor:
  Content-Security-Policy and its report-only variant, Expect-CT,
  Strict-Transport-Security (the current rule and the older top-level
  variant), X-Frame-Options, X-XSS-Protection, X-Content-Type-Options,
  X-Download-Options, Referrer-Policy (and its duplicate, the referrer
  guard) and Feature-Policy;
- the `wrapArray` helper;
- `createHeadersObject`, which runs the eight wired rules in order and
  collects the headers that have a value into a name-to-value map.

A JavaScript option value is sniffed at run time (undefined, a boolean, a
string, a tuple, an object). Here each shape a rule tells apart is an
explicit datatype variant, and every exception a rule throws is an `Err`
of a `Result`.

The URL parser and serialiser is not modelled. Both `new URL(...)` and
`encodeStrictURI` are represented by one parameter of type
`string -> Option<string>`: `None` means the parser threw.

Every rule value is paired with a reader that proves it well formed:

- HSTS and Expect-CT values each have a decoder, with a round-trip lemma.
- Content-Security-Policy values are described as an abstract list of
  directives, rendered by `PolicyText`. The reader `ParsePolicy` gives that
  list back when names and sources are clean, meaning non-empty, with no
  space and no `;`. This is a looser form of the grammar in section 2.3
  of W3C Content Security Policy Level 3.
- Feature-Policy's `reduce` followed by `trim` is proved equal to joining
  the per-directive texts with a space.
- The referrer guard is proved identical to the referrer policy rule.

The imperative parts of the source become methods, each proved against
the specification function it implements:

- `convertFetchDirectiveToString`: a loop over the entries that pushes onto
  a `strings` array, then a join;
- `convertDocumentDirectiveToString`, `convertReportingDirectiveToString`:
  conditional pushes onto a `strings` array, with no loop, then a join;
- `createHeadersObject`: a loop that fills a map.

Notes on the model:

- The code is followed where it and the test files disagree.
  `src/rules/referrer-policy.spec.ts` lines 6 and 12 expect
  `createReferrerPolicyHeader()` and `createReferrerPolicyHeader(false)` to
  be `undefined`. The code (`src/rules/referrer-policy.ts:35-37`) returns
  the object `{ name: "Referrer-Policy", value: undefined }` for those
  inputs. The model does the same: `CreateReferrerPolicyHeader` gives a
  Referrer-Policy header with no value.
- Negative and zero `maxAge` values are accepted, as in the code. Only a
  non-number or a non-finite number is rejected.
- `reportOnly` is a boolean.
- `sandbox: true` is written as the bare word `sandbox`.
- Every other directive is written as `name` + space + its values joined by
  spaces. An empty array therefore gives `name ` with a trailing space.
- Both spellings of a fetch directive key (`scriptSrc` and `script-src`)
  are written when both are given. The code does no deduplication.
- For the document and reporting directives, the camel-case key wins over
  the kebab-case key, because the code uses `??`.

## Model

| member | source | states |
|---|---|---|
| ArrayWrapper.WrapArrayScalar | src/rules/shared/array-wrapper.ts:1 | a non-array value is wrapped as the one-element array holding it |
| ArrayWrapper.WrapArrayArray | src/rules/shared/array-wrapper.ts:1 | an array is returned unchanged (empty stays empty) |
| ArrayWrapper.WrapArrayIdempotent | src/rules/shared/array-wrapper.ts:1 | wrapping an already wrapped value changes nothing |
| Shared.ResolveMaxAge | src/rules/expect-ct.ts:16-19 | `maxAge ?? default` is accepted iff missing or a finite number, giving the default or that number; otherwise the invalid-option error |
| Shared.Defined | src/rules/expect-ct.ts:27 | the undefined-filter keeps only defined entries, drops none when all are defined, and invents none |
| Shared.DefinedMembers | src/rules/expect-ct.ts:27 | a string is in the filtered list exactly when it is a defined entry of the literal |
| Shared.DefinedAppend | src/rules/expect-ct.ts:27 | the filter keeps order: filtering `xs` followed by one more entry is the filtered `xs` followed by that entry when it is defined |
| MaxAgeDirectives.MaxAgeRoundTrip | src/rules/force-https-redirect.ts:26 | `max-age=<n>` reads back as n for every integer n |
| MaxAgeDirectives.MaxAgeReadsOnlyWritten | src/rules/force-https-redirect.ts:26 | the only directive that reads as n is the one written for n (no leading zeros, no `-0`) |
| ForceHttpsRedirect.CreateHSTSHeaderValue | src/rules/force-https-redirect.ts:10-32 | undefined and true give the two-year default; false gives no value; a tuple not led by true, or another value, is the invalid-option error; a tuple without parameters is a TypeError; a non-number or non-finite maxAge is invalid; otherwise exactly the `; `-joined text of `max-age=<that max-age or the default>` and the flags that are set, which decodes back to that policy; the default text is exactly `max-age=63072000` |
| ForceHttpsRedirect.DefaultMaxAgeText | src/rules/force-https-redirect.ts:8 | the default directive is exactly `max-age=63072000` |
| ForceHttpsRedirect.HstsValueMaxAgeOnly | src/rules/force-https-redirect.ts:26-28 | with no flags the value is the max-age directive alone |
| ForceHttpsRedirect.HstsValueRoundTrip | src/rules/force-https-redirect.ts:26-28 | decoding a written HSTS value gives back its max-age and both flags |
| ForceHttpsRedirect.CreateForceHTTPSRedirectHeader | src/rules/force-https-redirect.ts:34-41 | the header is Strict-Transport-Security carrying the value; errors are passed on unchanged |
| LegacyForceHttpsRedirect.CreateHSTSHeaderValue | src/force-https-redirect.ts:11-33 | the older rule: a leading number is the max-age, a leading true the default; non-finite numbers and other leads are invalid; missing parameters give no flags; the value is exactly the `; `-joined directive text of that policy and decodes back to it; the default text is exactly `max-age=63072000` |
| LegacyForceHttpsRedirect.CreateForceHTTPSRedirectHeader | src/force-https-redirect.ts:35-39 | the older header is Strict-Transport-Security with that value, or the same error |
| LegacyForceHttpsRedirect.LegacyAgreesWithCurrent | src/force-https-redirect.ts:11-33 | on every option both rules can express, the older rule gives exactly the current rule's result |
| LegacyForceHttpsRedirect.BareTupleOnlyLegacy | src/force-https-redirect.ts:25 | `[true]` without parameters succeeds in the older rule, while the current rule fails with a TypeError |
| ExpectCT.ExpectCTDirectives | src/rules/expect-ct.ts:22-28 | the filtered directive list is max-age, then enforce if set, then report-uri if given |
| ExpectCT.ExpectCTValueRoundTrip | src/rules/expect-ct.ts:22-28 | decoding a written Expect-CT value gives back its max-age, enforce flag and report URI |
| ExpectCT.CreateExpectCTHeaderValue | src/rules/expect-ct.ts:8-32 | undefined and false give no value; true gives one day; a bad lead or other value is invalid; missing parameters are a TypeError; a bad maxAge is invalid; an unparsable report URI is the URI error; otherwise exactly the `, `-joined text of `max-age=<n>`, `enforce` when set and `report-uri=<serialised URI>` when given, which decodes back to that policy; true gives exactly `max-age=86400` |
| ExpectCT.DefaultMaxAgeText | src/rules/expect-ct.ts:6-11 | the one-day default directive is exactly `max-age=86400` |
| ExpectCT.CreateExpectCTHeader | src/rules/expect-ct.ts:34-41 | the header is Expect-CT carrying that value, or the same error |
| FrameGuard.CreateXFrameOptionsHeaderValue | src/rules/frame-guard.ts:7-18 | undefined and "deny" give deny; "sameorigin" gives sameorigin; false gives no value; `["allow-from", {uri}]` gives `allow-from <serialised uri>` or the URI error; everything else is rejected; each value decodes back to its policy |
| FrameGuard.CreateFrameGuardHeader | src/rules/frame-guard.ts:20-27 | the header is X-Frame-Options carrying that value, or the same error |
| XssProtection.CreateXXSSProtectionHeaderValue | src/rules/xss-protection.ts:8-22 | a value is always present on success: false gives 0; undefined and "sanitize" give 1; "block-rendering" gives `1; mode=block`; `["report", {uri}]` gives `1; report=<encoded uri>` or the URI error; everything else is rejected |
| XssProtection.CreateXSSProtectionHeader | src/rules/xss-protection.ts:24-31 | the header is X-XSS-Protection carrying that value, or the same error |
| Nosniff.CreateXContentTypeOptionsHeaderValue | src/rules/nosniff.ts:7-13 | success iff undefined, false or "nosniff"; no value iff false; any value present is nosniff; otherwise the invalid-option error |
| Nosniff.CreateNosniffHeader | src/rules/nosniff.ts:15-22 | the header is X-Content-Type-Options carrying that value, or the same error |
| Noopen.CreateXDownloadOptionsHeaderValue | src/rules/noopen.ts:7-13 | success iff undefined, false or "noopen"; no value iff false; any value present is noopen; otherwise the invalid-option error |
| Noopen.CreateNoopenHeader | src/rules/noopen.ts:15-22 | the header is X-Download-Options carrying that value, or the same error |
| ReferrerPolicy.CheckValues | src/rules/referrer-policy.ts:23-26 | no error iff every value is one of the seven supported values; the dangerous-value error iff "unsafe-url" comes before any other unsupported value |
| ReferrerPolicy.SupportedValuesHaveNoSeparator | src/rules/referrer-policy.ts:3-11 | no supported value contains ", ", so the joined header can be split back into its values |
| ReferrerPolicy.CreateReferrerPolicyHeaderValue | src/rules/referrer-policy.ts:17-29 | undefined and false give no value; one value or an array of values is checked in order and joined by ", " |
| ReferrerPolicy.CreateReferrerPolicyHeader | src/rules/referrer-policy.ts:31-38 | the header is Referrer-Policy carrying that value, or the same error |
| ReferrerPolicy.NoValueStillGivesHeader | src/rules/referrer-policy.ts:31-38 | undefined and false give a Referrer-Policy header whose value is missing, not a missing header |
| ReferrerGuard.CheckValuesAgree | src/rules/referrer-guard.ts:23-26 | the guard's value check equals the policy rule's check on every list |
| ReferrerGuard.GuardAgreesWithPolicy | src/rules/referrer-guard.ts:17-38 | the guard's value and header equal the policy rule's on every option |
| FeaturePolicy.AppendDirectiveWritesPolicyDirective | src/rules/feature-policy.ts:52-76 | one reduce step fails iff that directive is invalid, with the same error; otherwise it appends the directive's text and "; " |
| FeaturePolicy.ReduceWritesPolicyDirectives | src/rules/feature-policy.ts:51-76 | the reduce fails iff some directive is invalid, with the first error; otherwise it is the concatenation of each directive's text plus "; " |
| FeaturePolicy.PolicyDirectivesShape | src/rules/feature-policy.ts:53-75 | one directive per entry, each starting with its entry's feature name and ending in ';' |
| FeaturePolicy.PolicyDirectiveShape | src/rules/feature-policy.ts:54-75 | a directive is written only for a supported feature name, starts with that name and ends in ';' |
| FeaturePolicy.TrimmedFoldIsJoin | src/rules/feature-policy.ts:51-77 | trimming the reduced string equals joining the directive texts with a space |
| FeaturePolicy.CreateFeaturePolicyHeaderValue | src/rules/feature-policy.ts:48-80 | falsy options give no value; otherwise the value is the space-joined directive texts, or the first directive's error |
| FeaturePolicy.CreateFeaturePolicyHeader | src/rules/feature-policy.ts:82-91 | falsy options give no header; otherwise a Feature-Policy header with that value, or the same error |
| FeaturePolicy.NoneTakesPrecedence | src/rules/feature-policy.ts:63 | with `none` set, the other parameters do not matter |
| FeaturePolicy.AllTakesPrecedence | src/rules/feature-policy.ts:64 | with `all` set and `none` unset, self and origins do not matter |
| FeaturePolicy.NoneIsWrittenAsNone | src/rules/feature-policy.ts:63 | a supported directive with `none` is written as `<name> 'none';` |
| FeaturePolicy.SelfThenOriginsAreWritten | src/rules/feature-policy.ts:70-75 | self and origins give `<name> 'self' <origins joined by space>;` |
| ContentSecurityPolicy.GetProperHeaderName | src/rules/content-security-policy.ts:85 | the report-only header name iff reportOnly, the enforcing name iff not |
| ContentSecurityPolicy.DirectiveValueSplits | src/rules/content-security-policy.ts:86-90 | splitting the directive text on spaces gives back the name and then its values (an empty value list leaves one empty word) |
| ContentSecurityPolicy.Lookup | src/rules/content-security-policy.ts:149 | a missing key reads as undefined; a found value is the value of an entry with that key |
| ContentSecurityPolicy.Aliased | src/rules/content-security-policy.ts:149 | the camel-case key's value when it is defined, otherwise the kebab-case key's value |
| ContentSecurityPolicy.ParsePolicy | src/rules/content-security-policy.ts:141 | reading the joined policy gives no directives iff the text is empty |
| ContentSecurityPolicy.PolicyRoundTrip | src/rules/content-security-policy.ts:141 | for clean directives, reading the "; "-joined text gives back exactly the directive list |
| ContentSecurityPolicy.FetchNameIsItsOwnKey | src/rules/content-security-policy.ts:92-127 | every directive name in the fetch table is also a key that maps to itself |
| ContentSecurityPolicy.FetchNamesAreClean | src/rules/content-security-policy.ts:92-127 | every directive name in the fetch table is non-empty, with no space and no ';' |
| ContentSecurityPolicy.FetchDirectivesFromEntries | src/rules/content-security-policy.ts:132-139 | a directive is written iff some entry has one of the table's own keys and a defined value, and it carries that key's name and that entry's values |
| ContentSecurityPolicy.BothSpellingsAreWritten | src/rules/content-security-policy.ts:132-139 | given both `scriptSrc` and `script-src`, two script-src directives are written, in entry order |
| ContentSecurityPolicy.ConvertFetchDirectiveToString | src/rules/content-security-policy.ts:128-142 | undefined directives give ""; otherwise the "; "-joined text of the fetch directives, entry by entry |
| ContentSecurityPolicy.DocumentDirectivesInOrder | src/rules/content-security-policy.ts:149-159 | the document directives come out as base-uri, then plugin-types, then sandbox, each only when defined |
| ContentSecurityPolicy.CamelCaseKeyWins | src/rules/content-security-policy.ts:149 | when both spellings are given, the camel-case one is used |
| ContentSecurityPolicy.SandboxTrueIsBare | src/rules/content-security-policy.ts:155-158 | `sandbox: true` writes the bare word sandbox, with no values |
| ContentSecurityPolicy.ConvertDocumentDirectiveToString | src/rules/content-security-policy.ts:144-162 | undefined directives give ""; otherwise the "; "-joined text of the document directives |
| ContentSecurityPolicy.EncodeAll | src/rules/content-security-policy.ts:174 | encoding succeeds iff every URI encodes, giving the encoded URIs in order; otherwise the URI error |
| ContentSecurityPolicy.ReportingDirectives | src/rules/content-security-policy.ts:169-178 | navigate-to, report-uri, report-to in that order; fails iff a report-uri is given and one of its URIs does not encode |
| ContentSecurityPolicy.ConvertReportingDirectiveToString | src/rules/content-security-policy.ts:164-181 | undefined directives give ""; otherwise the "; "-joined reporting directives, or the URI error exactly when they fail |
| ContentSecurityPolicy.CreateContentSecurityPolicyOptionHeaderValue | src/rules/content-security-policy.ts:183-199 | undefined and false give no value; otherwise the text of the fetch, then document, then reporting directives, or the URI error exactly when reporting fails |
| ContentSecurityPolicy.CreateContentSecurityPolicyHeader | src/rules/content-security-policy.ts:201-213 | no header iff undefined or false; otherwise the report-only or enforcing name with that value, or the URI error |
| ContentSecurityPolicy.PolicyHeaderReadsBack | src/rules/content-security-policy.ts:183-199 | with clean sources and an encoder that gives clean URIs, reading the header value gives back exactly the directives it was built from |
| ContentSecurityPolicy.NoDirectivesGiveEmptyValue | src/rules/content-security-policy.ts:192-198 | a policy without directives still gives a header, with the empty value |
| ContentSecurityPolicy.BadReportUriFailsHeader | src/rules/content-security-policy.ts:172-176 | one unparsable report URI fails the whole header |
| SecureHeaders.EvaluateInOrder | src/index.ts:59-67 | the array literal is evaluated element by element: Ok iff every rule succeeds, then their headers in order; otherwise the error of the first rule that fails |
| SecureHeaders.RuleHeaderNames | src/index.ts:59-67 | the literal holds at most one Content-Security-Policy header (under either name) first, then the Expect-CT, HSTS, X-Frame-Options, X-Download-Options, X-Content-Type-Options, Referrer-Policy and X-XSS-Protection headers |
| SecureHeaders.FillHeaders | src/index.ts:57-73 | the forEach loop leaves the object equal to the map built from the headers: missing headers and missing values skipped, later names overwriting earlier ones |
| SecureHeaders.KeptAmongNamedHeaders | src/index.ts:68-73 | in a list named as the rules name their headers, every header with a value is kept with that value, since no other header shares its name |
| SecureHeaders.HeadersMapKeys | src/index.ts:68-73 | a name is in the map iff some header with that name has a value |
| SecureHeaders.HeadersMapValue | src/index.ts:72 | the value kept for a name is the last defined one with that name |
| SecureHeaders.CreateHeadersObject | src/index.ts:56-76 | fails iff some rule fails, with that rule's error; otherwise the map built from the rule headers |
| SecureHeaders.KeptHeaderValue | src/index.ts:68-73 | each rule's header name maps to exactly the value that rule produced, when it has one |
| SecureHeaders.EmptyPolicyValueIsKept | src/index.ts:69-72 | a Content-Security-Policy with no directives is still set, to the empty string |
| SecureHeaders.TokenRuleDefaults | src/index.ts:63-67 | an unset option gives X-Frame-Options `deny`, X-Download-Options `noopen`, X-Content-Type-Options `nosniff` and X-XSS-Protection `1` |
| SecureHeaders.OtherRuleDefaults | src/index.ts:60-66 | an unset option gives no Content-Security-Policy header, an Expect-CT and a Referrer-Policy header without value, and Strict-Transport-Security `max-age=63072000` |
| SecureHeaders.DefaultRuleHeaders | src/index.ts:56-67 | with `{}` the literal is exactly: no CSP header, Expect-CT without value, HSTS `max-age=63072000`, X-Frame-Options `deny`, X-Download-Options `noopen`, X-Content-Type-Options `nosniff`, Referrer-Policy without value, X-XSS-Protection `1` |
| SecureHeaders.DefaultHeaders | src/index.ts:56-76 | with no options the map is exactly Strict-Transport-Security `max-age=63072000`, X-Frame-Options `deny`, X-Download-Options `noopen`, X-Content-Type-Options `nosniff`, X-XSS-Protection `1` |

## Left out

- The default export `withSecureHeaders` (src/index.ts:84-101) is left out. It wraps a React component and calls `res.setHeader`, which is framework and server I/O.
- URL parsing and serialisation (`new URL`, `encodeStrictURI`) are not modelled. They are the encoder parameter, and nothing is assumed about it beyond what each lemma states in its requires.
- A URL object passed in place of a string is modelled as its string.
- JavaScript number formatting is modelled for integers only. A fractional max-age is not modelled. NaN and the infinities are one `NonFinite` variant.
- MaxAgeDirectives.MaxAgeDirective, ForceHttpsRedirect.CreateHSTSHeaderValue, LegacyForceHttpsRedirect.CreateHSTSHeaderValue and ExpectCT.CreateExpectCTHeaderValue write every decimal digit of an unbounded integer. JavaScript numbers are doubles. Integers above 2^53 in magnitude are not held exactly, and `${n}` writes a magnitude of 10^21 or more in exponent form (`1e+21`). The model does not render such max-ages as JavaScript does; it is exact for integers below 2^53 in magnitude.
- The injectable `headerValueCreator`, `arrayWrapper` and converter default parameters are left out. The model always uses the default.
- The barrel file src/rules/index.ts re-exports seven rules but neither `createContentSecurityPolicyHeader` nor `ContentSecurityPolicyOption`, which src/index.ts:13 and src/index.ts:60 use through it. The model takes src/index.ts:60 to call the rule of src/rules/content-security-policy.ts:201-213 directly, as evidently intended; the barrel itself is not part of this model.
- The order in which `Object.entries` and `Object.keys` list keys is taken to be insertion order. JavaScript lists integer-like keys first and skips inherited keys when it enumerates the directive object. No key in the directive tables is integer-like. The lookup of a key in the fetch-name table is a separate matter, covered below.
- Non-string entries in source arrays are not modelled.
- ContentSecurityPolicy.FetchDirectiveName and ContentSecurityPolicy.ConvertFetchDirectiveToString: the model names only the thirty-four keys of the table. In the source the table is a plain object literal (src/rules/content-security-policy.ts:92), so the lookup at line 135 also finds inherited `Object.prototype` members for keys such as `constructor`, `toString` or `hasOwnProperty`. The check at line 136 then lets them through, and line 89 writes the function's text as a directive name. The model writes nothing for such keys.
- FrameGuard.CreateXFrameOptionsHeaderValue: a tagged array whose second element is missing or has no `uri` is not modelled. In the code that is a TypeError.
- XssProtection.CreateXXSSProtectionHeaderValue: the same missing-`uri` TypeError is not modelled.
- Truthiness of non-boolean flags (`reportOnly`, `includeSubDomains`, `preload`, `enforce`, `none`, `all`, `self`) is not modelled. They are booleans.
- Feature-Policy is modelled as a rule, but `createHeadersObject` does not call it. The source does not wire it in either.
- ContentSecurityPolicy.ParsePolicy is a minimal reader. It is exact on clean names and sources, which is the domain of the round-trip lemmas. Values containing spaces or ';' fall outside it.
