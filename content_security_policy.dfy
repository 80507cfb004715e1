/** The Content-Security-Policy rule (src/rules/content-security-policy.ts):
    the `directives` object is converted family by family (fetch, document,
    reporting) into "<name> <value> <value>..." clauses joined by "; ",
    as in sections 2.2 and 2.3 of W3C Content Security Policy Level 3.
    The policy a header asks for is described by a list of `Directive`s;
    a reader of the header text gives that list back. */
module ContentSecurityPolicy {
  import opened Shared
  import opened Strings
  import opened ArrayWrapper

  const HeaderName := "Content-Security-Policy"
  const ReportOnlyHeaderName := "Content-Security-Policy-Report-Only"
  const DirectiveValueSeparator := "; "

  // ------------------------------------------------------------ the option

  /** The value stored under one key of `directives`: missing (undefined
      or null), a boolean (`sandbox: true`), or a string or an array of
      strings. */
  datatype DirectiveValue =
    | Missing
    | Flag(on: bool)
    | Sources(sources: OneOrMany<string>)

  /** The own entries of the `directives` object in insertion order, as
      `Object.entries` lists them (the keys of an object are distinct). */
  type Directives = seq<(string, DirectiveValue)>

  /** `ContentSecurityPolicyOption`: undefined, `false`, or an object with
      optional `directives` and `reportOnly` (absent means `false`). */
  datatype ContentSecurityPolicyOption =
    | Unset
    | Disabled
    | Policy(directives: Option<Directives>, reportOnly: bool)

  /** `directive[key]`: the value of the entry named `key`, or `Missing`. */
  function Lookup(d: Directives, key: string): (v: DirectiveValue)
    ensures (forall k :: 0 <= k < |d| ==> d[k].0 != key) ==> v == Missing
    ensures v != Missing ==> exists k :: 0 <= k < |d| && d[k] == (key, v)
  {
    if d == [] then Missing
    else if d[0].0 == key then d[0].1
    else
      var v := Lookup(d[1..], key);
      assert v != Missing ==> exists k :: 0 <= k < |d[1..]| && d[1..][k] == (key, v);
      v
  }

  /** `directive[camel] ?? directive[kebab]`. */
  function Aliased(d: Directives, camel: string, kebab: string): (v: DirectiveValue)
    ensures Lookup(d, camel) != Missing ==> v == Lookup(d, camel)
    ensures Lookup(d, camel) == Missing ==> v == Lookup(d, kebab)
  {
    var v := Lookup(d, camel);
    if v.Missing? then Lookup(d, kebab) else v
  }

  /** What `wrapArray` and `join` see: a boolean is rendered as its
      JavaScript string. */
  function SourceText(value: DirectiveValue): OneOrMany<string>
    requires !value.Missing?
  {
    match value
    case Flag(on) => One(if on then "true" else "false")
    case Sources(sources) => sources
  }

  // ---------------------------------------------------- directives as text

  /** One directive of a policy: a bare name (`sandbox`), or a name and its
      values. */
  datatype Directive = Bare(name: string) | Listed(name: string, values: seq<string>)

  /** `getProperHeaderName`. */
  function GetProperHeaderName(reportOnly: bool): (name: string)
    ensures name == ReportOnlyHeaderName <==> reportOnly
    ensures name == HeaderName <==> !reportOnly
  {
    if reportOnly then ReportOnlyHeaderName else HeaderName
  }

  /** A text a policy reader can take apart: non-empty, with no space and
      no ";" (the characters section 2.3 of CSP Level 3 excludes from
      directive names and source expressions). */
  predicate Clean(s: string)
  {
    s != [] && Avoids(s, ' ') && Avoids(s, ';')
  }

  /** `createDirectiveValue`: the name, a space, and the wrapped values
      joined by spaces. */
  function CreateDirectiveValue(name: string, value: OneOrMany<string>): string
  {
    name + " " + Join(WrapArray(value), " ")
  }

  /** Splitting a directive value at spaces gives the name and the values
      back when none of them contains a space; with no values, the name and
      one empty word. */
  lemma DirectiveValueSplits(name: string, value: OneOrMany<string>)
    requires Avoids(name, ' ')
    requires forall k :: 0 <= k < |WrapArray(value)| ==> Avoids(WrapArray(value)[k], ' ')
    ensures Split(CreateDirectiveValue(name, value), " ")
         == [name] + (if WrapArray(value) == [] then [""] else WrapArray(value))
  {
    var values := WrapArray(value);
    SeparatorsBorderFree();
    MissingCharNoContains(name, " ");
    SplitCons(name, " ", Join(values, " "));
    if values == [] {
      MissingCharNoContains("", " ");
      SplitFromNoOccurrence("", " ", 0);
    } else {
      forall k | 0 <= k < |values| ensures !Contains(values[k], " ") {
        MissingCharNoContains(values[k], " ");
      }
      SplitJoin(values, " ");
    }
  }

  /** The clause a directive is written as. */
  function Text(dir: Directive): string
  {
    match dir
    case Bare(name) => name
    case Listed(name, values) => CreateDirectiveValue(name, Many(values))
  }

  function Texts(dirs: seq<Directive>): (r: seq<string>)
    ensures |r| == |dirs| && forall k :: 0 <= k < |dirs| ==> r[k] == Text(dirs[k])
  {
    seq(|dirs|, k requires 0 <= k < |dirs| => Text(dirs[k]))
  }

  lemma TextsAppend(a: seq<Directive>, b: seq<Directive>)
    ensures Texts(a + b) == Texts(a) + Texts(b)
  {
  }

  /** A policy's header text: its clauses joined by "; ". */
  function PolicyText(dirs: seq<Directive>): string
  {
    Join(Texts(dirs), DirectiveValueSeparator)
  }

  /** Reads one clause: the words before and after the first space. */
  function ParseDirective(clause: string): Directive
  {
    var words := Split(clause, " ");
    if |words| == 1 then Bare(words[0]) else Listed(words[0], words[1..])
  }

  /** Reads a header text back into its directives. */
  function ParsePolicy(text: string): (dirs: seq<Directive>)
    ensures text == "" <==> dirs == []
  {
    if text == "" then []
    else
      var clauses := Split(text, DirectiveValueSeparator);
      seq(|clauses|, k requires 0 <= k < |clauses| => ParseDirective(clauses[k]))
  }

  /** A directive whose text the reader takes apart unambiguously. */
  predicate Writable(dir: Directive)
  {
    Clean(dir.name) &&
    (dir.Listed? ==> dir.values != [] && forall k :: 0 <= k < |dir.values| ==> Clean(dir.values[k]))
  }

  /** The text of a writable directive has no ";" and reads back as it. */
  lemma DirectiveRoundTrip(dir: Directive)
    requires Writable(dir)
    ensures Avoids(Text(dir), ';')
    ensures ParseDirective(Text(dir)) == dir
  {
    SeparatorsBorderFree();
    match dir
    case Bare(name) =>
      MissingCharNoContains(name, " ");
      SplitFromNoOccurrence(name, " ", 0);
    case Listed(name, values) =>
      assert WrapArray(Many(values)) == values;
      DirectiveValueSplits(name, Many(values));
      JoinAvoids(values, " ", ';');
      var rest := Join(values, " ");
      var t := name + " " + rest;
      assert forall k :: 0 <= k < |t| ==>
        t[k] == (if k < |name| then name[k] else if k == |name| then ' ' else rest[k - |name| - 1]);
  }

  /** Every policy made of writable directives reads back from its header
      text. */
  lemma PolicyRoundTrip(dirs: seq<Directive>)
    requires forall k :: 0 <= k < |dirs| ==> Writable(dirs[k])
    ensures ParsePolicy(PolicyText(dirs)) == dirs
  {
    if dirs != [] {
      var texts := Texts(dirs);
      forall k | 0 <= k < |texts|
        ensures !Contains(texts[k], DirectiveValueSeparator) && ParseDirective(texts[k]) == dirs[k]
      {
        DirectiveRoundTrip(dirs[k]);
        MissingCharNoContains(texts[k], DirectiveValueSeparator);
      }
      SeparatorsBorderFree();
      SplitJoin(texts, DirectiveValueSeparator);
      PolicyTextEmpty(dirs);
    }
  }

  /** A policy's text is empty exactly when it has no directive (every
      directive name is non-empty). */
  lemma PolicyTextEmpty(dirs: seq<Directive>)
    requires forall k :: 0 <= k < |dirs| ==> dirs[k].name != ""
    ensures PolicyText(dirs) == "" <==> dirs == []
  {
    if dirs != [] {
      var texts := Texts(dirs);
      JoinStartsWithFirst(texts, DirectiveValueSeparator);
      match dirs[0]
      case Bare(_) =>
      case Listed(_, _) =>
    }
  }

  // -------------------------------------------------------------- fetch

  /** `fetchDirectiveNamesByKey`: the seventeen fetch directives, each under
      its camel-case and its kebab-case key; any other key has no name. */
  function FetchDirectiveName(key: string): Option<string>
  {
    match key
    case "childSrc" | "child-src" => Some("child-src")
    case "connectSrc" | "connect-src" => Some("connect-src")
    case "defaultSrc" | "default-src" => Some("default-src")
    case "fontSrc" | "font-src" => Some("font-src")
    case "frameSrc" | "frame-src" => Some("frame-src")
    case "imgSrc" | "img-src" => Some("img-src")
    case "manifestSrc" | "manifest-src" => Some("manifest-src")
    case "mediaSrc" | "media-src" => Some("media-src")
    case "prefetchSrc" | "prefetch-src" => Some("prefetch-src")
    case "objectSrc" | "object-src" => Some("object-src")
    case "scriptSrc" | "script-src" => Some("script-src")
    case "scriptSrcElem" | "script-src-elem" => Some("script-src-elem")
    case "scriptSrcAttr" | "script-src-attr" => Some("script-src-attr")
    case "styleSrc" | "style-src" => Some("style-src")
    case "styleSrcElem" | "style-src-elem" => Some("style-src-elem")
    case "styleSrcAttr" | "style-src-attr" => Some("style-src-attr")
    case "workerSrc" | "worker-src" => Some("worker-src")
    case _ => None
  }

  /** Every directive name is also a key, the kebab-case one, and names
      itself: the two spellings of a directive reach the same name. */
  lemma FetchNameIsItsOwnKey(key: string)
    requires FetchDirectiveName(key).Some?
    ensures FetchDirectiveName(FetchDirectiveName(key).value) == FetchDirectiveName(key)
  {
  }

  /** The fetch directive names, a few literals per lemma, are clean. */
  lemma FetchNameLiteralsAreClean()
    ensures Clean("child-src") && Clean("connect-src") && Clean("default-src") && Clean("font-src")
    ensures Clean("frame-src")
  {
  }

  lemma MoreFetchNameLiteralsAreClean()
    ensures Clean("img-src") && Clean("manifest-src") && Clean("media-src") && Clean("object-src")
    ensures Clean("prefetch-src") && Clean("worker-src")
  {
  }

  lemma ScriptFetchNameLiteralsAreClean()
    ensures Clean("script-src") && Clean("script-src-elem") && Clean("script-src-attr")
  {
  }

  lemma StyleFetchNameLiteralsAreClean()
    ensures Clean("style-src") && Clean("style-src-elem") && Clean("style-src-attr")
  {
  }

  /** Every fetch directive name is clean. */
  lemma FetchNamesAreClean(key: string)
    requires FetchDirectiveName(key).Some?
    ensures Clean(FetchDirectiveName(key).value)
  {
    FetchNameLiteralsAreClean();
    MoreFetchNameLiteralsAreClean();
    ScriptFetchNameLiteralsAreClean();
    StyleFetchNameLiteralsAreClean();
  }

  /** The directive a present value asks for under `name`. */
  function SourceDirective(name: string, value: DirectiveValue): Directive
    requires !value.Missing?
  {
    Listed(name, WrapArray(SourceText(value)))
  }

  /** The directive one entry of `directives` contributes to the fetch
      family: none when its value is missing or its key is not a fetch
      directive key. */
  function FetchEntryDirectives(entry: (string, DirectiveValue)): seq<Directive>
  {
    if entry.1.Missing? then []
    else match FetchDirectiveName(entry.0)
      case None => []
      case Some(name) => [SourceDirective(name, entry.1)]
  }

  /** The fetch directives an object asks for, entry by entry in order. */
  function FetchDirectives(d: Directives): seq<Directive>
  {
    if d == [] then [] else FetchDirectives(d[..|d| - 1]) + FetchEntryDirectives(d[|d| - 1])
  }

  /** Fetch directives keep the order of the entries. */
  lemma {:induction false} FetchDirectivesAppend(a: Directives, b: Directives)
    ensures FetchDirectives(a + b) == FetchDirectives(a) + FetchDirectives(b)
    decreases |b|
  {
    if b != [] {
      var b' := b[..|b| - 1];
      assert (a + b)[..|a + b| - 1] == a + b';
      assert (a + b)[|a + b| - 1] == b[|b| - 1];
      FetchDirectivesAppend(a, b');
    } else {
      assert a + b == a;
    }
  }

  /** An entry asks for a directive: its value is present, its key is a
      fetch key, and the directive carries that key's name and the value. */
  predicate AsksFor(entry: (string, DirectiveValue), dir: Directive)
  {
    !entry.1.Missing? && FetchDirectiveName(entry.0).Some? &&
    dir == SourceDirective(FetchDirectiveName(entry.0).value, entry.1)
  }

  /** One entry contributes exactly the directive it asks for. */
  lemma EntryAsksFor(entry: (string, DirectiveValue), dir: Directive)
    ensures dir in FetchEntryDirectives(entry) <==> AsksFor(entry, dir)
  {
  }

  /** A directive is asked for exactly when some entry has a present value
      under a fetch key; its name is that key's directive name and its values
      are the entry's values. */
  lemma {:induction false} FetchDirectivesFromEntries(d: Directives, dir: Directive)
    ensures dir in FetchDirectives(d) <==> exists k :: 0 <= k < |d| && AsksFor(d[k], dir)
  {
    if d != [] {
      var init := d[..|d| - 1];
      var last := |d| - 1;
      FetchDirectivesFromEntries(init, dir);
      EntryAsksFor(d[last], dir);
      assert FetchDirectives(d) == FetchDirectives(init) + FetchEntryDirectives(d[last]);
      if exists k :: 0 <= k < |init| && AsksFor(init[k], dir) {
        var k :| 0 <= k < |init| && AsksFor(init[k], dir);
        assert d[k] == init[k];
      }
      if exists k :: 0 <= k < |d| && AsksFor(d[k], dir) {
        var k :| 0 <= k < |d| && AsksFor(d[k], dir);
        if k < last {
          assert init[k] == d[k];
        }
      }
    }
  }

  /** Both spellings of a directive are written, each with its own values,
      and nothing merges them. */
  lemma BothSpellingsAreWritten(key: string, camelValue: DirectiveValue, kebabValue: DirectiveValue)
    requires FetchDirectiveName(key).Some?
    requires !camelValue.Missing? && !kebabValue.Missing?
    ensures var name := FetchDirectiveName(key).value;
      FetchDirectives([(key, camelValue), (name, kebabValue)])
      == [SourceDirective(name, camelValue), SourceDirective(name, kebabValue)]
  {
    var name := FetchDirectiveName(key).value;
    FetchNameIsItsOwnKey(key);
    FetchDirectivesAppend([(key, camelValue)], [(name, kebabValue)]);
    assert [(key, camelValue)][..0] == [];
    assert [(name, kebabValue)][..0] == [];
  }

  /** `convertFetchDirectiveToString`. */
  method ConvertFetchDirectiveToString(directive: Option<Directives>) returns (s: string)
    ensures directive.None? ==> s == ""
    ensures directive.Some? ==> s == PolicyText(FetchDirectives(directive.value))
  {
    if directive.None? {
      return "";
    }
    var d := directive.value;
    var strings: seq<string> := [];
    var i := 0;
    while i < |d|
      invariant 0 <= i <= |d|
      invariant strings == Texts(FetchDirectives(d[..i]))
    {
      var (key, value) := d[i];
      assert d[..i + 1][..i] == d[..i];
      TextsAppend(FetchDirectives(d[..i]), FetchEntryDirectives(d[i]));
      if !value.Missing? {
        var directiveName := FetchDirectiveName(key);
        if directiveName.Some? {
          WrapArrayIdempotent(SourceText(value));
          strings := strings + [CreateDirectiveValue(directiveName.value, Many(WrapArray(SourceText(value))))];
        }
      }
      i := i + 1;
    }
    assert d[..|d|] == d;
    s := Join(strings, DirectiveValueSeparator);
  }

  // ----------------------------------------------------------- document

  /** The directive a present value asks for under `name`, or none. */
  function OptionalDirective(name: string, value: DirectiveValue): seq<Directive>
  {
    if value.Missing? then [] else [SourceDirective(name, value)]
  }

  /** `sandbox: true` is the bare directive; any other present value is
      written with its token. */
  function SandboxDirective(value: DirectiveValue): seq<Directive>
  {
    if value.Missing? then []
    else if value == Flag(true) then [Bare("sandbox")]
    else [SourceDirective("sandbox", value)]
  }

  /** The document directives an object asks for: base-uri, plugin-types,
      sandbox, in that order, the camel-case key taking precedence. */
  function DocumentDirectives(d: Directives): seq<Directive>
  {
    OptionalDirective("base-uri", Aliased(d, "baseURI", "base-uri"))
    + OptionalDirective("plugin-types", Aliased(d, "pluginTypes", "plugin-types"))
    + SandboxDirective(Lookup(d, "sandbox"))
  }

  /** The rank of a document directive in the fixed order. */
  function DocumentRank(name: string): int
  {
    if name == "base-uri" then 0 else if name == "plugin-types" then 1 else if name == "sandbox" then 2 else 3
  }

  /** Document directives come out in the fixed order, each at most once,
      whatever the order of the keys. */
  lemma DocumentDirectivesInOrder(d: Directives)
    ensures var dirs := DocumentDirectives(d);
      |dirs| <= 3 &&
      (forall i, j :: 0 <= i < j < |dirs| ==> DocumentRank(dirs[i].name) < DocumentRank(dirs[j].name)) &&
      (forall i :: 0 <= i < |dirs| ==> DocumentRank(dirs[i].name) < 3)
  {
    var a := OptionalDirective("base-uri", Aliased(d, "baseURI", "base-uri"));
    var b := OptionalDirective("plugin-types", Aliased(d, "pluginTypes", "plugin-types"));
    var c := SandboxDirective(Lookup(d, "sandbox"));
    assert DocumentRank("base-uri") == 0 && DocumentRank("plugin-types") == 1 && DocumentRank("sandbox") == 2;
    RankedPieces(a, b, c);
  }

  /** Three pieces of at most one directive each, ranked 0, 1 and 2, are
      in rank order once concatenated. */
  lemma RankedPieces(a: seq<Directive>, b: seq<Directive>, c: seq<Directive>)
    requires |a| <= 1 && |b| <= 1 && |c| <= 1
    requires forall k :: 0 <= k < |a| ==> DocumentRank(a[k].name) == 0
    requires forall k :: 0 <= k < |b| ==> DocumentRank(b[k].name) == 1
    requires forall k :: 0 <= k < |c| ==> DocumentRank(c[k].name) == 2
    ensures var dirs := a + b + c;
      |dirs| <= 3 &&
      (forall i, j :: 0 <= i < j < |dirs| ==> DocumentRank(dirs[i].name) < DocumentRank(dirs[j].name)) &&
      (forall i :: 0 <= i < |dirs| ==> DocumentRank(dirs[i].name) < 3)
  {
    var dirs := a + b + c;
    forall i | 0 <= i < |dirs|
      ensures DocumentRank(dirs[i].name) == if i < |a| then 0 else if i < |a| + |b| then 1 else 2
    {
      if i < |a| {
        assert dirs[i] == a[i];
      } else if i < |a| + |b| {
        assert dirs[i] == b[i - |a|];
      } else {
        assert dirs[i] == c[i - |a| - |b|];
      }
    }
  }

  /** The camel-case key wins over its kebab-case alias when both are set,
      and the alias is used when the camel-case key is missing. */
  lemma CamelCaseKeyWins(d: Directives)
    ensures Lookup(d, "baseURI") != Missing ==>
      DocumentDirectives(d)[0] == SourceDirective("base-uri", Lookup(d, "baseURI"))
    ensures Lookup(d, "baseURI") == Missing && Lookup(d, "base-uri") != Missing ==>
      DocumentDirectives(d)[0] == SourceDirective("base-uri", Lookup(d, "base-uri"))
  {
  }

  /** `sandbox: true` is written as the bare word `sandbox`, last. */
  lemma SandboxTrueIsBare(d: Directives)
    requires Lookup(d, "sandbox") == Flag(true)
    ensures var dirs := DocumentDirectives(d);
      dirs != [] && dirs[|dirs| - 1] == Bare("sandbox") && Text(dirs[|dirs| - 1]) == "sandbox"
  {
  }

  /** `convertDocumentDirectiveToString`. */
  method ConvertDocumentDirectiveToString(directive: Option<Directives>) returns (s: string)
    ensures directive.None? ==> s == ""
    ensures directive.Some? ==> s == PolicyText(DocumentDirectives(directive.value))
  {
    if directive.None? {
      return "";
    }
    var d := directive.value;
    var strings: seq<string> := [];

    var baseURI := Aliased(d, "baseURI", "base-uri");
    if !baseURI.Missing? {
      strings := strings + [CreateDirectiveValue("base-uri", Many(WrapArray(SourceText(baseURI))))];
    }
    var first := OptionalDirective("base-uri", baseURI);
    OptionalDirectiveTexts("base-uri", baseURI);
    assert strings == Texts(first);

    var pluginTypes := Aliased(d, "pluginTypes", "plugin-types");
    if !pluginTypes.Missing? {
      strings := strings + [CreateDirectiveValue("plugin-types", Many(WrapArray(SourceText(pluginTypes))))];
    }
    var second := OptionalDirective("plugin-types", pluginTypes);
    OptionalDirectiveTexts("plugin-types", pluginTypes);
    assert strings == Texts(first) + Texts(second);

    var sandbox := Lookup(d, "sandbox");
    if !sandbox.Missing? {
      var directiveName := "sandbox";
      var value := if sandbox == Flag(true) then directiveName else CreateDirectiveValue(directiveName, SourceText(sandbox));
      strings := strings + [value];
    }
    var third := SandboxDirective(sandbox);
    SandboxDirectiveTexts(sandbox);
    assert strings == Texts(first) + Texts(second) + Texts(third);
    TextsAppend(first, second);
    TextsAppend(first + second, third);
    s := Join(strings, DirectiveValueSeparator);
  }

  /** The clause an optional directive writes, if any. */
  lemma OptionalDirectiveTexts(name: string, value: DirectiveValue)
    ensures Texts(OptionalDirective(name, value)) ==
      if value.Missing? then [] else [CreateDirectiveValue(name, Many(WrapArray(SourceText(value))))]
  {
    if !value.Missing? {
      assert Texts(OptionalDirective(name, value))[0] == Text(SourceDirective(name, value));
    }
  }

  /** The clause the sandbox directive writes, if any. */
  lemma SandboxDirectiveTexts(value: DirectiveValue)
    ensures Texts(SandboxDirective(value)) ==
      if value.Missing? then []
      else if value == Flag(true) then ["sandbox"]
      else [CreateDirectiveValue("sandbox", SourceText(value))]
  {
    if !value.Missing? {
      WrapArrayIdempotent(SourceText(value));
      assert Texts(SandboxDirective(value))[0] == Text(SandboxDirective(value)[0]);
    }
  }

  // ---------------------------------------------------------- reporting

  /** `uris.map(encodeStrictURI)`: every URI serialised, or the first
      failure. */
  function EncodeAll(uris: seq<string>, encode: UriEncoder): (r: Result<seq<string>>)
    ensures r.Ok? <==> forall k :: 0 <= k < |uris| ==> encode(uris[k]).Some?
    ensures r.Err? ==> r.error == InvalidUri
    ensures r.Ok? ==> |r.value| == |uris| && forall k :: 0 <= k < |uris| ==> encode(uris[k]) == Some(r.value[k])
  {
    if uris == [] then Ok([])
    else
      var head := encode(uris[0]);
      if head.None? then Err(InvalidUri)
      else
        match EncodeAll(uris[1..], encode)
        case Err(e) =>
          assert exists k :: 0 <= k < |uris[1..]| && encode(uris[1..][k]).None?;
          Err(e)
        case Ok(rest) =>
          var r := [head.value] + rest;
          assert forall k :: 1 <= k < |uris| ==> uris[k] == uris[1..][k - 1] && r[k] == rest[k - 1];
          Ok(r)
  }

  /** The report-uri directive a value asks for, with every URI
      serialised; none when the value is missing. */
  function ReportUriDirective(value: DirectiveValue, encode: UriEncoder): (r: Result<seq<Directive>>)
    ensures r.Err? <==> !value.Missing? && EncodeAll(WrapArray(SourceText(value)), encode).Err?
    ensures r.Err? ==> r.error == InvalidUri
  {
    if value.Missing? then Ok([])
    else
      var uris :- EncodeAll(WrapArray(SourceText(value)), encode);
      Ok([Listed("report-uri", uris)])
  }

  /** The reporting directives an object asks for: navigate-to, report-uri,
      report-to, in that order; one URI that does not serialise fails the
      whole call. */
  function ReportingDirectives(d: Directives, encode: UriEncoder): (r: Result<seq<Directive>>)
    ensures var reportUri := Aliased(d, "reportURI", "report-uri");
      r.Err? <==> !reportUri.Missing? && EncodeAll(WrapArray(SourceText(reportUri)), encode).Err?
    ensures r.Err? ==> r.error == InvalidUri
  {
    var reportUri :- ReportUriDirective(Aliased(d, "reportURI", "report-uri"), encode);
    Ok(OptionalDirective("navigate-to", Aliased(d, "navigateTo", "navigate-to"))
       + reportUri
       + OptionalDirective("report-to", Aliased(d, "reportTo", "report-to")))
  }

  /** `convertReportingDirectiveToString`. */
  method ConvertReportingDirectiveToString(directive: Option<Directives>, encode: UriEncoder)
    returns (r: Result<string>)
    ensures directive.None? ==> r == Ok("")
    ensures directive.Some? ==>
      var dirs := ReportingDirectives(directive.value, encode);
      (r.Ok? <==> dirs.Ok?) && (r.Err? ==> r.error == dirs.error) &&
      (r.Ok? ==> r.value == PolicyText(dirs.value))
  {
    if directive.None? {
      return Ok("");
    }
    var d := directive.value;
    var strings: seq<string> := [];

    var navigateTo := Aliased(d, "navigateTo", "navigate-to");
    if !navigateTo.Missing? {
      strings := strings + [CreateDirectiveValue("navigate-to", Many(WrapArray(SourceText(navigateTo))))];
    }
    var first := OptionalDirective("navigate-to", navigateTo);
    OptionalDirectiveTexts("navigate-to", navigateTo);
    assert strings == Texts(first);

    var reportURIValue := Aliased(d, "reportURI", "report-uri");
    var second := ReportUriDirective(reportURIValue, encode);
    if !reportURIValue.Missing? {
      var reportURI := EncodeAll(WrapArray(SourceText(reportURIValue)), encode);
      if reportURI.Err? {
        return Err(reportURI.error);
      }
      strings := strings + [CreateDirectiveValue("report-uri", Many(reportURI.value))];
      assert Texts(second.value) == [Text(second.value[0])];
    }
    assert strings == Texts(first) + Texts(second.value);

    var reportTo := Aliased(d, "reportTo", "report-to");
    if !reportTo.Missing? {
      WrapArrayIdempotent(SourceText(reportTo));
      strings := strings + [CreateDirectiveValue("report-to", SourceText(reportTo))];
    }
    var third := OptionalDirective("report-to", reportTo);
    OptionalDirectiveTexts("report-to", reportTo);
    assert strings == Texts(first) + Texts(second.value) + Texts(third);
    TextsAppend(first, second.value);
    TextsAppend(first + second.value, third);
    r := Ok(Join(strings, DirectiveValueSeparator));
  }

  // ---------------------------------------------------------- the header

  /** All the directives an option asks for, family after family. */
  function PolicyDirectives(directives: Option<Directives>, encode: UriEncoder): Result<seq<Directive>>
  {
    if directives.None? then Ok([])
    else
      var d := directives.value;
      var reporting :- ReportingDirectives(d, encode);
      Ok(FetchDirectives(d) + DocumentDirectives(d) + reporting)
  }

  /** A text, unless it is empty. */
  function NonEmpty(text: string): seq<string>
  {
    if text == "" then [] else [text]
  }

  /** `[...].filter((string) => string.length > 0)`. */
  function NonEmptyTexts(texts: seq<string>): (r: seq<string>)
    ensures forall k :: 0 <= k < |r| ==> r[k] != ""
  {
    if texts == [] then []
    else NonEmpty(texts[0]) + NonEmptyTexts(texts[1..])
  }

  /** Every directive the rules build has a non-empty name. */
  predicate NamedDirectives(dirs: seq<Directive>)
  {
    forall k :: 0 <= k < |dirs| ==> dirs[k].name != ""
  }

  /** The filter over the three family texts. */
  lemma NonEmptyOfThree(a: string, b: string, c: string)
    ensures NonEmptyTexts([a, b, c]) == NonEmpty(a) + NonEmpty(b) + NonEmpty(c)
  {
    assert [a, b, c][1..] == [b, c];
    assert [b, c][1..] == [c];
    assert [c][1..] == [];
    assert NonEmptyTexts([c]) == NonEmpty(c);
    assert NonEmptyTexts([b, c]) == NonEmpty(b) + NonEmpty(c);
  }

  /** Prepending a group's joined text, unless it is empty, to a joined
      tail is joining the group's parts in front of the tail's parts. */
  lemma JoinInFront(group: seq<string>, tail: seq<string>, rest: seq<string>, sep: string)
    requires group == [] <==> Join(group, sep) == ""
    requires tail == [] <==> rest == []
    requires Join(tail, sep) == Join(rest, sep)
    ensures Join(NonEmpty(Join(group, sep)) + tail, sep) == Join(group + rest, sep)
  {
    if group == [] {
      assert NonEmpty(Join(group, sep)) + tail == tail;
      assert group + rest == rest;
    } else if tail == [] {
      assert NonEmpty(Join(group, sep)) + tail == [Join(group, sep)];
      assert group + rest == group;
    } else {
      assert NonEmpty(Join(group, sep)) + tail == [Join(group, sep)] + tail;
      JoinConcat([Join(group, sep)], tail, sep);
      JoinConcat(group, rest, sep);
    }
  }

  /** Joining the non-empty joins of two groups is joining the two groups'
      parts. */
  lemma JoinTwoGroups(tb: seq<string>, tc: seq<string>, sep: string)
    requires tb == [] <==> Join(tb, sep) == ""
    requires tc == [] <==> Join(tc, sep) == ""
    ensures NonEmpty(Join(tb, sep)) + NonEmpty(Join(tc, sep)) == [] <==> tb + tc == []
    ensures Join(NonEmpty(Join(tb, sep)) + NonEmpty(Join(tc, sep)), sep) == Join(tb + tc, sep)
  {
    var fc := NonEmpty(Join(tc, sep));
    assert fc == [] <==> tc == [];
    if tc == [] {
      assert Join(fc, sep) == Join(tc, sep);
    } else {
      assert Join(fc, sep) == Join(tc, sep);
    }
    JoinInFront(tb, fc, tc, sep);
  }

  /** Joining the non-empty joins of three groups is joining the three
      groups' parts. */
  lemma JoinThreeGroups(ta: seq<string>, tb: seq<string>, tc: seq<string>, sep: string)
    requires ta == [] <==> Join(ta, sep) == ""
    requires tb == [] <==> Join(tb, sep) == ""
    requires tc == [] <==> Join(tc, sep) == ""
    ensures Join(NonEmpty(Join(ta, sep)) + NonEmpty(Join(tb, sep)) + NonEmpty(Join(tc, sep)), sep)
         == Join(ta + tb + tc, sep)
  {
    var fa, fb, fc := NonEmpty(Join(ta, sep)), NonEmpty(Join(tb, sep)), NonEmpty(Join(tc, sep));
    var fbc, tbc := fb + fc, tb + tc;
    assert (fbc == [] <==> tbc == []) && Join(fbc, sep) == Join(tbc, sep) by {
      JoinTwoGroups(tb, tc, sep);
    }
    assert Join(fa + fbc, sep) == Join(ta + tbc, sep) by {
      JoinInFront(ta, fbc, tbc, sep);
    }
    assert fa + fb + fc == fa + fbc;
    assert ta + tb + tc == ta + tbc;
  }

  /** Joining the non-empty family texts is writing all the directives of
      the three families in one policy text. */
  lemma JoinedFamilies(a: seq<Directive>, b: seq<Directive>, c: seq<Directive>)
    requires NamedDirectives(a) && NamedDirectives(b) && NamedDirectives(c)
    ensures Join(NonEmptyTexts([PolicyText(a), PolicyText(b), PolicyText(c)]), DirectiveValueSeparator)
         == PolicyText(a + b + c)
  {
    PolicyTextEmpty(a);
    PolicyTextEmpty(b);
    PolicyTextEmpty(c);
    NonEmptyOfThree(PolicyText(a), PolicyText(b), PolicyText(c));
    JoinThreeGroups(Texts(a), Texts(b), Texts(c), DirectiveValueSeparator);
    TextsAppend(a, b);
    TextsAppend(a + b, c);
  }

  /** The fetch directives all have names. */
  lemma FetchDirectivesAreNamed(d: Directives)
    ensures NamedDirectives(FetchDirectives(d))
  {
    var dirs := FetchDirectives(d);
    forall j | 0 <= j < |dirs| ensures dirs[j].name != "" {
      var dir := dirs[j];
      FetchDirectivesFromEntries(d, dir);
      var k :| 0 <= k < |d| && AsksFor(d[k], dir);
      FetchNamesAreClean(d[k].0);
    }
  }

  /** The three family texts of an option's directives: what the three
      converters return. */
  function FetchText(directives: Option<Directives>): string
  {
    if directives.None? then "" else PolicyText(FetchDirectives(directives.value))
  }

  function DocumentText(directives: Option<Directives>): string
  {
    if directives.None? then "" else PolicyText(DocumentDirectives(directives.value))
  }

  function ReportingText(directives: Option<Directives>, encode: UriEncoder): Result<string>
  {
    if directives.None? then Ok("")
    else
      var dirs :- ReportingDirectives(directives.value, encode);
      Ok(PolicyText(dirs))
  }

  /** The three family texts, filtered and joined, are the text of all the
      directives the option asks for. */
  lemma FamilyTextsJoin(directives: Option<Directives>, encode: UriEncoder)
    ensures ReportingText(directives, encode).Ok? <==> PolicyDirectives(directives, encode).Ok?
    ensures ReportingText(directives, encode).Err? ==> ReportingText(directives, encode).error == InvalidUri
    ensures ReportingText(directives, encode).Ok? ==>
      Join(NonEmptyTexts([FetchText(directives), DocumentText(directives), ReportingText(directives, encode).value]),
           DirectiveValueSeparator)
      == PolicyText(PolicyDirectives(directives, encode).value)
  {
    if directives.None? {
      NonEmptyOfThree("", "", "");
    } else if ReportingText(directives, encode).Ok? {
      var d := directives.value;
      var reporting := ReportingDirectives(d, encode).value;
      FetchDirectivesAreNamed(d);
      OtherFamiliesAreNamed(d, encode);
      JoinedFamilies(FetchDirectives(d), DocumentDirectives(d), reporting);
      assert ReportingText(directives, encode).value == PolicyText(reporting);
      assert PolicyDirectives(directives, encode).value == FetchDirectives(d) + DocumentDirectives(d) + reporting;
    }
  }

  /** The document and reporting directives all have names. */
  lemma OtherFamiliesAreNamed(d: Directives, encode: UriEncoder)
    ensures NamedDirectives(DocumentDirectives(d))
    ensures ReportingDirectives(d, encode).Ok? ==> NamedDirectives(ReportingDirectives(d, encode).value)
  {
    DocumentDirectivesAreNamed(d);
    if ReportingDirectives(d, encode).Ok? {
      ReportingDirectivesAreNamed(d, encode);
    }
  }

  lemma DocumentDirectivesAreNamed(d: Directives)
    ensures NamedDirectives(DocumentDirectives(d))
  {
    var base := OptionalDirective("base-uri", Aliased(d, "baseURI", "base-uri"));
    var plugin := OptionalDirective("plugin-types", Aliased(d, "pluginTypes", "plugin-types"));
    var sandbox := SandboxDirective(Lookup(d, "sandbox"));
    assert NamedDirectives(base) && NamedDirectives(plugin) && NamedDirectives(sandbox);
    NamedAppend(base, plugin);
    NamedAppend(base + plugin, sandbox);
  }

  lemma ReportingDirectivesAreNamed(d: Directives, encode: UriEncoder)
    requires ReportingDirectives(d, encode).Ok?
    ensures NamedDirectives(ReportingDirectives(d, encode).value)
  {
    var reportUri := ReportUriDirective(Aliased(d, "reportURI", "report-uri"), encode);
    var nav := OptionalDirective("navigate-to", Aliased(d, "navigateTo", "navigate-to"));
    var to := OptionalDirective("report-to", Aliased(d, "reportTo", "report-to"));
    assert NamedDirectives(nav) && NamedDirectives(reportUri.value) && NamedDirectives(to);
    NamedAppend(nav, reportUri.value);
    NamedAppend(nav + reportUri.value, to);
    assert ReportingDirectives(d, encode).value == nav + reportUri.value + to;
  }

  /** Appending named directives to named directives keeps them named. */
  lemma NamedAppend(a: seq<Directive>, b: seq<Directive>)
    requires NamedDirectives(a) && NamedDirectives(b)
    ensures NamedDirectives(a + b)
  {
  }

  /** `createContentSecurityPolicyOptionHeaderValue`: `None` for an absent
      or `false` option; otherwise the text of every directive asked for,
      family after family, or the failure of a report URI. */
  function CreateContentSecurityPolicyOptionHeaderValue(option: ContentSecurityPolicyOption, encode: UriEncoder)
    : (r: Result<Option<string>>)
    ensures r == Ok(None) <==> !option.Policy?
    ensures option.Policy? ==>
      var dirs := PolicyDirectives(option.directives, encode);
      (r.Ok? <==> dirs.Ok?) && (r.Err? ==> r.error == InvalidUri) &&
      (r.Ok? ==> r.value == Some(PolicyText(dirs.value)))
  {
    match option
    case Unset => Ok(None)
    case Disabled => Ok(None)
    case Policy(directives, _) =>
      FamilyTextsJoin(directives, encode);
      var reporting :- ReportingText(directives, encode);
      Ok(Some(Join(NonEmptyTexts([FetchText(directives), DocumentText(directives), reporting]),
                   DirectiveValueSeparator)))
  }

  /** `createContentSecurityPolicyHeader`: no header at all for an absent
      or `false` option; otherwise the header under the name `reportOnly`
      selects. */
  function CreateContentSecurityPolicyHeader(option: ContentSecurityPolicyOption, encode: UriEncoder)
    : (r: Result<Option<ResponseHeader>>)
    ensures r == Ok(None) <==> !option.Policy?
    ensures r.Err? <==> CreateContentSecurityPolicyOptionHeaderValue(option, encode).Err?
    ensures r.Err? ==> r.error == CreateContentSecurityPolicyOptionHeaderValue(option, encode).error
    ensures r.Err? ==> r.error == InvalidUri
    ensures r.Ok? && r.value.Some? ==>
      r.value.value.name == GetProperHeaderName(option.reportOnly) &&
      r.value.value.value == CreateContentSecurityPolicyOptionHeaderValue(option, encode).value
  {
    if !option.Policy? then Ok(None)
    else
      var name := GetProperHeaderName(option.reportOnly);
      var value :- CreateContentSecurityPolicyOptionHeaderValue(option, encode);
      Ok(Some(ResponseHeader(name, value)))
  }

  // -------------------------------------------------- reading the header

  /** A value whose sources a reader can take apart: missing, a boolean,
      or a non-empty list of clean sources. */
  predicate CleanValue(value: DirectiveValue)
  {
    value.Missing? ||
    (WrapArray(SourceText(value)) != [] &&
     forall k :: 0 <= k < |WrapArray(SourceText(value))| ==> Clean(WrapArray(SourceText(value))[k]))
  }

  /** Every URI the encoder produces is clean. */
  ghost predicate CleanEncoder(encode: UriEncoder)
  {
    forall u :: encode(u).Some? ==> Clean(encode(u).value)
  }

  /** Every entry of the object has a clean value. */
  predicate CleanDirectives(d: Directives)
  {
    forall k :: 0 <= k < |d| ==> CleanValue(d[k].1)
  }

  /** A value looked up in a clean object is clean. */
  lemma LookupIsClean(d: Directives, key: string)
    requires CleanDirectives(d)
    ensures CleanValue(Lookup(d, key))
  {
  }

  /** A present clean value under a clean name asks for a writable
      directive. */
  lemma SourceDirectiveIsWritable(name: string, value: DirectiveValue)
    requires Clean(name) && !value.Missing? && CleanValue(value)
    ensures Writable(SourceDirective(name, value))
  {
    assert Clean("true") && Clean("false");
  }

  lemma FetchDirectivesAreWritable(d: Directives)
    requires CleanDirectives(d)
    ensures forall k :: 0 <= k < |FetchDirectives(d)| ==> Writable(FetchDirectives(d)[k])
  {
    var dirs := FetchDirectives(d);
    forall j | 0 <= j < |dirs| ensures Writable(dirs[j]) {
      var dir := dirs[j];
      FetchDirectivesFromEntries(d, dir);
      var k :| 0 <= k < |d| && AsksFor(d[k], dir);
      FetchNamesAreClean(d[k].0);
      SourceDirectiveIsWritable(FetchDirectiveName(d[k].0).value, d[k].1);
    }
  }

  lemma DocumentDirectivesAreWritable(d: Directives)
    requires CleanDirectives(d)
    ensures forall k :: 0 <= k < |DocumentDirectives(d)| ==> Writable(DocumentDirectives(d)[k])
  {
    var baseUri := Aliased(d, "baseURI", "base-uri");
    var pluginTypes := Aliased(d, "pluginTypes", "plugin-types");
    var sandbox := Lookup(d, "sandbox");
    LookupIsClean(d, "baseURI");
    LookupIsClean(d, "base-uri");
    LookupIsClean(d, "pluginTypes");
    LookupIsClean(d, "plugin-types");
    LookupIsClean(d, "sandbox");
    assert Clean("base-uri") && Clean("plugin-types");
    OptionalDirectiveIsWritable("base-uri", baseUri);
    OptionalDirectiveIsWritable("plugin-types", pluginTypes);
    SandboxDirectiveIsWritable(sandbox);
    WritableAppend(OptionalDirective("base-uri", baseUri), OptionalDirective("plugin-types", pluginTypes));
    WritableAppend(OptionalDirective("base-uri", baseUri) + OptionalDirective("plugin-types", pluginTypes),
                   SandboxDirective(sandbox));
  }

  lemma SandboxDirectiveIsWritable(value: DirectiveValue)
    requires CleanValue(value)
    ensures forall k :: 0 <= k < |SandboxDirective(value)| ==> Writable(SandboxDirective(value)[k])
  {
    assert Clean("sandbox");
    if !value.Missing? && value != Flag(true) {
      SourceDirectiveIsWritable("sandbox", value);
    }
  }

  /** Two lists of writable directives make one. */
  lemma WritableAppend(a: seq<Directive>, b: seq<Directive>)
    requires forall k :: 0 <= k < |a| ==> Writable(a[k])
    requires forall k :: 0 <= k < |b| ==> Writable(b[k])
    ensures forall k :: 0 <= k < |a + b| ==> Writable((a + b)[k])
  {
    forall k | 0 <= k < |a + b|
      ensures Writable((a + b)[k])
    {
      if k >= |a| {
        assert (a + b)[k] == b[k - |a|];
      }
    }
  }

  /** The report-uri directive of a clean value under a clean encoder is
      writable. */
  lemma ReportUriDirectiveIsWritable(value: DirectiveValue, encode: UriEncoder)
    requires CleanValue(value) && CleanEncoder(encode)
    requires ReportUriDirective(value, encode).Ok?
    ensures var dirs := ReportUriDirective(value, encode).value;
      forall k :: 0 <= k < |dirs| ==> Writable(dirs[k])
  {
    assert Clean("report-uri");
    if !value.Missing? {
      var uris := WrapArray(SourceText(value));
      var encoded := EncodeAll(uris, encode).value;
      assert forall k :: 0 <= k < |encoded| ==> encode(uris[k]) == Some(encoded[k]);
      assert Writable(Listed("report-uri", encoded));
    }
  }

  /** The directive a clean value asks for under a clean name is writable. */
  lemma OptionalDirectiveIsWritable(name: string, value: DirectiveValue)
    requires Clean(name) && CleanValue(value)
    ensures forall k :: 0 <= k < |OptionalDirective(name, value)| ==> Writable(OptionalDirective(name, value)[k])
  {
    if !value.Missing? {
      SourceDirectiveIsWritable(name, value);
    }
  }

  lemma ReportingDirectivesAreWritable(d: Directives, encode: UriEncoder)
    requires CleanDirectives(d) && CleanEncoder(encode)
    requires ReportingDirectives(d, encode).Ok?
    ensures var dirs := ReportingDirectives(d, encode).value;
      forall k :: 0 <= k < |dirs| ==> Writable(dirs[k])
  {
    assert Clean("navigate-to") && Clean("report-to");
    LookupIsClean(d, "navigateTo");
    LookupIsClean(d, "navigate-to");
    LookupIsClean(d, "reportURI");
    LookupIsClean(d, "report-uri");
    LookupIsClean(d, "reportTo");
    LookupIsClean(d, "report-to");
    var first := OptionalDirective("navigate-to", Aliased(d, "navigateTo", "navigate-to"));
    var second := ReportUriDirective(Aliased(d, "reportURI", "report-uri"), encode).value;
    var third := OptionalDirective("report-to", Aliased(d, "reportTo", "report-to"));
    OptionalDirectiveIsWritable("navigate-to", Aliased(d, "navigateTo", "navigate-to"));
    ReportUriDirectiveIsWritable(Aliased(d, "reportURI", "report-uri"), encode);
    OptionalDirectiveIsWritable("report-to", Aliased(d, "reportTo", "report-to"));
    assert ReportingDirectives(d, encode).value == first + second + third;
  }

  /** The header text of an option whose sources and serialised URIs are
      clean reads back as exactly the directives the option asks for, in
      order: fetch (in key order), then base-uri, plugin-types, sandbox,
      then navigate-to, report-uri, report-to. */
  lemma PolicyHeaderReadsBack(option: ContentSecurityPolicyOption, encode: UriEncoder)
    requires option.Policy? && (option.directives.Some? ==> CleanDirectives(option.directives.value))
    requires CleanEncoder(encode)
    requires CreateContentSecurityPolicyOptionHeaderValue(option, encode).Ok?
    ensures var value := CreateContentSecurityPolicyOptionHeaderValue(option, encode).value;
      value.Some? && ParsePolicy(value.value) == PolicyDirectives(option.directives, encode).value
  {
    var dirs := PolicyDirectives(option.directives, encode).value;
    if option.directives.Some? {
      var d := option.directives.value;
      FetchDirectivesAreWritable(d);
      DocumentDirectivesAreWritable(d);
      ReportingDirectivesAreWritable(d, encode);
      var reporting := ReportingDirectives(d, encode).value;
      WritableAppend(FetchDirectives(d), DocumentDirectives(d));
      WritableAppend(FetchDirectives(d) + DocumentDirectives(d), reporting);
      assert dirs == FetchDirectives(d) + DocumentDirectives(d) + reporting;
    }
    PolicyRoundTrip(dirs);
  }

  /** An option that asks for no directive, such as one without
      `directives`, still produces the header, with the empty value. */
  lemma NoDirectivesGiveEmptyValue(option: ContentSecurityPolicyOption, encode: UriEncoder)
    requires option.Policy? && PolicyDirectives(option.directives, encode) == Ok([])
    ensures CreateContentSecurityPolicyHeader(option, encode)
         == Ok(Some(ResponseHeader(GetProperHeaderName(option.reportOnly), Some(""))))
  {
  }

  /** One report URI that does not serialise fails the whole header, even
      when other directives are valid. */
  lemma BadReportUriFailsHeader(option: ContentSecurityPolicyOption, encode: UriEncoder, k: nat)
    requires option.Policy? && option.directives.Some?
    requires var value := Aliased(option.directives.value, "reportURI", "report-uri");
      !value.Missing? && k < |WrapArray(SourceText(value))| && encode(WrapArray(SourceText(value))[k]).None?
    ensures CreateContentSecurityPolicyHeader(option, encode) == Err(InvalidUri)
  {
  }
}
