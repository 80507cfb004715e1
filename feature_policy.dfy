/** The Feature-Policy rule (src/rules/feature-policy.ts). The rule folds
    the directives into one string, each followed by "; ", and trims the
    result; the reference definition below builds the policy directives of
    the W3C Feature Policy header (a feature name, a space, an allow-list
    and ";") and joins them with " ". The two are proved equal. */
module FeaturePolicy {
  import opened Shared
  import opened Strings

  const HeaderName := "Feature-Policy"

  /** The feature names the rule accepts. */
  const SupportedValues: seq<string> := [
    "accelerometer",
    "ambient-light-sensor",
    "autoplay",
    "battery",
    "camera",
    "display-capture",
    "document-domain",
    "encrypted-media",
    "execution-while-not-rendered",
    "execution-while-out-of-viewport",
    "fullscreen",
    "geolocation",
    "gyroscope",
    "layout-animations",
    "legacy-image-formats",
    "magnetometer",
    "microphone",
    "midi",
    "navigation-override",
    "oversized-images",
    "payment",
    "picture-in-picture",
    "publickey-credentials-get",
    "sync-xhr",
    "usb",
    "vr",
    "wake-lock",
    "screen-wake-lock",
    "web-share",
    "xr-spatial-tracking"
  ]

  /** `names.includes(name)`. */
  predicate Includes(names: seq<string>, name: string)
  {
    names != [] && (names[0] == name || Includes(names[1..], name))
  }

  /** A name at a position of the list is included in it. */
  lemma {:induction false} IncludesAt(names: seq<string>, k: nat)
    requires k < |names|
    ensures Includes(names, names[k])
  {
    if k > 0 {
      IncludesAt(names[1..], k - 1);
    }
  }

  /** An included name is at some position of the list. */
  lemma {:induction false} IncludedAt(names: seq<string>, name: string) returns (k: nat)
    requires Includes(names, name)
    ensures k < |names| && names[k] == name
  {
    if names[0] == name {
      k := 0;
    } else {
      k := IncludedAt(names[1..], name);
      k := k + 1;
    }
  }

  /** `FeaturePolicyDirectiveParameters`; an absent flag is `false`, absent
      origins are `None`. */
  datatype DirectiveParameters = DirectiveParameters(none: bool, all: bool, self: bool, origins: Option<seq<string>>)

  /** `FeaturePolicyOptions`: `Falsy` for undefined, null and `false`;
      otherwise the object's own keys in `Object.keys` order, each with its
      parameters (`None` when they are falsy). */
  datatype FeaturePolicyOptions =
    | Falsy
    | Directives(entries: seq<(string, Option<DirectiveParameters>)>)

  // ------------------------------------------------------ the rule itself

  /** One step of the `reduce`: the text so far, then this directive and "; ". */
  function AppendDirective(str: string, name: string, params: Option<DirectiveParameters>): Result<string>
  {
    if !Includes(SupportedValues, name) then Err(InvalidDirective)
    else if params.None? then Err(InvalidDirectiveParameters)
    else
      var p := params.value;
      if p.none then Ok(str + name + " " + "'none'" + "; ")
      else if p.all then Ok(str + name + " " + "*" + "; ")
      else if !p.self && (p.origins.None? || |p.origins.value| == 0) then Err(InvalidDirectiveParameters)
      else
        var value := str + name;
        var value := if p.self then value + " " + "'self'" else value;
        var value := if p.origins.Some? && |p.origins.value| > 0 then value + " " + Join(p.origins.value, " ") else value;
        Ok(value + "; ")
  }

  /** The `reduce` over the directives, starting from `str`; the first
      failing directive aborts it. */
  function ReduceDirectives(entries: seq<(string, Option<DirectiveParameters>)>, str: string): Result<string>
  {
    if entries == [] then Ok(str)
    else
      var next :- AppendDirective(str, entries[0].0, entries[0].1);
      ReduceDirectives(entries[1..], next)
  }

  // ------------------------------------------------ reference definition

  /** The allow-list a directive's parameters select: `none` takes
      precedence over `all`, which takes precedence over `self` and
      `origins`; at least one of these must be given. */
  datatype AllowList = NoOrigin | AnyOrigin | Origins(self: bool, origins: seq<string>)

  function SelectAllowList(params: DirectiveParameters): Result<AllowList>
  {
    if params.none then Ok(NoOrigin)
    else if params.all then Ok(AnyOrigin)
    else
      var origins := if params.origins.Some? then params.origins.value else [];
      if !params.self && origins == [] then Err(InvalidDirectiveParameters)
      else Ok(Origins(params.self, origins))
  }

  /** The allow-list as written in the header. */
  function AllowListText(allowList: AllowList): string
  {
    match allowList
    case NoOrigin => "'none'"
    case AnyOrigin => "*"
    case Origins(self, origins) => Join((if self then ["'self'"] else []) + origins, " ")
  }

  /** One policy directive: the feature name, a space, its allow-list, ";". */
  function PolicyDirective(name: string, params: Option<DirectiveParameters>): Result<string>
  {
    if !Includes(SupportedValues, name) then Err(InvalidDirective)
    else if params.None? then Err(InvalidDirectiveParameters)
    else
      var allowList :- SelectAllowList(params.value);
      Ok(name + " " + AllowListText(allowList) + ";")
  }

  /** The policy directives in key order, or the error of the first that
      cannot be written. */
  function PolicyDirectives(entries: seq<(string, Option<DirectiveParameters>)>): Result<seq<string>>
  {
    if entries == [] then Ok([])
    else
      var first :- PolicyDirective(entries[0].0, entries[0].1);
      var rest :- PolicyDirectives(entries[1..]);
      Ok([first] + rest)
  }

  // --------------------------------------------------------------- proofs

  /** Joining behind one more leading part. */
  lemma JoinCons(x: string, xs: seq<string>, sep: string)
    requires xs != []
    ensures Join([x] + xs, sep) == x + sep + Join(xs, sep)
  {
    assert ([x] + xs)[1..] == xs;
  }

  /** Writing a directive behind the text so far, followed by "; ", is
      writing the policy directive and a space. */
  lemma AppendedText(str: string, name: string, allowList: string)
    ensures str + name + " " + allowList + "; " == str + (name + " " + allowList + ";") + " "
  {
    assert "; " == ";" + " ";
  }

  /** `'self'` and the origins, written one after the other. */
  lemma SelfThenOrigins(str: string, name: string, origins: string)
    ensures str + name + " " + "'self'" + " " + origins == str + name + " " + ("'self'" + " " + origins)
  {
  }

  /** The text the step appends for parameters that pass. */
  lemma AppendedAllowList(str: string, name: string, p: DirectiveParameters)
    requires Includes(SupportedValues, name) && SelectAllowList(p).Ok?
    ensures AppendDirective(str, name, Some(p)) == Ok(str + name + " " + AllowListText(SelectAllowList(p).value) + "; ")
  {
    if !p.none && !p.all {
      var origins := if p.origins.Some? then p.origins.value else [];
      if p.self && origins != [] {
        JoinCons("'self'", origins, " ");
        SelfThenOrigins(str, name, Join(origins, " "));
      } else if p.self {
        assert ["'self'"] + origins == ["'self'"];
      } else {
        assert [] + origins == origins;
      }
    }
  }

  /** One step of the fold appends the policy directive and a space. */
  lemma AppendDirectiveWritesPolicyDirective(str: string, name: string, params: Option<DirectiveParameters>)
    ensures AppendDirective(str, name, params).Ok? <==> PolicyDirective(name, params).Ok?
    ensures AppendDirective(str, name, params).Err? ==>
      AppendDirective(str, name, params).error == PolicyDirective(name, params).error
    ensures AppendDirective(str, name, params).Ok? ==>
      AppendDirective(str, name, params).value == str + PolicyDirective(name, params).value + " "
  {
    if Includes(SupportedValues, name) && params.Some? && SelectAllowList(params.value).Ok? {
      AppendedAllowList(str, name, params.value);
      AppendedText(str, name, AllowListText(SelectAllowList(params.value).value));
    }
  }

  /** The fold writes the policy directives, each followed by a space,
      behind the starting text, and fails with the first directive's error. */
  lemma {:induction false} ReduceWritesPolicyDirectives(entries: seq<(string, Option<DirectiveParameters>)>, str: string)
    ensures ReduceDirectives(entries, str).Ok? <==> PolicyDirectives(entries).Ok?
    ensures ReduceDirectives(entries, str).Err? ==>
      ReduceDirectives(entries, str).error == PolicyDirectives(entries).error
    ensures ReduceDirectives(entries, str).Ok? ==>
      var directives := PolicyDirectives(entries).value;
      ReduceDirectives(entries, str).value ==
        if directives == [] then str else str + Join(directives, " ") + " "
  {
    if entries != [] {
      var name, params := entries[0].0, entries[0].1;
      AppendDirectiveWritesPolicyDirective(str, name, params);
      var step := PolicyDirective(name, params);
      if step.Ok? {
        var next := str + step.value + " ";
        ReduceWritesPolicyDirectives(entries[1..], next);
        var rest := PolicyDirectives(entries[1..]);
        if rest.Ok? {
          ConsText(str, step.value, rest.value);
        }
      }
    }
  }

  /** The text behind one more written directive. */
  lemma ConsText(str: string, first: string, rest: seq<string>)
    ensures (if rest == [] then str + first + " " else str + first + " " + Join(rest, " ") + " ")
         == str + Join([first] + rest, " ") + " "
  {
    if rest != [] {
      JoinCons(first, rest, " ");
    } else {
      assert [first] + rest == [first];
    }
  }

  /** Every supported feature name starts with a lower-case letter. */
  lemma SupportedValuesStartWithLetter(name: string)
    requires Includes(SupportedValues, name)
    ensures name != [] && 'a' <= name[0] <= 'z'
  {
    var k := IncludedAt(SupportedValues, name);
    EveryFeatureNameStartsWithLetter();
  }

  lemma EveryFeatureNameStartsWithLetter()
    ensures forall i :: 0 <= i < |SupportedValues| ==> SupportedValues[i] != [] && 'a' <= SupportedValues[i][0] <= 'z'
  {
  }

  /** A directive written for `name`: it starts with the name and ends with ";". */
  predicate Shaped(directive: string, name: string)
  {
    HasPrefix(directive, name) && directive != [] && directive[|directive| - 1] == ';'
  }

  /** Each policy directive starts with its feature name and ends with ";". */
  lemma {:induction false} PolicyDirectivesShape(entries: seq<(string, Option<DirectiveParameters>)>)
    requires PolicyDirectives(entries).Ok?
    ensures |PolicyDirectives(entries).value| == |entries|
    ensures forall k :: 0 <= k < |entries| ==> Shaped(PolicyDirectives(entries).value[k], entries[k].0)
  {
    if entries != [] {
      var first := PolicyDirective(entries[0].0, entries[0].1).value;
      var tail := entries[1..];
      PolicyDirectiveShape(entries[0].0, entries[0].1);
      PolicyDirectivesShape(tail);
      var directives := PolicyDirectives(entries).value;
      var rest := PolicyDirectives(tail).value;
      assert directives == [first] + rest;
      forall k | 0 <= k < |entries|
        ensures Shaped(directives[k], entries[k].0)
      {
        if k > 0 {
          assert directives[k] == rest[k - 1];
          assert entries[k] == tail[k - 1];
        }
      }
    }
  }

  /** A written directive starts with its supported name and ends in ';'. */
  lemma PolicyDirectiveShape(name: string, params: Option<DirectiveParameters>)
    requires PolicyDirective(name, params).Ok?
    ensures Includes(SupportedValues, name)
    ensures Shaped(PolicyDirective(name, params).value, name)
  {
    var text := AllowListText(SelectAllowList(params.value).value);
    assert PolicyDirective(name, params).value == name + (" " + text + ";");
  }

  /** A join of parts whose last part ends with `c` ends with `c`. */
  lemma {:induction false} JoinEndsWithLast(parts: seq<string>, sep: string, c: char)
    requires parts != [] && parts[|parts| - 1] != [] && parts[|parts| - 1][|parts[|parts| - 1]| - 1] == c
    ensures Join(parts, sep) != [] && Join(parts, sep)[|Join(parts, sep)| - 1] == c
  {
    if |parts| > 1 {
      JoinAppend(parts[..|parts| - 1], parts[|parts| - 1], sep);
      assert parts[..|parts| - 1] + [parts[|parts| - 1]] == parts;
    }
  }

  /** Trimming the folded text leaves the policy directives joined by " ". */
  lemma TrimmedFoldIsJoin(entries: seq<(string, Option<DirectiveParameters>)>)
    requires ReduceDirectives(entries, "").Ok?
    ensures PolicyDirectives(entries).Ok?
    ensures Trim(ReduceDirectives(entries, "").value) == Join(PolicyDirectives(entries).value, " ")
  {
    ReduceWritesPolicyDirectives(entries, "");
    var directives := PolicyDirectives(entries).value;
    if directives != [] {
      PolicyDirectivesShape(entries);
      FirstDirectiveStartsWithLetter(entries);
      assert "" + Join(directives, " ") + " " == Join(directives, " ") + " ";
      TrimmedJoin(directives);
    }
  }

  /** The first policy directive begins with its feature name's first letter. */
  lemma FirstDirectiveStartsWithLetter(entries: seq<(string, Option<DirectiveParameters>)>)
    requires entries != [] && PolicyDirectives(entries).Ok?
    ensures var directives := PolicyDirectives(entries).value;
      directives != [] && directives[0] != [] && 'a' <= directives[0][0] <= 'z'
  {
    var name, params := entries[0].0, entries[0].1;
    assert PolicyDirective(name, params).Ok?;
    assert PolicyDirectives(entries).value[0] == PolicyDirective(name, params).value;
    PolicyDirectiveShape(name, params);
    SupportedValuesStartWithLetter(name);
  }

  /** Trimming the joined directives with their trailing space gives the
      joined directives back. */
  lemma TrimmedJoin(directives: seq<string>)
    requires directives != [] && directives[0] != [] && 'a' <= directives[0][0] <= 'z'
    requires directives[|directives| - 1] != []
    requires directives[|directives| - 1][|directives[|directives| - 1]| - 1] == ';'
    ensures Trim(Join(directives, " ") + " ") == Join(directives, " ")
  {
    JoinStartsWithFirst(directives, " ");
    JoinEndsWithLast(directives, " ", ';');
    var x := Join(directives, " ");
    assert x[0] == directives[0][0];
    TrimTrailingSpace(x);
  }

  /** `createFeaturePolicyHeaderValue`: `None` when the options are falsy;
      otherwise the policy directives in key order joined by " ", or the
      error of the first directive that cannot be written. */
  function CreateFeaturePolicyHeaderValue(options: FeaturePolicyOptions): (r: Result<Option<string>>)
    ensures r == Ok(None) <==> options.Falsy?
    ensures options.Directives? ==>
      var directives := PolicyDirectives(options.entries);
      (r.Ok? <==> directives.Ok?) &&
      (r.Err? ==> r.error == directives.error) &&
      (r.Ok? ==> r.value == Some(Join(directives.value, " ")))
  {
    match options
    case Falsy => Ok(None)
    case Directives(entries) =>
      ReduceWritesPolicyDirectives(entries, "");
      var value :- ReduceDirectives(entries, "");
      TrimmedFoldIsJoin(entries);
      Ok(Some(Trim(value)))
  }

  /** `createFeaturePolicyHeader`: no header for falsy options, otherwise a
      Feature-Policy header carrying the value, or the value's error. */
  function CreateFeaturePolicyHeader(options: FeaturePolicyOptions): (r: Result<Option<ResponseHeader>>)
    ensures r == Ok(None) <==> options.Falsy?
    ensures r.Err? <==> CreateFeaturePolicyHeaderValue(options).Err?
    ensures r.Err? ==> r.error == CreateFeaturePolicyHeaderValue(options).error
    ensures r.Ok? && r.value.Some? ==>
      r.value.value.name == HeaderName && r.value.value.value == CreateFeaturePolicyHeaderValue(options).value
  {
    match options
    case Falsy => Ok(None)
    case Directives(_) =>
      var value :- CreateFeaturePolicyHeaderValue(options);
      Ok(Some(ResponseHeader(HeaderName, value)))
  }

  /** The policy directives of a single directive. */
  lemma PolicyDirectivesOfOne(name: string, params: Option<DirectiveParameters>)
    ensures PolicyDirectives([(name, params)]) ==
      match PolicyDirective(name, params)
      case Ok(directive) => Ok([directive])
      case Err(error) => Err(error)
  {
    assert [(name, params)][1..] == [];
    if PolicyDirective(name, params).Ok? {
      assert [PolicyDirective(name, params).value] + [] == [PolicyDirective(name, params).value];
    }
  }

  /** With `none` set, no other parameter changes the header. */
  lemma NoneTakesPrecedence(name: string, p: DirectiveParameters, q: DirectiveParameters)
    requires p.none && q.none
    ensures CreateFeaturePolicyHeaderValue(Directives([(name, Some(p))]))
         == CreateFeaturePolicyHeaderValue(Directives([(name, Some(q))]))
  {
    PolicyDirectivesOfOne(name, Some(p));
    PolicyDirectivesOfOne(name, Some(q));
  }

  /** With `all` set and `none` not, `self` and `origins` do not change the
      header. */
  lemma AllTakesPrecedence(name: string, p: DirectiveParameters, q: DirectiveParameters)
    requires !p.none && !q.none && p.all && q.all
    ensures CreateFeaturePolicyHeaderValue(Directives([(name, Some(p))]))
         == CreateFeaturePolicyHeaderValue(Directives([(name, Some(q))]))
  {
    PolicyDirectivesOfOne(name, Some(p));
    PolicyDirectivesOfOne(name, Some(q));
  }

  /** With `none` set the directive is written with `'none'`, whatever the
      other parameters say. */
  lemma NoneIsWrittenAsNone(name: string, all: bool, self: bool, origins: Option<seq<string>>)
    requires Includes(SupportedValues, name)
    ensures CreateFeaturePolicyHeaderValue(Directives([(name, Some(DirectiveParameters(true, all, self, origins)))]))
         == Ok(Some(name + " 'none';"))
  {
    PolicyDirectivesOfOne(name, Some(DirectiveParameters(true, all, self, origins)));
    assert name + " " + "'none'" + ";" == name + " 'none';";
  }

  lemma SelfSpacing(name: string, rest: string)
    ensures name + " " + ("'self'" + " " + rest) + ";" == name + " 'self' " + rest + ";"
  {
    assert " " + ("'self'" + " " + rest) == " 'self' " + rest;
  }

  /** `'self'` comes first, then the origins, separated by single spaces. */
  lemma SelfThenOriginsAreWritten(name: string, origins: seq<string>)
    requires Includes(SupportedValues, name) && origins != []
    ensures CreateFeaturePolicyHeaderValue(Directives([(name, Some(DirectiveParameters(false, false, true, Some(origins))))]))
         == Ok(Some(name + " 'self' " + Join(origins, " ") + ";"))
  {
    var params := Some(DirectiveParameters(false, false, true, Some(origins)));
    var text := name + " 'self' " + Join(origins, " ") + ";";
    assert PolicyDirective(name, params) == Ok(text) by {
      assert SelectAllowList(params.value) == Ok(Origins(true, origins));
      JoinCons("'self'", origins, " ");
      assert AllowListText(Origins(true, origins)) == "'self'" + " " + Join(origins, " ");
      SelfSpacing(name, Join(origins, " "));
    }
    assert PolicyDirectives([(name, params)]) == Ok([text]) by {
      PolicyDirectivesOfOne(name, params);
    }
    assert Join([text], " ") == text;
  }
}
