/** Types shared by every header rule: the outcome of a rule, the header
    pair it builds, and the shapes of option values that several rules
    accept (a JavaScript value is sniffed at run time; here each shape the
    rules tell apart is an explicit variant). */
module Shared {

  datatype Option<+T> = None | Some(value: T)

  /** The exceptions a rule throws; every one aborts the call. */
  datatype ErrorKind =
    | InvalidOption               // "Invalid value for <header>: ..."
    | InvalidUri                  // the URL parser rejected a URI
    | DangerousValue              // "Cannot specify a dangerous value for ..."
    | InvalidDirective            // an unknown Feature-Policy directive name
    | InvalidDirectiveParameters  // missing or empty Feature-Policy parameters
    | TypeError                   // the runtime's error on `undefined.maxAge`

  datatype Result<+T> = Ok(value: T) | Err(error: ErrorKind) {
    predicate IsFailure() { Err? }
    function PropagateFailure<U>(): Result<U> requires Err? { Err(error) }
    function Extract(): T requires Ok? { value }
  }

  /** A candidate response header; a `None` value means "do not send it". */
  datatype ResponseHeader = ResponseHeader(name: string, value: Option<string>)

  /** The URL parser and serialiser (`new URL(...)` and `encodeStrictURI`):
      the canonical serialisation of an absolute URI, or `None` when the
      input does not parse as one. It is a parameter of the model. */
  type UriEncoder = string -> Option<string>

  /** A JavaScript number; only integers are modelled. */
  datatype JsNumber = Finite(n: int) | NonFinite

  /** The first element of a tuple option: exactly `true`, a number, or
      anything else (including the missing element of `[]`). */
  datatype Lead = LeadTrue | LeadNumber(number: JsNumber) | LeadOther

  /** The `maxAge` property of a tuple's parameter object: missing or null,
      a number, or a value of another type. */
  datatype MaxAgeParam = MaxAgeAbsent | MaxAge(age: JsNumber) | MaxAgeNotNumber

  /** `params.maxAge ?? defaultMaxAge`, accepted only when it is a finite
      number. */
  function ResolveMaxAge(maxAge: MaxAgeParam, defaultMaxAge: int): (r: Result<int>)
    ensures r.Ok? <==> maxAge.MaxAgeAbsent? || (maxAge.MaxAge? && maxAge.age.Finite?)
    ensures r.Err? ==> r.error == InvalidOption
    ensures maxAge.MaxAgeAbsent? ==> r == Ok(defaultMaxAge)
    ensures maxAge.MaxAge? && maxAge.age.Finite? ==> r == Ok(maxAge.age.n)
  {
    match maxAge
    case MaxAgeAbsent => Ok(defaultMaxAge)
    case MaxAge(Finite(n)) => Ok(n)
    case _ => Err(InvalidOption)
  }

  /** `.filter((value) => value != undefined)` over an array literal whose
      elements are strings or undefined. */
  function Defined(xs: seq<Option<string>>): (r: seq<string>)
    ensures |r| <= |xs|
    ensures (forall k :: 0 <= k < |xs| ==> xs[k].Some?) ==> |r| == |xs|
    ensures forall k :: 0 <= k < |r| ==> Some(r[k]) in xs
  {
    if xs == [] then []
    else (if xs[0].Some? then [xs[0].value] else []) + Defined(xs[1..])
  }

  /** The filter keeps exactly the defined elements. */
  lemma {:induction false} DefinedMembers(xs: seq<Option<string>>)
    ensures forall x :: x in Defined(xs) <==> Some(x) in xs
  {
    if xs != [] {
      DefinedMembers(xs[1..]);
      assert xs == [xs[0]] + xs[1..];
    }
  }

  /** The filter keeps order: filtering a longer literal appends what the
      last element contributes to the filtered prefix. */
  lemma {:induction false} DefinedAppend(xs: seq<Option<string>>, o: Option<string>)
    ensures Defined(xs + [o]) == Defined(xs) + (if o.Some? then [o.value] else [])
  {
    if xs == [] {
      assert xs + [o] == [o];
      assert [o][1..] == [];
    } else {
      assert (xs + [o])[0] == xs[0];
      assert (xs + [o])[1..] == xs[1..] + [o];
      DefinedAppend(xs[1..], o);
    }
  }

  /** The filter over the three-element literals the rules build. */
  lemma DefinedOfThree(a: Option<string>, b: Option<string>, c: Option<string>)
    ensures Defined([a, b, c]) ==
      (if a.Some? then [a.value] else []) + (if b.Some? then [b.value] else [])
      + (if c.Some? then [c.value] else [])
  {
    assert [a, b, c][1..] == [b, c];
    assert [b, c][1..] == [c];
    assert [c][1..] == [];
    assert Defined([c]) == (if c.Some? then [c.value] else []);
    assert Defined([b, c]) == (if b.Some? then [b.value] else []) + Defined([c]);
  }
}
