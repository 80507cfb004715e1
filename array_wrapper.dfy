/** `wrapArray` (src/rules/shared/array-wrapper.ts): one value or an array
    of values, normalised to an array. */
module ArrayWrapper {

  /** A value given either alone or as an array of such values. */
  datatype OneOrMany<T> = One(item: T) | Many(items: seq<T>)

  /** A lone value becomes a one-element array; an array is returned as it is. */
  function WrapArray<T>(value: OneOrMany<T>): seq<T>
  {
    match value
    case One(x) => [x]
    case Many(xs) => xs
  }

  /** A lone value is wrapped into a one-element array, never an empty one. */
  lemma WrapArrayScalar<T>(x: T)
    ensures WrapArray(One(x)) == [x]
    ensures |WrapArray(One(x))| == 1
  {
  }

  /** An array comes back with the same elements in the same order; an empty
      array stays empty. */
  lemma WrapArrayArray<T>(xs: seq<T>)
    ensures WrapArray(Many(xs)) == xs
    ensures WrapArray(Many(xs)) == [] <==> xs == []
  {
  }

  /** Wrapping an already wrapped value changes nothing. */
  lemma WrapArrayIdempotent<T>(value: OneOrMany<T>)
    ensures WrapArray(Many(WrapArray(value))) == WrapArray(value)
  {
  }
}
