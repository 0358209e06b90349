/**
 * Argument values as the combinators see them.
 *
 * The combinators never look inside an argument; they only need to tell the
 * Placeholder sentinel apart from everything else and to produce PHP's `null`
 * where `array_shift` runs out of elements.
 */
module Args {

  datatype Option<+X> = None | Some(value: X)

  /**
   * One argument: the Placeholder singleton, PHP's `null`, or any other value.
   * The singleton is a nullary constructor, so there is exactly one of it.
   */
  datatype Arg<+T> = Placeholder | Null | Val(v: T)

  /**
   * `Utils::…()` and its alias `Utils::placeholder()`: the process-wide
   * Placeholder instance. Every Placeholder value is this one value.
   */
  function Ellipsis<T(!new)>(): (p: Arg<T>)
    ensures forall a: Arg<T> :: a.Placeholder? <==> a == p
  {
    Placeholder
  }

  /** True when no entry of `s` is the Placeholder. */
  predicate NoPlaceholders<T>(s: seq<Arg<T>>)
  {
    forall i :: 0 <= i < |s| ==> !s[i].Placeholder?
  }
}
