/**
 * `Utils::partial`, `Utils::partial_right` and their helpers
 * `mergeLeft`, `mergeRight` and `resolvePlaceholder`.
 *
 * `Placeholder::resolve` is defined outside this model, so it is a
 * parameter: given the invocation arguments and the Placeholder's position in
 * the bound list it yields a value, or fails (throws). `resolvePlaceholder`
 * holds the invocation list by reference, so `resolve` may change it; it
 * therefore also hands back that list as it leaves it. Nothing here assumes
 * it consumes anything.
 */
module Partial {
  import opened Args
  import opened Powers

  datatype Resolution<T> = Resolved(value: Arg<T>, invoked: seq<Arg<T>>) | Unresolvable

  /** `Placeholder::resolve(&$invoked, $position)`. */
  type Resolver<!T> = (seq<Arg<T>>, nat) -> Resolution<T>

  /** The bound list after resolution, and the invocation list as resolution left it. */
  datatype Merge<T> = Merge(bound: seq<Arg<T>>, invoked: seq<Arg<T>>)

  function Prepend<T>(v: Arg<T>, r: Option<Merge<T>>): Option<Merge<T>>
  {
    match r
    case None => None
    case Some(m) => Some(Merge([v] + m.bound, m.invoked))
  }

  /**
   * The `foreach ($stored as $position => &$param)` loop from `pos` on:
   * each Placeholder entry is replaced by what `resolve` yields for its own
   * position, every other entry stays where it is.
   */
  function ResolveFrom<T>(resolve: Resolver<T>, stored: seq<Arg<T>>, pos: nat, invoked: seq<Arg<T>>): (r: Option<Merge<T>>)
    requires pos <= |stored|
    ensures r.Some? ==> |r.value.bound| == |stored| - pos
    ensures r.Some? ==> forall i :: pos <= i < |stored| && !stored[i].Placeholder? ==> r.value.bound[i - pos] == stored[i]
    ensures NoPlaceholders(stored[pos..]) ==> r == Some(Merge(stored[pos..], invoked))
    decreases |stored| - pos
  {
    if pos == |stored| then
      assert stored[pos..] == [];
      Some(Merge([], invoked))
    else if stored[pos].Placeholder? then
      match resolve(invoked, pos)
      case Unresolvable => None
      case Resolved(v, invoked') => Prepend(v, ResolveFrom(resolve, stored, pos + 1, invoked'))
    else
      NoPlaceholdersTail(stored, pos);
      Prepend(stored[pos], ResolveFrom(resolve, stored, pos + 1, invoked))
  }

  lemma NoPlaceholdersTail<T>(stored: seq<Arg<T>>, pos: nat)
    requires pos < |stored|
    ensures stored[pos..] == [stored[pos]] + stored[pos + 1..]
    ensures NoPlaceholders(stored[pos..]) ==> NoPlaceholders(stored[pos + 1..])
  {
  }

  /**
   * `Utils::resolvePlaceholder($stored, $invoked)`: the bound list keeps its
   * length and every entry that is not a Placeholder; a list without
   * Placeholders comes back untouched, and only a failing `resolve` fails it.
   */
  function ResolvePlaceholders<T>(resolve: Resolver<T>, stored: seq<Arg<T>>, invoked: seq<Arg<T>>): (r: Option<Merge<T>>)
    ensures r.Some? ==> |r.value.bound| == |stored|
    ensures r.Some? ==> forall i :: 0 <= i < |stored| && !stored[i].Placeholder? ==> r.value.bound[i] == stored[i]
    ensures NoPlaceholders(stored) ==> r == Some(Merge(stored, invoked))
  {
    assert stored[0..] == stored;
    ResolveFrom(resolve, stored, 0, invoked)
  }

  /** A `resolve` that leaves the invocation list alone and picks a value for each position. */
  function Picking<T>(pick: (seq<Arg<T>>, nat) -> Arg<T>): Resolver<T>
  {
    (invoked: seq<Arg<T>>, p: nat) => Resolved(pick(invoked, p), invoked)
  }

  /** The bound list with every Placeholder at position `p` replaced by `pick(invoked, p)`. */
  function Substitute<T>(pick: (seq<Arg<T>>, nat) -> Arg<T>, stored: seq<Arg<T>>, invoked: seq<Arg<T>>): seq<Arg<T>>
  {
    seq(|stored|, i requires 0 <= i < |stored| => if stored[i].Placeholder? then pick(invoked, i) else stored[i])
  }

  /**
   * Resolution is positional: with a `resolve` that does not touch the
   * invocation list, the Placeholder at position `p` of the bound list is
   * given what `resolve` picks for position `p` of the invocation list.
   */
  lemma PositionalResolution<T>(pick: (seq<Arg<T>>, nat) -> Arg<T>, stored: seq<Arg<T>>, invoked: seq<Arg<T>>)
    ensures ResolvePlaceholders(Picking(pick), stored, invoked) == Some(Merge(Substitute(pick, stored, invoked), invoked))
  {
    PositionalFrom(pick, stored, 0, invoked);
    assert Substitute(pick, stored, invoked)[0..] == Substitute(pick, stored, invoked);
  }

  lemma {:induction false} PositionalFrom<T>(pick: (seq<Arg<T>>, nat) -> Arg<T>, stored: seq<Arg<T>>, pos: nat, invoked: seq<Arg<T>>)
    requires pos <= |stored|
    ensures ResolveFrom(Picking(pick), stored, pos, invoked) == Some(Merge(Substitute(pick, stored, invoked)[pos..], invoked))
    decreases |stored| - pos
  {
    var sub := Substitute(pick, stored, invoked);
    if pos == |stored| {
      assert sub[pos..] == [];
    } else {
      PositionalFrom(pick, stored, pos + 1, invoked);
      var rest := ResolveFrom(Picking(pick), stored, pos + 1, invoked);
      var head := sub[pos];
      if stored[pos].Placeholder? {
        assert Picking(pick)(invoked, pos) == Resolved(head, invoked);
      }
      assert ResolveFrom(Picking(pick), stored, pos, invoked) == Prepend(head, rest);
      assert sub[pos..] == [head] + sub[pos + 1..];
    }
  }

  /** A `resolve` that takes the next invocation argument off the front, like `array_shift`. */
  function Shifting<T>(): Resolver<T>
  {
    (invoked: seq<Arg<T>>, p: nat) => if |invoked| == 0 then Unresolvable else Resolved(invoked[0], invoked[1..])
  }

  /**
   * The model covers a consuming `resolve` too: with one that shifts the
   * next argument off, `partial(fn, …, x)(y, z) == fn(y, x, z)` and
   * `partial_right(fn, …, x)(y, z) == fn(z, y, x)`.
   */
  lemma ShiftingExample<T, R>(fn: seq<Arg<T>> -> R, x: Arg<T>, y: Arg<T>, z: Arg<T>)
    requires !x.Placeholder?
    ensures PartialLeft(fn, Shifting(), [Placeholder, x])([y, z]) == Some(fn([y, x, z]))
    ensures PartialRight(fn, Shifting(), [Placeholder, x])([y, z]) == Some(fn([z, y, x]))
  {
    var stored: seq<Arg<T>> := [Placeholder, x];
    assert Shifting()([y, z], 0) == Resolved(y, [z]);
    assert stored[2..] == [];
    assert ResolveFrom(Shifting(), stored, 2, [z]) == Some(Merge([], [z]));
    assert [x] + [] == [x];
    assert ResolveFrom(Shifting(), stored, 1, [z]) == Some(Merge([x], [z]));
    assert [y] + [x] == [y, x];
    assert ResolveFrom(Shifting(), stored, 0, [y, z]) == Some(Merge([y, x], [z]));
    assert [y, x] + [z] == [y, x, z];
    assert [z] + [y, x] == [z, y, x];
    assert MergeLeft(Shifting(), stored, [y, z]) == Some([y, x, z]);
    assert MergeRight(Shifting(), stored, [y, z]) == Some([z, y, x]);
  }

  /** `Utils::mergeLeft`: the resolved bound list, then the invocation list. */
  function MergeLeft<T>(resolve: Resolver<T>, stored: seq<Arg<T>>, invoked: seq<Arg<T>>): Option<seq<Arg<T>>>
  {
    match ResolvePlaceholders(resolve, stored, invoked)
    case None => None
    case Some(m) => Some(m.bound + m.invoked)
  }

  /** `Utils::mergeRight`: the invocation list, then the resolved bound list. */
  function MergeRight<T>(resolve: Resolver<T>, stored: seq<Arg<T>>, invoked: seq<Arg<T>>): Option<seq<Arg<T>>>
  {
    match ResolvePlaceholders(resolve, stored, invoked)
    case None => None
    case Some(m) => Some(m.invoked + m.bound)
  }

  /**
   * The two merges fail together, and when they succeed each is the other
   * rotated by the bound list's length: the resolved bound entries lead in
   * one and close the other.
   */
  lemma MergeRotation<T>(resolve: Resolver<T>, stored: seq<Arg<T>>, invoked: seq<Arg<T>>)
    ensures MergeLeft(resolve, stored, invoked).Some? <==> MergeRight(resolve, stored, invoked).Some?
    ensures MergeLeft(resolve, stored, invoked).Some? ==>
      var l, r := MergeLeft(resolve, stored, invoked).value, MergeRight(resolve, stored, invoked).value;
      && |l| == |r| >= |stored|
      && l[..|stored|] == r[|r| - |stored|..]
      && l[|stored|..] == r[..|r| - |stored|]
      && forall i :: 0 <= i < |stored| && !stored[i].Placeholder? ==> l[i] == stored[i]
  {
  }

  /** `Utils::partial(fn, ...bound)`: the closure calling `fn` with the left merge. */
  function PartialLeft<T, R>(fn: seq<Arg<T>> -> R, resolve: Resolver<T>, bound: seq<Arg<T>>): seq<Arg<T>> -> Option<R>
  {
    (args: seq<Arg<T>>) =>
      match MergeLeft(resolve, bound, args)
      case None => None
      case Some(merged) => Some(fn(merged))
  }

  /** `Utils::partial_right(fn, ...bound)`: the closure calling `fn` with the right merge. */
  function PartialRight<T, R>(fn: seq<Arg<T>> -> R, resolve: Resolver<T>, bound: seq<Arg<T>>): seq<Arg<T>> -> Option<R>
  {
    (args: seq<Arg<T>>) =>
      match MergeRight(resolve, bound, args)
      case None => None
      case Some(merged) => Some(fn(merged))
  }

  /**
   * Without Placeholders in the bound list, `partial(fn, b...)(args...)`
   * is `fn(b..., args...)` and `partial_right(fn, b...)(args...)` is
   * `fn(args..., b...)`, whatever `resolve` does.
   */
  lemma PartialWithoutPlaceholders<T, R>(fn: seq<Arg<T>> -> R, resolve: Resolver<T>, bound: seq<Arg<T>>, args: seq<Arg<T>>)
    requires NoPlaceholders(bound)
    ensures PartialLeft(fn, resolve, bound)(args) == Some(fn(bound + args))
    ensures PartialRight(fn, resolve, bound)(args) == Some(fn(args + bound))
  {
    assert MergeLeft(resolve, bound, args) == Some(bound + args);
    assert MergeRight(resolve, bound, args) == Some(args + bound);
  }

  /** The partial applications fail exactly when placeholder resolution fails. */
  lemma PartialFailure<T, R>(fn: seq<Arg<T>> -> R, resolve: Resolver<T>, bound: seq<Arg<T>>, args: seq<Arg<T>>)
    ensures PartialLeft(fn, resolve, bound)(args).None? <==> ResolvePlaceholders(resolve, bound, args).None?
    ensures PartialRight(fn, resolve, bound)(args).None? <==> ResolvePlaceholders(resolve, bound, args).None?
    ensures ResolvePlaceholders(resolve, bound, args).None? ==> exists i :: 0 <= i < |bound| && bound[i].Placeholder?
  {
    assert MergeLeft(resolve, bound, args).None? <==> ResolvePlaceholders(resolve, bound, args).None?;
    assert MergeRight(resolve, bound, args).None? <==> ResolvePlaceholders(resolve, bound, args).None?;
  }

  /** The callback of the partial-application tests: `function ($a, $b) { return $a ** $b; }`. */
  function PowFn(args: seq<Arg<nat>>): Arg<nat>
  {
    if |args| >= 2 && args[0].Val? && args[1].Val? then Val(Pow(args[0].v, args[1].v)) else Null
  }

  /** `partial(pow, 2)(10) == 1024` and `partial_right(pow, 3)(10) == 1000`. */
  lemma PowExamples(resolve: Resolver<nat>)
    ensures PartialLeft(PowFn, resolve, [Val(2)])([Val(10)]) == Some(Val(1024))
    ensures PartialRight(PowFn, resolve, [Val(3)])([Val(10)]) == Some(Val(1000))
  {
    PartialWithoutPlaceholders(PowFn, resolve, [Val(2)], [Val(10)]);
    PartialWithoutPlaceholders(PowFn, resolve, [Val(3)], [Val(10)]);
    assert [Val(2)] + [Val(10)] == [Val(2), Val(10)];
    assert [Val(10)] + [Val(3)] == [Val(10), Val(3)];
    assert Pow(2, 10) == 1024;
    assert Pow(10, 3) == 1000;
  }
}
