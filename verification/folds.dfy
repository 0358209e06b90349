/**
 * `Utils::foldl`, `Utils::iter_reverse` and `Utils::foldr`.
 *
 * `foreach ($iterable as $x)` only sees the values, so the left fold works on
 * the sequence of values in iteration order; the right fold takes the
 * key/value array because `iter_reverse` walks its keys.
 */
module Folds {
  import opened Seqs
  import opened Arrays
  import opened Powers

  /** Reference left fold: `f(...f(f(acc, xs[0]), xs[1])..., xs[n-1])`. */
  function Foldl<A, X>(f: (A, X) -> A, acc: A, xs: seq<X>): A
    decreases |xs|
  {
    if |xs| == 0 then acc else Foldl(f, f(acc, xs[0]), xs[1..])
  }

  /** Folding a concatenation folds the second part from where the first stopped. */
  lemma {:induction false} FoldlAppend<A, X>(f: (A, X) -> A, acc: A, xs: seq<X>, ys: seq<X>)
    ensures Foldl(f, acc, xs + ys) == Foldl(f, Foldl(f, acc, xs), ys)
    decreases |xs|
  {
    if |xs| == 0 {
      assert xs + ys == ys;
    } else {
      assert (xs + ys)[1..] == xs[1..] + ys;
      FoldlAppend(f, f(acc, xs[0]), xs[1..], ys);
    }
  }

  /**
   * The two defining equations of a left fold: the empty sequence returns
   * the seed, and one more element at the back is one more call of `f` on
   * the outside.
   */
  lemma {:induction false} FoldlSnoc<A, X>(f: (A, X) -> A, acc: A, xs: seq<X>, x: X)
    ensures Foldl(f, acc, []) == acc
    ensures Foldl(f, acc, xs + [x]) == f(Foldl(f, acc, xs), x)
  {
    FoldlAppend(f, acc, xs, [x]);
  }

  /** The `foreach` loop of `Utils::foldl`, proved equal to the reference fold. */
  method ForeachFold<A, X>(f: (A, X) -> A, init: A, xs: seq<X>) returns (acc: A)
    ensures acc == Foldl(f, init, xs)
  {
    acc := init;
    for i := 0 to |xs|
      invariant acc == Foldl(f, init, xs[..i])
    {
      assert xs[..i + 1] == xs[..i] + [xs[i]];
      FoldlSnoc(f, init, xs[..i], xs[i]);
      acc := f(acc, xs[i]);
    }
    assert xs[..|xs|] == xs;
  }

  /**
   * `Utils::iter_reverse`: starting at the last entry (`end`) and stepping
   * back (`prev`) until there is no key, yielding each key with its value.
   */
  function IterReverse<V>(a: seq<(Key, V)>): (r: seq<(Key, V)>)
    ensures |r| == |a|
    decreases |a|
  {
    if |a| == 0 then [] else [a[|a| - 1]] + IterReverse(a[..|a| - 1])
  }

  /** `iter_reverse` yields the keys, and with them the values, in reverse order. */
  lemma {:induction false} IterReverseOrder<V>(a: seq<(Key, V)>)
    ensures Keys(IterReverse(a)) == Reverse(Keys(a))
    ensures Values(IterReverse(a)) == Reverse(Values(a))
    decreases |a|
  {
    if |a| > 0 {
      var init, last := a[..|a| - 1], a[|a| - 1];
      IterReverseOrder(init);
      assert Keys(a) == Keys(init) + [last.0];
      assert Values(a) == Values(init) + [last.1];
      ReverseSnoc(Keys(init), last.0);
      ReverseSnoc(Values(init), last.1);
      assert Keys(IterReverse(a)) == [last.0] + Keys(IterReverse(init));
      assert Values(IterReverse(a)) == [last.1] + Values(IterReverse(init));
    }
  }

  /** `Utils::foldr`: the `foreach` fold over the values `iter_reverse` yields. */
  function Foldr<A, X>(f: (A, X) -> A, acc: A, a: seq<(Key, X)>): A
  {
    Foldl(f, acc, Values(IterReverse(a)))
  }

  /**
   * A right fold is the left fold, with the same `(acc, x)` argument order,
   * of the reversed values; the first entry is therefore folded last.
   */
  lemma FoldrIsFoldlOfReverse<A, X>(f: (A, X) -> A, acc: A, a: seq<(Key, X)>, e: (Key, X))
    ensures Foldr(f, acc, a) == Foldl(f, acc, Reverse(Values(a)))
    ensures Foldr(f, acc, []) == acc
    ensures Foldr(f, acc, [e] + a) == f(Foldr(f, acc, a), e.1)
  {
    IterReverseOrder(a);
    IterReverseOrder([e] + a);
    var vs := Values(a);
    assert Values([e] + a) == [e.1] + vs;
    ReverseCons(e.1, vs);
    FoldlSnoc(f, acc, Reverse(vs), e.1);
  }

  /** On a PHP list, the right fold is the left fold of the reversed list. */
  lemma FoldrOfList<A, X>(f: (A, X) -> A, acc: A, xs: seq<X>)
    ensures Foldr(f, acc, Indexed(xs)) == Foldl(f, acc, Reverse(xs))
  {
    IterReverseOrder(Indexed(xs));
  }

  /** `foldl` over 1..4 from 0 is the exponential factorial `4 ** 3 ** 2 ** 1`. */
  lemma ExponentialFactorial()
    ensures Foldl(PowStep, 0, [1, 2, 3, 4]) == 262144
  {
  }

  /** `foldr` over [3, 4] from 1 is `3 ** 4 ** 1`. */
  lemma PowerTower()
    ensures Foldr(PowStep, 1, Indexed([3, 4])) == 81
  {
  }
}
