/** `Utils::sequence` and `Utils::compose`. */
module Composition {
  import opened Args
  import opened Seqs
  import opened Folds

  /** A PHP callable: positional arguments in, one value out. */
  type Callable<!T> = seq<Arg<T>> -> Arg<T>

  /**
   * The fold step inside the closure of `Utils::sequence`: while the
   * accumulator is still the Placeholder the next callback gets the original
   * arguments, otherwise it gets the accumulator as its single argument.
   */
  function SequenceStep<T>(args: seq<Arg<T>>): (Arg<T>, Callable<T>) -> Arg<T>
  {
    (acc: Arg<T>, fn: Callable<T>) => if acc.Placeholder? then fn(args) else fn([acc])
  }

  /** `Utils::sequence(f1, ..., fn)`: fold the callbacks, seeded with the Placeholder. */
  function Sequence<T>(fns: seq<Callable<T>>): Callable<T>
  {
    (args: seq<Arg<T>>) => Foldl(SequenceStep(args), Placeholder, fns)
  }

  /** `Utils::compose(f1, ..., fn)`: `sequence` of the reversed callbacks. */
  function Compose<T>(fns: seq<Callable<T>>): Callable<T>
  {
    Sequence(Reverse(fns))
  }

  /**
   * With no callbacks the closure returns the seed Placeholder; one more
   * callback at the back is called with the previous result, or with the
   * original arguments again when the previous result is the Placeholder.
   */
  lemma SequenceSnoc<T>(fns: seq<Callable<T>>, g: Callable<T>, args: seq<Arg<T>>)
    ensures Sequence([])(args) == Placeholder
    ensures var prev := Sequence(fns)(args);
            Sequence(fns + [g])(args) == if prev.Placeholder? then g(args) else g([prev])
  {
    FoldlSnoc(SequenceStep(args), Placeholder, fns, g);
  }

  /** `fn` never answers with the Placeholder. */
  ghost predicate NeverPlaceholder<T(!new)>(fn: Callable<T>)
  {
    forall x :: !fn(x).Placeholder?
  }

  /** Reference chaining: the first callback gets `args`, each later one the single previous result. */
  function Pipe<T>(fns: seq<Callable<T>>, args: seq<Arg<T>>): Arg<T>
    requires |fns| > 0
  {
    Then(fns[1..], fns[0](args))
  }

  /** Feed `v` through `gs` one callback at a time. */
  function Then<T>(gs: seq<Callable<T>>, v: Arg<T>): Arg<T>
    decreases |gs|
  {
    if |gs| == 0 then v else Then(gs[1..], gs[0]([v]))
  }

  /**
   * When no callback but possibly the last answers with the Placeholder,
   * `sequence(f1, ..., fn)(args) == fn(...f2(f1(args)))`.
   */
  lemma SequenceIsPipe<T(!new)>(fns: seq<Callable<T>>, args: seq<Arg<T>>)
    requires |fns| > 0
    requires forall i :: 0 <= i < |fns| - 1 ==> NeverPlaceholder(fns[i])
    ensures Sequence(fns)(args) == Pipe(fns, args)
  {
    var step := SequenceStep(args);
    assert Foldl(step, Placeholder, fns) == Foldl(step, fns[0](args), fns[1..]);
    ThenIsFold(fns[1..], fns[0](args), args);
  }

  lemma {:induction false} ThenIsFold<T(!new)>(gs: seq<Callable<T>>, v: Arg<T>, args: seq<Arg<T>>)
    requires |gs| > 0 ==> !v.Placeholder?
    requires forall i :: 0 <= i < |gs| - 1 ==> NeverPlaceholder(gs[i])
    ensures Foldl(SequenceStep(args), v, gs) == Then(gs, v)
    decreases |gs|
  {
    if |gs| > 1 {
      assert NeverPlaceholder(gs[0]);
      assert !gs[0]([v]).Placeholder?;
      assert forall i :: 0 <= i < |gs[1..]| - 1 ==> gs[1..][i] == gs[i + 1];
      ThenIsFold(gs[1..], gs[0]([v]), args);
    }
  }

  /**
   * `compose(f, g1, ..., gk)(args) == f(compose(g1, ..., gk)(args))` once the
   * inner result is not the Placeholder; with a single callback, compose
   * calls it with the original arguments.
   */
  lemma ComposeIsNesting<T>(f: Callable<T>, fns: seq<Callable<T>>, args: seq<Arg<T>>)
    ensures Compose([f])(args) == f(args)
    ensures !Compose(fns)(args).Placeholder? ==> Compose([f] + fns)(args) == f([Compose(fns)(args)])
  {
    ReverseCons(f, fns);
    SequenceSnoc(Reverse(fns), f, args);
    SequenceSnoc([], f, args);
    assert Reverse([f]) == [f];
    assert [] + [f] == [f];
  }

  /** `sequence(f1, ..., fn)` and `compose(fn, ..., f1)` are the same closure. */
  lemma SequenceIsComposeOfReversed<T>(fns: seq<Callable<T>>, args: seq<Arg<T>>)
    ensures Compose(Reverse(fns))(args) == Sequence(fns)(args)
  {
    ReverseReverse(fns);
  }

  /** The callbacks of the composition tests: append one character to a string argument. */
  function Suffix(c: char): Callable<string>
  {
    (args: seq<Arg<string>>) => if |args| > 0 && args[0].Val? then Val(args[0].v + [c]) else Null
  }

  /** `sequence(a, b, c)('d') == 'dabc'` and `compose(a, b, c)('d') == 'dcba'`. */
  lemma SuffixExamples()
    ensures Sequence([Suffix('a'), Suffix('b'), Suffix('c')])([Val("d")]) == Val("dabc")
    ensures Compose([Suffix('a'), Suffix('b'), Suffix('c')])([Val("d")]) == Val("dcba")
  {
    var a, b, c := Suffix('a'), Suffix('b'), Suffix('c');
    var args := [Val("d")];
    assert "d" + ['a'] == "da";
    assert a(args) == Val("da");
    assert "da" + ['b'] == "dab";
    assert b([Val("da")]) == Val("dab");
    assert "dab" + ['c'] == "dabc";
    assert c([Val("dab")]) == Val("dabc");
    SequenceSnoc([], a, args);
    assert [] + [a] == [a];
    SequenceSnoc([a], b, args);
    assert [a] + [b] == [a, b];
    SequenceSnoc([a, b], c, args);
    assert [a, b] + [c] == [a, b, c];

    assert "d" + ['c'] == "dc";
    assert c(args) == Val("dc");
    assert "dc" + ['b'] == "dcb";
    assert b([Val("dc")]) == Val("dcb");
    assert "dcb" + ['a'] == "dcba";
    assert a([Val("dcb")]) == Val("dcba");
    assert Reverse([a, b, c]) == [c, b, a];
    SequenceSnoc([], c, args);
    assert [] + [c] == [c];
    SequenceSnoc([c], b, args);
    assert [c] + [b] == [c, b];
    SequenceSnoc([c, b], a, args);
    assert [c, b] + [a] == [c, b, a];
  }
}
