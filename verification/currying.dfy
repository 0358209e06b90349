/**
 * `Utils::curry` with an explicit arity, and `Utils::uncurry`.
 *
 * A curried closure is a value holding its callback, the arity and the
 * argument buffer it captured; calling it never changes it, it either runs
 * the callback or produces a new closure with a longer buffer.
 */
module Currying {
  import opened Args
  import opened Folds

  /** The closure `curry($callback, $num, $args)` returns. */
  datatype Curried<!T, R> = Curried(callback: seq<Arg<T>> -> R, num: int, buffer: seq<Arg<T>>)

  /** What one call of a curried closure returns. */
  datatype Step<!T, R> = Done(result: R) | More(next: Curried<T, R>)

  /** `Utils::curry($callback, $num, $args)`. */
  function Curry<T, R>(callback: seq<Arg<T>> -> R, num: int, args: seq<Arg<T>>): Curried<T, R>
  {
    Curried(callback, num, args)
  }

  /**
   * Calling a curried closure: the buffer becomes the old buffer followed by
   * the new arguments; the callback runs with the whole buffer, surplus
   * included, exactly when the buffer has reached the arity, and otherwise a
   * closure over the longer buffer comes back.
   */
  function Invoke<T, R>(c: Curried<T, R>, invoked: seq<Arg<T>>): (s: Step<T, R>)
    ensures s.Done? <==> |c.buffer| + |invoked| >= c.num
    ensures s.Done? ==> s.result == c.callback(c.buffer + invoked)
    ensures s.More? ==> s.next == Curried(c.callback, c.num, c.buffer + invoked)
  {
    var args := c.buffer + invoked;
    if |args| >= c.num then Done(c.callback(args)) else More(Curry(c.callback, c.num, args))
  }

  /**
   * Arguments may be split across calls at will while the arity is not yet
   * reached: `curry(f, 3)(x)(y, z)` is `curry(f, 3)(x, y, z)`.
   */
  lemma InvokeChunks<T, R>(c: Curried<T, R>, xs: seq<Arg<T>>, ys: seq<Arg<T>>)
    ensures |c.buffer| + |xs| < c.num ==>
      Invoke(c, xs).More? && Invoke(Invoke(c, xs).next, ys) == Invoke(c, xs + ys)
  {
    assert c.buffer + xs + ys == c.buffer + (xs + ys);
  }

  /**
   * A value in a chain of calls: a curried closure, a callback's final
   * result, or the failure of calling something that is not callable.
   */
  datatype Value<!T, R> = Fn(closure: Curried<T, R>) | Out(result: R) | CallError

  /** `$v(...$invoked)` on a value of the chain. */
  function CallWith<T, R>(v: Value<T, R>, invoked: seq<Arg<T>>): Value<T, R>
  {
    match v
    case Fn(c) => (match Invoke(c, invoked) case Done(r) => Out(r) case More(c') => Fn(c'))
    case Out(_) => CallError
    case CallError => CallError
  }

  /** All argument lists of `chunks`, one after the other. */
  function Flatten<X>(chunks: seq<seq<X>>): seq<X>
  {
    if |chunks| == 0 then [] else chunks[0] + Flatten(chunks[1..])
  }

  /**
   * Successive calls `c(chunk1)(chunk2)...(chunkk)` of a curried closure,
   * where no call before the last reaches the arity: the last call runs the
   * callback on the captured buffer followed by every chunk, if the arity is
   * reached by then; otherwise the result is the closure over that buffer.
   */
  lemma {:induction false} CurriedCalls<T, R>(c: Curried<T, R>, chunks: seq<seq<Arg<T>>>)
    requires forall k :: 1 <= k < |chunks| ==> |c.buffer| + |Flatten(chunks[..k])| < c.num
    ensures var all := c.buffer + Flatten(chunks);
      Foldl(CallWith, Fn(c), chunks) ==
        if |chunks| > 0 && |all| >= c.num then Out(c.callback(all))
        else Fn(Curried(c.callback, c.num, all))
    decreases |chunks|
  {
    if |chunks| == 0 {
      assert c.buffer + Flatten(chunks) == c.buffer;
    } else {
      var first := CallWith(Fn(c), chunks[0]);
      assert Foldl(CallWith, Fn(c), chunks) == Foldl(CallWith, first, chunks[1..]);
      if |chunks| > 1 {
        assert chunks[..1] == [chunks[0]];
        assert Flatten(chunks[..1]) == chunks[0];
        var c' := Curried(c.callback, c.num, c.buffer + chunks[0]);
        assert first == Fn(c');
        var rest := chunks[1..];
        forall k | 1 <= k < |rest|
          ensures |c'.buffer| + |Flatten(rest[..k])| < c'.num
        {
          assert chunks[..k + 1][1..] == rest[..k];
          assert chunks[..k + 1][0] == chunks[0];
        }
        CurriedCalls(c', rest);
        assert c'.buffer + Flatten(rest) == c.buffer + Flatten(chunks);
      } else {
        assert chunks[1..] == [];
        assert Flatten(chunks) == chunks[0] + [];
        assert Foldl(CallWith, first, chunks[1..]) == first;
        var all := c.buffer + chunks[0];
        assert chunks[0] + [] == chunks[0];
        assert c.buffer + Flatten(chunks) == all;
        if |all| >= c.num {
          assert first == Out(c.callback(all));
        } else {
          assert first == Fn(Curried(c.callback, c.num, all));
        }
      }
    }
  }

  /** `curry(f, 3)(x)(y)(z) == f(x, y, z)`, each earlier call returning a closure. */
  lemma ThreeCalls<T, R>(f: seq<Arg<T>> -> R, x: Arg<T>, y: Arg<T>, z: Arg<T>)
    ensures Invoke(Curry(f, 3, []), [x]) == More(Curried(f, 3, [x]))
    ensures Invoke(Curried(f, 3, [x]), [y]) == More(Curried(f, 3, [x, y]))
    ensures Invoke(Curried(f, 3, [x, y]), [z]) == Done(f([x, y, z]))
  {
    assert [] + [x] == [x];
    assert [x] + [y] == [x, y];
    assert [x, y] + [z] == [x, y, z];
  }

  /** `Utils::uncurry($callback)`: fold the arguments with "call the accumulator with the next one". */
  function Uncurry<A, X>(call: (A, X) -> A, callback: A): seq<X> -> A
  {
    (invoked: seq<X>) => Foldl(call, callback, invoked)
  }

  /**
   * `uncurry(f)()` is `f` itself, and `uncurry(f)(a1, ..., ak)` is
   * `f(a1)(a2)...(ak)`: one more argument is one more call on the outside,
   * and the first argument is the innermost call.
   */
  lemma UncurryChains<A, X>(call: (A, X) -> A, f: A, a: X, xs: seq<X>)
    ensures Uncurry(call, f)([]) == f
    ensures Uncurry(call, f)(xs + [a]) == call(Uncurry(call, f)(xs), a)
    ensures Uncurry(call, f)([a] + xs) == Uncurry(call, call(f, a))(xs)
  {
    FoldlSnoc(call, f, xs, a);
    assert ([a] + xs)[1..] == xs;
  }

  /** PHP's `call_user_func($v, $x)` on a value of a curried chain. */
  function CallUserFunc<T, R>(v: Value<T, R>, x: Arg<T>): Value<T, R>
  {
    CallWith(v, [x])
  }

  lemma {:induction false} UncurryFrom<T, R>(c: Curried<T, R>, xs: seq<Arg<T>>)
    requires |c.buffer| < c.num
    requires |c.buffer| + |xs| <= c.num
    ensures Foldl(CallUserFunc, Fn(c), xs) ==
      if |c.buffer| + |xs| == c.num then Out(c.callback(c.buffer + xs))
      else Fn(Curried(c.callback, c.num, c.buffer + xs))
    decreases |xs|
  {
    if |xs| == 0 {
      assert c.buffer + xs == c.buffer;
    } else {
      var c' := Curried(c.callback, c.num, c.buffer + [xs[0]]);
      assert c.buffer + xs == c'.buffer + xs[1..];
      if |xs| > 1 {
        assert CallUserFunc(Fn(c), xs[0]) == Fn(c');
        UncurryFrom(c', xs[1..]);
      } else {
        assert xs == [xs[0]];
      }
    }
  }

  /**
   * `uncurry(curry(f, n))` called with exactly `n >= 1` arguments is `f`
   * called with them; with fewer it is the curried closure holding them; with
   * more, the surplus argument is applied to `f`'s result, which is not
   * callable here.
   */
  lemma UncurryCurry<T, R>(f: seq<Arg<T>> -> R, n: int, args: seq<Arg<T>>)
    requires n >= 1
    ensures |args| == n ==> Uncurry(CallUserFunc, Fn(Curry(f, n, [])))(args) == Out(f(args))
    ensures |args| < n ==> Uncurry(CallUserFunc, Fn(Curry(f, n, [])))(args) == Fn(Curried(f, n, args))
    ensures |args| > n ==> Uncurry(CallUserFunc, Fn(Curry(f, n, [])))(args) == CallError
  {
    var c := Curry(f, n, []);
    assert [] + args == args;
    if |args| <= n {
      UncurryFrom(c, args);
    } else {
      var prefix, rest := args[..n], args[n..];
      assert args == prefix + rest;
      UncurryFrom(c, prefix);
      assert [] + prefix == prefix;
      FoldlAppend(CallUserFunc, Fn(c), prefix, rest);
      StaysFailed(Out(f(prefix)), rest);
    }
  }

  /** Once the chain holds a final result, every further call fails. */
  lemma {:induction false} StaysFailed<T, R>(v: Value<T, R>, xs: seq<Arg<T>>)
    requires !v.Fn?
    requires |xs| > 0
    ensures Foldl(CallUserFunc, v, xs) == CallError
    decreases |xs|
  {
    if |xs| > 1 {
      StaysFailed(CallUserFunc(v, xs[0]), xs[1..]);
    }
  }
}
