/** `Utils::flip`: swap the first two arguments of a callable. */
module Flipping {
  import opened Args

  /** PHP's `array_shift`: the first element and the rest; `null` and `[]` on an empty list. */
  function Shift<T>(s: seq<Arg<T>>): (r: (Arg<T>, seq<Arg<T>>))
    ensures |s| == 0 ==> r == (Null, [])
    ensures |s| > 0 ==> [r.0] + r.1 == s
  {
    if |s| == 0 then (Null, []) else (s[0], s[1..])
  }

  /**
   * The list the closure of `Utils::flip` forwards: shift off `a` and `b`,
   * then `array_merge([b, a], rest)`. Missing arguments come out as `null`,
   * so the list has at least two entries.
   */
  function FlipArgs<T>(args: seq<Arg<T>>): (r: seq<Arg<T>>)
    ensures |r| == if |args| < 2 then 2 else |args|
    ensures r[0] == if |args| >= 2 then args[1] else Null
    ensures r[1] == if |args| >= 1 then args[0] else Null
    ensures r[2..] == if |args| >= 2 then args[2..] else []
  {
    var (a, rest) := Shift(args);
    var (b, rest') := Shift(rest);
    [b, a] + rest'
  }

  /** `Utils::flip(fn)`: the closure calling `fn` with the flipped list. */
  function Flip<T, R>(fn: seq<Arg<T>> -> R): seq<Arg<T>> -> R
  {
    (args: seq<Arg<T>>) => fn(FlipArgs(args))
  }

  /** Flipping a list of two or more arguments twice gives it back. */
  lemma FlipArgsInvolution<T>(args: seq<Arg<T>>)
    requires |args| >= 2
    ensures FlipArgs(FlipArgs(args)) == args
  {
  }

  /** `flip(flip(fn))` behaves as `fn` on two or more arguments. */
  lemma FlipFlip<T, R>(fn: seq<Arg<T>> -> R, args: seq<Arg<T>>)
    requires |args| >= 2
    ensures Flip(Flip(fn))(args) == fn(args)
  {
    FlipArgsInvolution(args);
  }

  /**
   * `flip(f)(x, y) == f(y, x)`, `flip(g)(x, y, z) == g(y, x, z)`, and short
   * argument lists are padded with `null`.
   */
  lemma FlipExamples<T, R>(fn: seq<Arg<T>> -> R, x: Arg<T>, y: Arg<T>, z: Arg<T>)
    ensures Flip(fn)([x, y]) == fn([y, x])
    ensures Flip(fn)([x, y, z]) == fn([y, x, z])
    ensures Flip(fn)([x]) == fn([Null, x])
    ensures Flip(fn)([]) == fn([Null, Null])
  {
    assert FlipArgs([x, y]) == [y, x];
    assert FlipArgs([x, y, z]) == [y, x, z];
    assert FlipArgs([x]) == [Null, x];
    assert FlipArgs<T>([]) == [Null, Null];
  }
}
