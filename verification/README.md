# Funcy combinators in Dafny

A Dafny model of `LWB\Functional\Utils` (`src/Utils.php`). The class is a
small library of pure higher-order combinators over PHP argument lists and
ordered arrays:

- `sequence` and `compose` fold a list of callbacks, seeded with the
  Placeholder sentinel;
- `map` assigns `$result[$key] = $fn($val)` entry by entry;
- `foldl` is a `foreach` fold; `foldr` is the same fold over `iter_reverse`;
- `flip` shifts the first two arguments off and puts them back swapped;
- `partial` and `partial_right` resolve Placeholders in the bound list, then
  merge it in front of or behind the invocation arguments;
- `curry` (explicit arity) builds a closure that buffers arguments until
  the arity is reached;
- `uncurry` folds its arguments with "call the accumulator with the next one".

How PHP is represented:

- An argument is `Args.Arg<T>`: `Placeholder` (the singleton), `Null`
  (PHP `null`, which `array_shift` also returns on an empty array), or
  `Val(v)`.
- A callable is a total Dafny function from an argument list to a result.
- An ordered array is a sequence of `(Key, value)` pairs in iteration order.
  A `Key` is an integer or a string key.
- A closure returned by a combinator is a Dafny lambda. The curry closure is
  the exception: it is the value `Currying.Curried(callback, num, buffer)`.
  This keeps its captured buffer visible, and calling it (`Invoke`) returns
  either `Done(result)` or `More(next closure)`. The earlier closure is an
  immutable value, so later calls can never change its buffer.
- `Placeholder::resolve` is defined in `src/Placeholder.php`, which is not
  part of this model. It appears as a parameter, `Partial.Resolver`.
  `resolvePlaceholder` holds the invocation list by reference
  (src/Utils.php:257), so `resolve` may change it. The resolver therefore
  gets the list and the Placeholder's position, and hands back a value
  together with the list as it leaves it, or `Unresolvable` when it throws.
  `Partial.Shifting` is one such resolver, which takes the first invocation
  argument off the list.

Modules: `Seqs` (reversal), `Powers` (`**` for the example callbacks), `Args` (argument values, the Placeholder
accessor), `Arrays` (keys, values, lookup, assignment, lists), `Folds`,
`Mapping`, `Composition`, `Flipping`, `Partial`, `Currying`.

Two behaviours of the code are easy to miss:

- `flip` pads missing arguments with `null` (src/Utils.php:169-174), so the
  forwarded list always has at least two entries (`Flipping.FlipArgs`).
- When a callback returns the Placeholder, `sequence` calls the next callback
  with the original arguments again (src/Utils.php:69,
  `Composition.SequenceSnoc`).

Whether resolution consumes invocation arguments is up to
`Placeholder::resolve`, so the model leaves it open (see above).

## Model

| member | source | states |
|---|---|---|
| Seqs.Reverse | src/Utils.php:40 | `array_reverse` of a list: same length, and entry `i` is entry `n-1-i` of the input |
| Seqs.ReverseReverse | src/Utils.php:40-41 | reversing twice gives the list back, so `compose` undoes its own reversal |
| Args.Ellipsis | src/Utils.php:219-231 | `…()`/`placeholder()` return the singleton; any value that is a Placeholder is that one value |
| Arrays.Store | src/Utils.php:102 | `$a[$k] = $v`: a new key is appended at the end with its value; for an existing key the key list is unchanged, so the key keeps its position |
| Arrays.StoreLookup | src/Utils.php:102 | after `$a[$k] = $v`, looking up `k` gives `v` and every other key reads as before |
| Folds.Foldl | src/Utils.php:128-133 | `foldl` as a `foreach` fold; characterised by FoldlSnoc, FoldlAppend and ForeachFold |
| Folds.FoldlSnoc | src/Utils.php:128-133 | `foldl(f, init, [])` is `init`, and `foldl(f, a, s + [x]) == f(foldl(f, a, s), x)` |
| Folds.FoldlAppend | src/Utils.php:128-133 | folding `xs + ys` is folding `ys` from the result of folding `xs` |
| Folds.ForeachFold | src/Utils.php:128-133 | the `foreach` loop of `foldl` computes the left fold `f(...f(f(init, x0), x1)..., xn-1)` |
| Folds.IterReverse | src/Utils.php:135-141 | `iter_reverse` yields as many entries as the array holds; their order is characterised by IterReverseOrder |
| Folds.IterReverseOrder | src/Utils.php:135-141 | the keys and the values come out in exactly reversed order |
| Folds.Foldr | src/Utils.php:143-148 | `foldr` as `foldl` over `iter_reverse`; characterised by FoldrIsFoldlOfReverse and FoldrOfList |
| Folds.FoldrIsFoldlOfReverse | src/Utils.php:143-148 | `foldr(f, a, s) == foldl(f, a, reverse(values(s)))` with the same `(acc, x)` argument order; `foldr` of the empty array is `a`; the first entry is folded last |
| Folds.FoldrOfList | src/Utils.php:143-148 | on a list, `foldr` is `foldl` of the reversed list |
| Folds.ExponentialFactorial | tests/funcy.php:59-65 | `foldl(($acc, $x) => $x ** $acc, 0, [1, 2, 3, 4]) == 262144` |
| Folds.PowerTower | tests/funcy.php:67-73 | `foldr(($acc, $x) => $x ** $acc, 1, [3, 4]) == 81` |
| Mapping.Map | src/Utils.php:91-106 | `map` as `$result[$key] = $fn($val)` over the entries; characterised by MapPointwise and MapLookup |
| Mapping.MapPointwise | src/Utils.php:98-105 | on an array, `map`'s result has exactly the input's keys in the same order, and each entry's value is `fn` of the input's value |
| Mapping.MapLookup | src/Utils.php:98-105 | `map(fn, S)[k] == fn(S[k])` for every key of `S`, and the result has no other keys |
| Mapping.MapAgreesWithArrayMap | tests/funcy.php:51-57 | on a list, `map` and `array_map` produce the same array |
| Composition.Sequence | src/Utils.php:60-72 | `sequence` as a fold seeded with the Placeholder; characterised by SequenceSnoc and SequenceIsPipe |
| Composition.SequenceSnoc | src/Utils.php:64-71 | with no callbacks the closure returns the seed Placeholder; an added last callback gets the previous result, or the original arguments again if that result is the Placeholder |
| Composition.SequenceIsPipe | src/Utils.php:60-72 | if no callback except possibly the last returns the Placeholder, `sequence(f1..fn)(args) == fn(...f2(f1(args)))` |
| Composition.Compose | src/Utils.php:38-42 | `compose` as `sequence` of the reversed callbacks; characterised by ComposeIsNesting and SequenceIsComposeOfReversed |
| Composition.ComposeIsNesting | src/Utils.php:38-42 | `compose(f)(args) == f(args)`, and `compose(f, g1..gk)(args) == f(compose(g1..gk)(args))` once the inner result is not the Placeholder |
| Composition.SequenceIsComposeOfReversed | src/Utils.php:38-42 | `compose` of the reversed callbacks is `sequence` of the callbacks |
| Composition.SuffixExamples | tests/funcy.php:15-33 | `sequence(a, b, c)('d') == 'dabc'` and `compose(a, b, c)('d') == 'dcba'` |
| Flipping.Shift | src/Utils.php:169-170 | `array_shift` of an empty list gives `null` and `[]`; otherwise the head and the rest put back together give the list |
| Flipping.FlipArgs | src/Utils.php:168-174 | the forwarded list is `[b, a] + rest`, padded with `null` for missing arguments, so its length is `max(2, n)` |
| Flipping.Flip | src/Utils.php:164-177 | `flip` calls `fn` on the flipped argument list; characterised by FlipArgs, FlipFlip and FlipExamples |
| Flipping.FlipArgsInvolution | src/Utils.php:168-174 | flipping a list of two or more arguments twice gives it back |
| Flipping.FlipFlip | src/Utils.php:164-177 | `flip(flip(fn))` behaves as `fn` on two or more arguments |
| Flipping.FlipExamples | tests/funcy.php:75-85 | `flip(f)(x, y) == f(y, x)`, `flip(g)(x, y, z) == g(y, x, z)`, and shorter lists are padded with `null` |
| Partial.ResolveFrom | src/Utils.php:257-262 | the resolution loop from a position on keeps the rest's length; each non-Placeholder entry stays where it is; with no Placeholders left, the bound list and the invocation list come back unchanged |
| Partial.ResolvePlaceholders | src/Utils.php:257-262 | `resolvePlaceholder` keeps the bound list's length and every non-Placeholder entry at its position; a list without Placeholders is untouched |
| Partial.PositionalResolution | src/Utils.php:257-262 | with a `resolve` that does not touch the invocation list, the Placeholder at position `p` gets what `resolve` picks for position `p`, and nothing else changes |
| Partial.MergeLeft | src/Utils.php:237-241 | resolved bound list in front of the invocation list; characterised by MergeRotation and ShiftingExample |
| Partial.MergeRight | src/Utils.php:247-251 | invocation list in front of the resolved bound list; characterised by MergeRotation and ShiftingExample |
| Partial.MergeRotation | src/Utils.php:237-251 | `mergeLeft` and `mergeRight` fail together; on success each is the other rotated by the bound list's length (resolved bound first vs. last); the bound part keeps every non-Placeholder entry |
| Partial.PartialLeft | src/Utils.php:199-205 | `partial` calls `fn` on `mergeLeft`'s list; characterised by PartialWithoutPlaceholders, PartialFailure and ShiftingExample |
| Partial.PartialRight | src/Utils.php:207-213 | `partial_right` calls `fn` on `mergeRight`'s list; characterised by PartialWithoutPlaceholders, PartialFailure and ShiftingExample |
| Partial.PartialWithoutPlaceholders | src/Utils.php:199-213 | without Placeholders, `partial(fn, b..)(args) == fn(b ++ args)` and `partial_right(fn, b..)(args) == fn(args ++ b)` |
| Partial.PartialFailure | src/Utils.php:199-213 | both partial applications fail exactly when resolution fails, which requires a Placeholder in the bound list |
| Partial.ShiftingExample | src/Utils.php:199-213 | with a resolver that takes the first invocation argument, `partial(fn, …, x)(y, z) == fn(y, x, z)` and `partial_right(fn, …, x)(y, z) == fn(z, y, x)` |
| Partial.PowExamples | tests/funcy.php:35-49 | `partial(pow, 2)(10) == 1024` and `partial_right(pow, 3)(10) == 1000` |
| Currying.Curry | src/Utils.php:268-280 | `curry` with an explicit arity builds the buffering closure; characterised by InvokeChunks, CurriedCalls and ThreeCalls |
| Currying.InvokeChunks | src/Utils.php:272-279 | while the buffer stays below the arity, arguments may be split across calls at will: calling with `xs` and then `ys` gives what one call with `xs ++ ys` gives |
| Currying.CurriedCalls | src/Utils.php:268-280 | successive calls with argument lists `c1..ck`, none reaching the arity before the last, give `callback(buffer ++ c1 ++ .. ++ ck)` if the last reaches it, else the closure holding that buffer |
| Currying.ThreeCalls | tests/funcy.php:87-95 | `curry(f, 3)(x)(y)(z) == f(x, y, z)`, with closures over `[x]` and `[x, y]` in between |
| Currying.Uncurry | src/Utils.php:285-291 | `uncurry` folds "call the accumulator with the next argument"; characterised by UncurryChains and UncurryCurry |
| Currying.UncurryChains | src/Utils.php:285-291 | `uncurry(f)()` is `f`; `uncurry(f)(a1..ak) == f(a1)..(ak)`; an added last argument is one more call on the outside |
| Currying.UncurryCurry | src/Utils.php:285-291 | for `n >= 1`: `uncurry(curry(f, n))` on exactly `n` arguments is `f` of them; on fewer it is the closure holding them; on more it fails |

## Left out

- Arity detection by reflection (`ReflectionFunction`, src/Utils.php:270-271): it needs runtime introspection. `num` is always given explicitly.
- The callability checks: the `trigger_error` in `map` and the `callable` type hints. Dafny's function types make every callback callable, so these error paths cannot arise.
- Generators, the internal array pointer (`end`/`key`/`prev`) and by-reference `foreach` mechanics. Arrays are key/value sequences, and `iter_reverse` is the reversed sequence it yields.
- Named arguments (PHP 8): `...$bound`, `...$args` and `...$invoked` would collect them under string keys, and `array_merge` would keep those keys, a later one overwriting an earlier one. Only positional arguments are modelled; with them every collected list is a list, so each `array_merge` (src/Utils.php:240, 250, 274) is sequence concatenation.
- The `Placeholder` class (`getInstance`, `resolve`): src/Placeholder.php is not part of this model. The singleton is a nullary constructor, and `resolve` is a parameter.
- `**` overflowing to a float in PHP: the test callbacks use unbounded naturals, which is exact for the tested values.
- Currying.UncurryCurry: on more than `n` arguments, the surplus argument is applied to `f`'s result. The model treats that result as not callable (`CallError`, PHP's error for calling a non-callable). A callback that returns a closure is not modelled.
- The test runner of tests/funcy.php (printing, test discovery, exception catching): it is harness I/O. Its expected values appear as the example lemmas.
- The string callbacks of the tests (`str_replace`, `.` concatenation): the currying lemmas hold for any callback. The composition example uses a callback that appends one character.
