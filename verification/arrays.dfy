/**
 * PHP ordered arrays as key/value sequences in iteration order.
 *
 * A PHP array never holds the same key twice; `DistinctKeys` states that
 * invariant where a property depends on it.
 */
module Arrays {
  import opened Args

  /** A PHP array key: an integer or a string. */
  datatype Key = IntKey(i: int) | StrKey(s: string)

  /** The keys of `a`, in iteration order. */
  function Keys<V>(a: seq<(Key, V)>): (ks: seq<Key>)
    ensures |ks| == |a|
    ensures forall i :: 0 <= i < |a| ==> ks[i] == a[i].0
  {
    seq(|a|, i requires 0 <= i < |a| => a[i].0)
  }

  /** The values of `a`, in iteration order (what `foreach ($a as $x)` visits). */
  function Values<V>(a: seq<(Key, V)>): (vs: seq<V>)
    ensures |vs| == |a|
    ensures forall i :: 0 <= i < |a| ==> vs[i] == a[i].1
  {
    seq(|a|, i requires 0 <= i < |a| => a[i].1)
  }

  ghost predicate DistinctKeys<V>(a: seq<(Key, V)>)
  {
    forall i, j :: 0 <= i < j < |a| ==> a[i].0 != a[j].0
  }

  /** `$a[$k]` for a key that may be missing. */
  function Lookup<V>(a: seq<(Key, V)>, k: Key): (r: Option<V>)
    ensures r.None? <==> k !in Keys(a)
    ensures r.Some? ==> (k, r.value) in a
  {
    if |a| == 0 then None
    else if a[0].0 == k then Some(a[0].1)
    else Lookup(a[1..], k)
  }

  /**
   * `$a[$k] = $v`: an existing key keeps its position and takes the new
   * value; a new key is appended at the end.
   */
  function Store<V>(a: seq<(Key, V)>, k: Key, v: V): (r: seq<(Key, V)>)
    ensures k !in Keys(a) ==> r == a + [(k, v)]
    ensures k in Keys(a) ==> Keys(r) == Keys(a)
  {
    if |a| == 0 then [(k, v)]
    else if a[0].0 == k then [(k, v)] + a[1..]
    else [a[0]] + Store(a[1..], k, v)
  }

  /** After `$a[$k] = $v`, `$a[$k]` is `$v` and every other key reads as before. */
  lemma {:induction false} StoreLookup<V>(a: seq<(Key, V)>, k: Key, v: V, k': Key)
    ensures Lookup(Store(a, k, v), k) == Some(v)
    ensures k' != k ==> Lookup(Store(a, k, v), k') == Lookup(a, k')
    decreases |a|
  {
    if |a| > 0 && a[0].0 != k {
      StoreLookup(a[1..], k, v, k');
      assert (([a[0]] + Store(a[1..], k, v)))[1..] == Store(a[1..], k, v);
    }
  }

  /** A PHP list: the values of `xs` under the keys 0, 1, 2, ... */
  function Indexed<V>(xs: seq<V>): (a: seq<(Key, V)>)
    ensures Values(a) == xs
    ensures forall i :: 0 <= i < |xs| ==> a[i].0 == IntKey(i)
  {
    seq(|xs|, i requires 0 <= i < |xs| => (IntKey(i), xs[i]))
  }
}
