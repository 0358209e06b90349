/** `Utils::map`: apply a callback to every value, keeping keys and order. */
module Mapping {
  import opened Args
  import opened Arrays
  import opened Folds

  /** The loop body `$result[$key] = $fn($val)` as a fold step. */
  function StoreMapped<V, W>(fn: V -> W): (seq<(Key, W)>, (Key, V)) -> seq<(Key, W)>
  {
    (result: seq<(Key, W)>, e: (Key, V)) => Store(result, e.0, fn(e.1))
  }

  /** `Utils::map`: a `foreach` over the entries, starting from `array()`. */
  function Map<V, W>(fn: V -> W, a: seq<(Key, V)>): seq<(Key, W)>
  {
    Foldl(StoreMapped(fn), [], a)
  }

  /**
   * On an array (distinct keys) the result has exactly the input's keys in
   * the same order, and the value under each key is `fn` of the input's.
   */
  lemma {:induction false} MapPointwise<V, W>(fn: V -> W, a: seq<(Key, V)>)
    requires DistinctKeys(a)
    ensures |Map(fn, a)| == |a|
    ensures Keys(Map(fn, a)) == Keys(a)
    ensures forall i :: 0 <= i < |a| ==> Map(fn, a)[i] == (a[i].0, fn(a[i].1))
    decreases |a|
  {
    if |a| > 0 {
      var init, e := a[..|a| - 1], a[|a| - 1];
      assert a == init + [e];
      LastKeyFresh(a);
      MapPointwise(fn, init);
      var prev := Map(fn, init);
      assert Map(fn, a) == Store(prev, e.0, fn(e.1)) by {
        FoldlSnoc(StoreMapped(fn), [], init, e);
      }
      assert Keys(prev) == Keys(init);
      assert Map(fn, a) == prev + [(e.0, fn(e.1))];
      forall i | 0 <= i < |a|
        ensures Map(fn, a)[i] == (a[i].0, fn(a[i].1))
      {
        if i < |init| {
          assert a[i] == init[i];
        }
      }
    }
  }

  /** In an array, the last key does not occur earlier, and the rest is an array. */
  lemma LastKeyFresh<V>(a: seq<(Key, V)>)
    requires DistinctKeys(a)
    requires |a| > 0
    ensures DistinctKeys(a[..|a| - 1])
    ensures a[|a| - 1].0 !in Keys(a[..|a| - 1])
  {
  }

  /** Two arrays related entry by entry through `fn` answer every lookup alike. */
  lemma {:induction false} LookupPointwise<V, W>(fn: V -> W, a: seq<(Key, V)>, r: seq<(Key, W)>, k: Key)
    requires |r| == |a|
    requires forall i :: 0 <= i < |a| ==> r[i] == (a[i].0, fn(a[i].1))
    ensures Lookup(r, k).Some? <==> Lookup(a, k).Some?
    ensures Lookup(a, k).Some? ==> Lookup(r, k) == Some(fn(Lookup(a, k).value))
    decreases |a|
  {
    if |a| > 0 && a[0].0 != k {
      LookupPointwise(fn, a[1..], r[1..], k);
    }
  }

  /** `map(fn, S)[k] == fn(S[k])` for every key of `S`, and no other key appears. */
  lemma MapLookup<V, W>(fn: V -> W, a: seq<(Key, V)>, k: Key)
    requires DistinctKeys(a)
    ensures Lookup(Map(fn, a), k).Some? <==> Lookup(a, k).Some?
    ensures Lookup(a, k).Some? ==> Lookup(Map(fn, a), k) == Some(fn(Lookup(a, k).value))
  {
    MapPointwise(fn, a);
    LookupPointwise(fn, a, Map(fn, a), k);
  }

  /** PHP's `array_map` on a list. */
  function ArrayMap<V, W>(fn: V -> W, xs: seq<V>): seq<W>
  {
    if |xs| == 0 then [] else [fn(xs[0])] + ArrayMap(fn, xs[1..])
  }

  /** On a list, `Utils::map` and `array_map` give the same array. */
  lemma {:induction false} MapAgreesWithArrayMap<V, W>(fn: V -> W, xs: seq<V>)
    ensures Map(fn, Indexed(xs)) == Indexed(ArrayMap(fn, xs))
  {
    MapPointwise(fn, Indexed(xs));
    ArrayMapPointwise(fn, xs);
  }

  lemma {:induction false} ArrayMapPointwise<V, W>(fn: V -> W, xs: seq<V>)
    ensures |ArrayMap(fn, xs)| == |xs|
    ensures forall i :: 0 <= i < |xs| ==> ArrayMap(fn, xs)[i] == fn(xs[i])
    decreases |xs|
  {
    if |xs| > 0 {
      ArrayMapPointwise(fn, xs[1..]);
    }
  }
}
