/** Sequence helpers shared by the combinators. */
module Seqs {

  /** The elements of `s` in the opposite order; PHP's `array_reverse` on a list. */
  function Reverse<X>(s: seq<X>): (r: seq<X>)
    ensures |r| == |s|
    ensures forall i :: 0 <= i < |s| ==> r[i] == s[|s| - 1 - i]
  {
    if |s| == 0 then [] else Reverse(s[1..]) + [s[0]]
  }

  /** Reversing twice gives the sequence back. */
  lemma ReverseReverse<X>(s: seq<X>)
    ensures Reverse(Reverse(s)) == s
  {
  }

  /** Reversal turns appending at the back into prepending at the front. */
  lemma ReverseSnoc<X>(s: seq<X>, x: X)
    ensures Reverse(s + [x]) == [x] + Reverse(s)
  {
  }

  /** Reversal turns prepending at the front into appending at the back. */
  lemma ReverseCons<X>(x: X, s: seq<X>)
    ensures Reverse([x] + s) == Reverse(s) + [x]
  {
  }
}
