/** Byte blocks of equal size laid end to end, as the output stream is
    written: where each block lands. */
module Blocks {

  /** a <= b scales to a * c <= b * c for a non-negative c. */
  lemma {:induction false} MulLe(a: nat, b: nat, c: nat)
    requires a <= b
    ensures a * c <= b * c
  {
    if a < b {
      MulLe(a, b - 1, c);
      assert (b - 1) * c + c == b * c;
    }
  }

  /** Where block x starts when every block holds k bytes, counted block by block. */
  function Offset(x: nat, k: nat): nat
  {
    if x == 0 then 0 else Offset(x - 1, k) + k
  }

  /** Block x starts at byte x * k. */
  lemma {:induction false} OffsetIsProduct(x: nat, k: nat)
    ensures Offset(x, k) == x * k
  {
    if x > 0 {
      OffsetIsProduct(x - 1, k);
      assert (x - 1) * k + k == x * k;
    }
  }

  /** An earlier block ends no later than a later one starts. */
  lemma {:induction false} OffsetMono(x: nat, m: nat, k: nat)
    requires x < m
    ensures Offset(x, k) + k <= Offset(m, k)
  {
    if x + 1 < m {
      OffsetMono(x, m - 1, k);
    }
  }

  /** The blocks laid end to end, in order. */
  function Concat(blocks: seq<seq<int>>): (out: seq<int>)
    ensures blocks == [] ==> out == []
    ensures blocks != [] ==>
      (|blocks[|blocks| - 1]| <= |out| && out[|out| - |blocks[|blocks| - 1]|..] == blocks[|blocks| - 1])
  {
    if blocks == [] then [] else Concat(blocks[..|blocks| - 1]) + blocks[|blocks| - 1]
  }

  /** n blocks of k bytes each make Offset(n, k) bytes. */
  lemma {:induction false} ConcatLength(blocks: seq<seq<int>>, k: nat)
    requires forall i :: 0 <= i < |blocks| ==> |blocks[i]| == k
    ensures |Concat(blocks)| == Offset(|blocks|, k)
  {
    if blocks != [] {
      ConcatLength(blocks[..|blocks| - 1], k);
    }
  }

  /** Blocks of k bytes each: block x sits at Offset(x, k) of their concatenation. */
  lemma {:induction false} ConcatBlock(blocks: seq<seq<int>>, k: nat, x: nat)
    requires forall i :: 0 <= i < |blocks| ==> |blocks[i]| == k
    requires x < |blocks|
    ensures Offset(x, k) + k <= |Concat(blocks)|
    ensures Concat(blocks)[Offset(x, k) .. Offset(x, k) + k] == blocks[x]
  {
    var n := |blocks|;
    var front := blocks[..n - 1];
    var prev := Concat(front);
    var last := blocks[n - 1];
    ConcatLength(front, k);
    assert Concat(blocks) == prev + last;
    var lo := Offset(x, k);
    if x < n - 1 {
      OffsetMono(x, n - 1, k);
      ConcatBlock(front, k, x);
      assert (prev + last)[lo .. lo + k] == prev[lo .. lo + k];
    } else {
      assert (prev + last)[lo .. lo + k] == last;
    }
  }
}
