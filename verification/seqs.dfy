/** Facts about slices of concatenations, stated once for every module. */
module Seqs {

  /** A slice inside the left operand of a concatenation. */
  lemma SliceLeft<T>(a: seq<T>, b: seq<T>, i: nat, j: nat)
    requires i <= j <= |a|
    ensures (a + b)[i..j] == a[i..j]
  {
  }

  /** A slice covering exactly the right operand. */
  lemma SliceRight<T>(a: seq<T>, b: seq<T>)
    ensures (a + b)[|a|..|a| + |b|] == b
    ensures (a + b)[..|a|] == a
  {
  }

  /** `dst` with `v` written over positions `[off, off + |v|)`: a vector
      store into a byte buffer. */
  function Splice<T>(dst: seq<T>, off: nat, v: seq<T>): (r: seq<T>)
    requires off + |v| <= |dst|
    ensures |r| == |dst|
    ensures r[..off] == dst[..off]
    ensures r[off..off + |v|] == v
    ensures r[off + |v|..] == dst[off + |v|..]
    ensures forall k :: 0 <= k < |r| && !(off <= k < off + |v|) ==> r[k] == dst[k]
  {
    dst[..off] + v + dst[off + |v|..]
  }

  /** A buffer whose prefix `[0, off)` is `p` holds `p + v` on
      `[0, off + |v|)` once `v` is stored at `off`. */
  lemma SpliceExtends<T>(dst: seq<T>, off: nat, v: seq<T>, p: seq<T>)
    requires off + |v| <= |dst| && dst[..off] == p
    ensures Splice(dst, off, v)[..off + |v|] == p + v
  {
    var r := Splice(dst, off, v);
    assert r[..off + |v|] == r[..off] + r[off..off + |v|];
  }
}
