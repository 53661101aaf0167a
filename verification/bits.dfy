/** Bit-level vocabulary shared by every decompressor variant: a row mask is a
    64-bit word, bit `i` governs output lane `i`, and the rank of a lane is the
    number of set bits below it.

    Bit indices and small counts are carried through `bv8` so that every fact
    about a word stays a pure bit-vector fact. */
module Bits {

  type byte = bv8

  const AllOnes: bv64 := 0xFFFF_FFFF_FFFF_FFFF

  /** Bit `i` of `m` (a `bt` instruction, or `(m >> i) & 1` in C). */
  predicate Bit(m: bv64, i: nat)
    requires i < 64
  {
    (m >> (i as bv8)) & 1 == 1
  }

  /** Number of set bits of `m` among positions `0 .. i-1`. */
  function PopBelow(m: bv64, i: nat): (r: nat)
    requires i <= 64
    ensures r <= i
  {
    if i == 0 then 0 else PopBelow(m, i - 1) + (if Bit(m, i - 1) then 1 else 0)
  }

  /** The rank of lane `i`: how many stream bytes the lanes below it consume. */
  function Rank(m: bv64, i: nat): nat
    requires i < 64
  {
    PopBelow(m, i)
  }

  /** The `popcnt` instruction. */
  function Popcount(m: bv64): (r: nat)
    ensures r <= 64
  {
    PopBelow(m, 64)
  }

  lemma PopBelowStep(m: bv64, i: nat)
    requires i < 64
    ensures PopBelow(m, i + 1) == PopBelow(m, i) + (if Bit(m, i) then 1 else 0)
    ensures Bit(m, i) == ((m >> (i as bv8)) & 1 == 1)
  {
  }

  lemma RankIsPopBelow(m: bv64, i: nat)
    requires i < 64
    ensures Rank(m, i) == PopBelow(m, i)
  {
  }

  lemma PopcountIsPopBelow(m: bv64)
    ensures Popcount(m) == PopBelow(m, 64)
  {
  }

  /** A small natural number as an 8-bit value and back is the identity. */
  lemma RoundTrip8(a: nat)
    requires a < 256
    ensures (a as bv8) as int == a
  {
    assert a % 256 == a;
  }

  /** A small natural as an 8-bit value, kept behind a name so that proofs
      about comparisons need not see the conversion. */
  function ToBv8(a: nat): bv8
    requires a < 256
  {
    a as bv8
  }

  lemma ToBv8RoundTrip(a: nat)
    requires a < 256
    ensures ToBv8(a) as int == a
  {
    RoundTrip8(a);
  }

  lemma BvLess(x: bv8, y: bv8)
    ensures x < y <==> x as int < y as int
  {
  }

  lemma ToBv8Less(a: nat, b: nat)
    requires a < 256 && b < 256
    ensures ToBv8(a) < ToBv8(b) <==> a < b
  {
    hide *;
    ToBv8RoundTrip(a);
    ToBv8RoundTrip(b);
    BvLess(ToBv8(a), ToBv8(b));
  }

  /** Comparing two small naturals through their 8-bit images. */
  lemma Less8(a: nat, b: nat)
    requires a < 256 && b < 256
    ensures (a as bv8 < b as bv8) <==> a < b
  {
    ToBv8Less(a, b);
    assert ToBv8(a) == a as bv8;
    assert ToBv8(b) == b as bv8;
  }

  /** Counting set bits is monotone in the window, and a window of `j - i`
      positions contributes at most `j - i` bits. */
  lemma {:induction false} PopBelowMono(m: bv64, i: nat, j: nat)
    requires i <= j <= 64
    ensures PopBelow(m, i) <= PopBelow(m, j) <= PopBelow(m, i) + (j - i)
    decreases j - i
  {
    if i < j {
      PopBelowMono(m, i, j - 1);
    }
  }

  /** A selected lane's rank indexes a byte among the `Popcount(m)` bytes the
      row consumes. */
  lemma RankBelowPopcount(m: bv64, i: nat)
    requires i < 64 && Bit(m, i)
    ensures Rank(m, i) < Popcount(m)
  {
    PopBelowMono(m, i + 1, 64);
  }

  /** Distinct selected lanes have distinct ranks, in lane order. */
  lemma RankStrictlyIncreasing(m: bv64, i: nat, j: nat)
    requires i < j < 64 && Bit(m, i)
    ensures Rank(m, i) < Rank(m, j)
  {
    PopBelowMono(m, i + 1, j);
  }

  /** Every rank below the popcount belongs to exactly one selected lane. */
  lemma {:induction false} RankOnto(m: bv64, k: nat, n: nat)
    requires n <= 64 && k < PopBelow(m, n)
    ensures exists i :: 0 <= i < n && Bit(m, i) && Rank(m, i) == k
    decreases n
  {
    if k < PopBelow(m, n - 1) {
      RankOnto(m, k, n - 1);
      var i :| 0 <= i < n - 1 && Bit(m, i) && Rank(m, i) == k;
      assert 0 <= i < n && Bit(m, i) && Rank(m, i) == k;
    } else {
      assert Bit(m, n - 1) && Rank(m, n - 1) == k;
    }
  }

  /** If no bit in positions `i .. n-1` is set, the count does not grow
      between `i` and `n`. */
  lemma {:induction false} PopBelowFlat(m: bv64, i: nat, n: nat)
    requires i <= n <= 64
    requires forall j :: i <= j < n ==> !Bit(m, j)
    ensures PopBelow(m, n) == PopBelow(m, i)
    decreases n
  {
    if n > i {
      PopBelowFlat(m, i, n - 1);
    }
  }

  // ---------------------------------------------------------------------
  // Masks with the lowest P bits set.

  /** `2^p - 1` modulo `2^64`, written with the full-width case apart. */
  function LowMask(p: nat): bv64
    requires p <= 64
  {
    if p == 64 then AllOnes else ((1 as bv64) << (p as bv8)) - 1
  }

  lemma LowMaskBitsBv(p: bv8, j: bv8)
    requires p <= 64 && j < 64
    ensures (((if p == 64 then AllOnes else ((1 as bv64) << p) - 1) >> j) & 1 == 1) <==> j < p
  {
  }

  /** Lane `j` of `LowMask(p)` is selected exactly when `j < p`. */
  lemma LowMaskBits(p: nat, j: nat)
    requires p <= 64 && j < 64
    ensures Bit(LowMask(p), j) <==> j < p
  {
    LowMaskBitsBv(p as bv8, j as bv8);
    Less8(j, p);
  }

  lemma {:induction false} PopBelowLowMask(p: nat, i: nat)
    requires p <= 64 && i <= 64
    ensures PopBelow(LowMask(p), i) == if i < p then i else p
  {
    if i > 0 {
      PopBelowLowMask(p, i - 1);
      LowMaskBits(p, i - 1);
    }
  }

  /** `LowMask(p)` has exactly `p` bits set and its rank is the lane index. */
  lemma PopcountLowMask(p: nat)
    requires p <= 64
    ensures Popcount(LowMask(p)) == p
    ensures forall i :: 0 <= i < p ==> Rank(LowMask(p), i) == i
  {
    PopBelowLowMask(p, 64);
    forall i | 0 <= i < p
      ensures Rank(LowMask(p), i) == i
    {
      PopBelowLowMask(p, i);
    }
  }
  /** `LowMask(p)` has exactly bits `0 .. p-1` set: `p` bits in all, none
      at `p = 0`, all 64 at `p = 64`. */
  lemma LowMaskShape(p: nat)
    requires p <= 64
    ensures Popcount(LowMask(p)) == p
    ensures forall j :: 0 <= j < 64 ==> (Bit(LowMask(p), j) <==> j < p)
    ensures p == 0 ==> LowMask(p) == 0
    ensures p == 64 ==> LowMask(p) == AllOnes
  {
    PopcountLowMask(p);
    forall j | 0 <= j < 64
      ensures Bit(LowMask(p), j) <==> j < p
    {
      LowMaskBits(p, j);
    }
    assert LowMask(0) == 0;
  }


  /** The zero mask selects nothing. */
  lemma PopcountZero()
    ensures Popcount(0) == 0
    ensures forall i :: 0 <= i < 64 ==> !Bit(0, i)
  {
    assert LowMask(0) == 0;
    PopcountLowMask(0);
    forall i | 0 <= i < 64
      ensures !Bit(0, i)
    {
      LowMaskBits(0, i);
    }
  }

  /** The all-ones mask selects every lane, and lane `i` has rank `i`. */
  lemma PopcountAllOnes()
    ensures Popcount(AllOnes) == 64
    ensures forall i :: 0 <= i < 64 ==> Bit(AllOnes, i) && Rank(AllOnes, i) == i
  {
    PopcountLowMask(64);
    forall i | 0 <= i < 64
      ensures Bit(AllOnes, i)
    {
      LowMaskBits(64, i);
    }
  }
}
