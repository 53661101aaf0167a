/** The expand operation that every variant performs per row: scatter the next
    `Popcount(m)` packed bytes into the lanes selected by `m`, zero elsewhere. */
module Expansion {
  import opened Bits

  /** Lane `i` of the expansion of `src` under `m`, defined by rank. */
  function Lane(m: bv64, src: seq<byte>, i: nat): byte
    requires i < 64 && Popcount(m) <= |src|
  {
    if Bit(m, i) then
      RankBelowPopcount(m, i);
      src[Rank(m, i)]
    else
      0
  }

  /** The declarative definition: lane `i` is the packed byte whose index is the
      rank of `i`, or zero when bit `i` is clear. */
  function Expand(m: bv64, src: seq<byte>): (row: seq<byte>)
    requires Popcount(m) <= |src|
    ensures |row| == 64
  {
    seq(64, i requires 0 <= i < 64 => Lane(m, src, i))
  }

  lemma ExpandLane(m: bv64, src: seq<byte>, i: nat)
    requires i < 64 && Popcount(m) <= |src|
    ensures Bit(m, i) ==> Rank(m, i) < Popcount(m)
    ensures Expand(m, src)[i] == if Bit(m, i) then src[Rank(m, i)] else 0
  {
    if Bit(m, i) {
      RankBelowPopcount(m, i);
    }
  }

  /** The zeroing, byte-granular expand instruction (`vpexpandb` with `{z}`,
      and `_mm512_maskz_expandloadu_epi8`) as the processor manual describes
      it: walk the lanes in order with a read counter `k` that moves only on a
      selected lane. This is also the inner loop of the scalar decompressor. */
  function ExpandFrom(m: bv64, src: seq<byte>, j: nat, k: nat): (out: seq<byte>)
    requires j <= 64
    requires k + (Popcount(m) - PopBelow(m, j)) <= |src|
    ensures |out| == 64 - j
    decreases 64 - j
  {
    if j == 64 then []
    else
      PopBelowMono(m, j + 1, 64);
      if Bit(m, j) then [src[k]] + ExpandFrom(m, src, j + 1, k + 1)
      else [0] + ExpandFrom(m, src, j + 1, k)
  }

  /** The instruction from lane 0 with the counter at 0. */
  function ExpandInstr(m: bv64, src: seq<byte>): (row: seq<byte>)
    requires Popcount(m) <= |src|
    ensures |row| == 64
  {
    ExpandFrom(m, src, 0, 0)
  }

  /** One lane of the instruction: the selected lane takes the byte under the
      counter and moves it on. */
  lemma ExpandFromStep(m: bv64, src: seq<byte>, j: nat, k: nat)
    requires j < 64 && k + (Popcount(m) - PopBelow(m, j)) <= |src|
    ensures PopBelow(m, j + 1) == PopBelow(m, j) + (if Bit(m, j) then 1 else 0)
    ensures Bit(m, j) ==> k < |src|
    ensures ExpandFrom(m, src, j, k) ==
      if Bit(m, j) then [src[k]] + ExpandFrom(m, src, j + 1, k + 1)
      else [0] + ExpandFrom(m, src, j + 1, k)
  {
    PopBelowMono(m, j + 1, 64);
  }

  /** Lane `j` of the definition, and the suffix from `j` split at `j`. */
  lemma ExpandSuffix(m: bv64, src: seq<byte>, j: nat)
    requires j < 64 && Popcount(m) <= |src|
    ensures Bit(m, j) ==> PopBelow(m, j) < |src|
    ensures Expand(m, src)[j..] ==
      [if Bit(m, j) then src[PopBelow(m, j)] else 0] + Expand(m, src)[j + 1..]
  {
    if Bit(m, j) {
      RankBelowPopcount(m, j);
    }
    assert Expand(m, src)[j..] == [Expand(m, src)[j]] + Expand(m, src)[j + 1..];
  }

  lemma ExpandFromEnd(m: bv64, src: seq<byte>, k: nat)
    requires k <= |src| && Popcount(m) <= |src|
    ensures PopBelow(m, 64) == Popcount(m)
    ensures ExpandFrom(m, src, 64, k) == [] == Expand(m, src)[64..]
  {
  }

  lemma {:induction false} ExpandFromMatches(m: bv64, src: seq<byte>, j: nat)
    requires j <= 64 && Popcount(m) <= |src|
    ensures PopBelow(m, j) + (Popcount(m) - PopBelow(m, j)) <= |src|
    ensures ExpandFrom(m, src, j, PopBelow(m, j)) == Expand(m, src)[j..]
    decreases 64 - j
  {
    hide *;
    PopBelowMono(m, j, 64);
    PopcountIsPopBelow(m);
    if j < 64 {
      ExpandFromMatches(m, src, j + 1);
      ExpandFromStep(m, src, j, PopBelow(m, j));
      ExpandSuffix(m, src, j);
    } else {
      ExpandFromEnd(m, src, PopBelow(m, j));
    }
  }

  /** The counter-based instruction semantics equal the rank-based definition. */
  lemma ExpandInstrIsExpand(m: bv64, src: seq<byte>)
    requires Popcount(m) <= |src|
    ensures ExpandInstr(m, src) == Expand(m, src)
  {
    ExpandFromMatches(m, src, 0);
  }

  /** A row reads only the first `Popcount(m)` packed bytes: whatever lies
      beyond them (the over-read of a full 64-byte load) does not matter. */
  lemma ExpandReadsOnlyPopcount(m: bv64, src1: seq<byte>, src2: seq<byte>)
    requires Popcount(m) <= |src1| && Popcount(m) <= |src2|
    requires src1[..Popcount(m)] == src2[..Popcount(m)]
    ensures Expand(m, src1) == Expand(m, src2)
  {
    forall i | 0 <= i < 64
      ensures Expand(m, src1)[i] == Expand(m, src2)[i]
    {
      if Bit(m, i) {
        RankBelowPopcount(m, i);
        assert src1[Rank(m, i)] == src1[..Popcount(m)][Rank(m, i)];
        assert src2[Rank(m, i)] == src2[..Popcount(m)][Rank(m, i)];
      }
    }
  }

  /** An all-zero row mask writes 64 zero bytes and reads nothing. */
  lemma ExpandZeroMask(src: seq<byte>)
    ensures Popcount(0) == 0
    ensures Expand(0, src) == seq(64, _ => 0 as byte)
  {
    PopcountZero();
  }

  /** An all-ones row mask copies 64 packed bytes verbatim, in order. */
  lemma ExpandAllOnes(src: seq<byte>)
    requires 64 <= |src|
    ensures Popcount(AllOnes) == 64
    ensures Expand(AllOnes, src) == src[..64]
  {
    PopcountAllOnes();
  }

  // ---------------------------------------------------------------------
  // The inverse operation: packing the selected lanes of a dense row.

  /** The selected lanes among `row[..n]`, in lane order. */
  function CompressBelow(m: bv64, row: seq<byte>, n: nat): (packed: seq<byte>)
    requires n <= 64 && |row| == 64
    ensures |packed| == PopBelow(m, n)
  {
    if n == 0 then []
    else if Bit(m, n - 1) then CompressBelow(m, row, n - 1) + [row[n - 1]]
    else CompressBelow(m, row, n - 1)
  }

  /** Packing a dense 64-byte row: keep exactly the lanes `m` selects. */
  function Compress(m: bv64, row: seq<byte>): (packed: seq<byte>)
    requires |row| == 64
    ensures |packed| == Popcount(m)
  {
    CompressBelow(m, row, 64)
  }

  lemma CompressBelowStep(m: bv64, row: seq<byte>, n: nat)
    requires 0 < n <= 64 && |row| == 64
    ensures PopBelow(m, n) == PopBelow(m, n - 1) + (if Bit(m, n - 1) then 1 else 0)
    ensures CompressBelow(m, row, n) ==
      if Bit(m, n - 1) then CompressBelow(m, row, n - 1) + [row[n - 1]]
      else CompressBelow(m, row, n - 1)
  {
  }

  lemma {:induction false} CompressBelowAt(m: bv64, row: seq<byte>, n: nat, i: nat)
    requires i < n <= 64 && |row| == 64 && Bit(m, i)
    ensures Rank(m, i) < |CompressBelow(m, row, n)|
    ensures CompressBelow(m, row, n)[Rank(m, i)] == row[i]
    decreases n
  {
    hide *;
    PopBelowMono(m, i + 1, n);
    RankIsPopBelow(m, i);
    CompressBelowStep(m, row, n);
    CompressBelowLength(m, row, n - 1);
    if i < n - 1 {
      CompressBelowAt(m, row, n - 1, i);
      PopBelowMono(m, i + 1, n - 1);
    } else {
      CompressBelowStep(m, row, i + 1);
    }
  }

  lemma CompressBelowLength(m: bv64, row: seq<byte>, n: nat)
    requires n <= 64 && |row| == 64
    ensures |CompressBelow(m, row, n)| == PopBelow(m, n)
  {
  }

  /** The masked lanes of a dense row, zero elsewhere. */
  function Select(m: bv64, row: seq<byte>): (r: seq<byte>)
    requires |row| == 64
    ensures |r| == 64
  {
    seq(64, i requires 0 <= i < 64 => if Bit(m, i) then row[i] else 0)
  }

  /** Round trip dense -> packed -> dense: expanding the compressed row gives
      back the selected lanes and zeros in the others. */
  lemma ExpandCompress(m: bv64, row: seq<byte>)
    requires |row| == 64
    ensures Expand(m, Compress(m, row)) == Select(m, row)
  {
    forall i | 0 <= i < 64 && Bit(m, i)
      ensures Expand(m, Compress(m, row))[i] == row[i]
    {
      CompressBelowAt(m, row, 64, i);
    }
  }

  /** Round trip packed -> dense -> packed: compressing an expanded row gives
      back exactly the packed bytes it consumed. */
  lemma CompressExpand(m: bv64, packed: seq<byte>)
    requires |packed| == Popcount(m)
    ensures Compress(m, Expand(m, packed)) == packed
  {
    var row := Expand(m, packed);
    var c := Compress(m, row);
    forall k | 0 <= k < |packed|
      ensures c[k] == packed[k]
    {
      RankOnto(m, k, 64);
      var i :| 0 <= i < 64 && Bit(m, i) && Rank(m, i) == k;
      CompressBelowAt(m, row, 64, i);
    }
  }
}
