/** The concrete runs the repository's own test drivers perform, stated as
    facts about the reference decompression: which output bytes they
    produce, for every stream address the allocator may hand out. */
module Scenarios {
  import opened Bits
  import opened Alignment
  import opened Reference

  // ---------------------------------------------------------------------
  // The scalar driver: four blocks, mask word 0 selects lanes 0, 2 and 4,
  // every other mask word is zero, the stream holds 10, 20, 30 and 64 more
  // bytes of slack.

  /** Lanes 0, 2 and 4. */
  const Lanes024: bv64 := 0x15

  /** The 256 mask words of the four blocks. */
  const ScalarMasks: seq<bv64> := [Lanes024] + seq(255, _ => 0 as bv64)

  lemma Lanes024BitsBv(j: bv8)
    requires j < 64
    ensures ((Lanes024 >> j) & 1 == 1) <==> (j == 0 || j == 2 || j == 4)
  {
  }

  lemma Lanes024Bits(i: nat)
    requires i < 64
    ensures Bit(Lanes024, i) <==> (i == 0 || i == 2 || i == 4)
  {
    Lanes024BitsBv(i as bv8);
    RoundTrip8(i);
  }

  /** Lanes 0, 2 and 4 take the first three packed bytes, in order, and the
      row consumes exactly three. */
  lemma Lanes024Ranks()
    ensures Popcount(Lanes024) == 3
    ensures Rank(Lanes024, 0) == 0 && Rank(Lanes024, 2) == 1 && Rank(Lanes024, 4) == 2
  {
    Lanes024Bits(0);
    Lanes024Bits(1);
    Lanes024Bits(2);
    Lanes024Bits(3);
    Lanes024Bits(4);
    assert PopBelow(Lanes024, 5) == 3;
    forall j | 5 <= j < 64
      ensures !Bit(Lanes024, j)
    {
      Lanes024Bits(j);
    }
    PopBelowFlat(Lanes024, 5, 64);
  }

  lemma ScalarMaskWord(g: nat)
    requires g < 256
    ensures |ScalarMasks| == 256 && ScalarMasks[0] == Lanes024
    ensures Popcount(ScalarMasks[g]) == if g == 0 then 3 else 0
    ensures g != 0 ==> forall i :: 0 <= i < 64 ==> !Bit(ScalarMasks[g], i)
  {
    if g == 0 {
      Lanes024Ranks();
    } else {
      assert ScalarMasks[g] == 0;
      PopcountZero();
    }
  }

  /** The cursor of row `g`: the base for row 0, three bytes on for the rest
      of the first block, and from then on the boundary at or after that. */
  lemma {:induction false} ScalarCursor(base: nat, g: nat)
    requires g <= 256
    ensures RowStart(ScalarMasks, base, g) ==
      if g == 0 then base else if g < 64 then base + 3 else AlignUp(base + 3)
    decreases g
  {
    hide *;
    if g == 0 {
      RowStartZero(ScalarMasks, base);
    } else {
      ScalarCursor(base, g - 1);
      ScalarMaskWord(g - 1);
      RowStartStep(ScalarMasks, base, g);
      if g > 64 && g % 64 == 0 {
        AlignUpLeast(AlignUp(base + 3), AlignUp(base + 3));
      }
    }
  }

  /** Sixty-four bytes of slack after the three values cover every row,
      wherever the stream starts. */
  lemma ScalarFits(mem: seq<byte>, base: nat)
    requires |mem| == 3 + 64
    ensures Fits(mem, ScalarMasks, base, 256, false)
  {
    forall g | 0 <= g < 256
      ensures RowStart(ScalarMasks, base, g) - base + Reach(ScalarMasks[g], false) <= |mem|
    {
      ScalarCursor(base, g);
      ScalarMaskWord(g);
    }
  }

  /** Output byte `k` of the scalar driver's run. */
  lemma ScalarByte(mem: seq<byte>, base: nat, k: nat)
    requires |mem| == 3 + 64 && k < 4 * 4096
    requires Fits(mem, ScalarMasks, base, 256, false)
    ensures Decompress(mem, ScalarMasks, base, 4)[k] ==
      if k == 0 then mem[0] else if k == 2 then mem[1] else if k == 4 then mem[2] else 0
  {
    hide *;
    ScalarMaskWord(0);
    var b, r, i := k / 4096, k % 4096 / 64, k % 64;
    assert k == 4096 * b + 64 * r + i && b < 4 && r < 64 && i < 64;
    DecompressLayout(mem, ScalarMasks, base, 4, b, r, i);
    var g := 64 * b + r;
    ScalarMaskWord(g);
    if g == 0 {
      assert k == i;
      Lanes024Bits(i);
      Lanes024Ranks();
      ScalarCursor(base, 0);
    }
  }

  /** The scalar driver's check: bytes 0, 2 and 4 of the 16384-byte output
      are 10, 20 and 30, and every other byte is 0, so whatever the buffer
      held before is overwritten; the cursor ends on the boundary after the
      three values. */
  lemma ScalarScenario(mem: seq<byte>, base: nat)
    requires |mem| == 3 + 64 && mem[0] == 10 && mem[1] == 20 && mem[2] == 30
    ensures Fits(mem, ScalarMasks, base, 256, false)
    ensures var out := Decompress(mem, ScalarMasks, base, 4);
      && |out| == 16384
      && out[0] == 10 && out[2] == 20 && out[4] == 30
      && forall k :: 0 <= k < 16384 && k != 0 && k != 2 && k != 4 ==> out[k] == 0
    ensures FinalCursor(ScalarMasks, base, 4) == AlignUp(base + 3)
  {
    ScalarFits(mem, base);
    forall k | 0 <= k < 16384
      ensures Decompress(mem, ScalarMasks, base, 4)[k] ==
        if k == 0 then mem[0] else if k == 2 then mem[1] else if k == 4 then mem[2] else 0
    {
      ScalarByte(mem, base, k);
    }
    ScalarCursor(base, 256);
  }

  // ---------------------------------------------------------------------
  // The code generator's driver: one block, every mask word selects lanes
  // 0, 8, ..., 56, row `i` packs the eight values `0xA0 + i + p`, and 128
  // bytes of slack follow the 512 packed bytes.

  /** Every eighth lane. */
  const EveryEighth: bv64 := 0x0101010101010101

  const JitMasks: seq<bv64> := seq(64, _ => EveryEighth)

  lemma JitMaskWord(g: nat)
    requires g < 64
    ensures |JitMasks| == 64 && JitMasks[g] == EveryEighth
  {
  }

  lemma EveryEighthBitsBv(j: bv8)
    requires j < 64
    ensures ((EveryEighth >> j) & 1 == 1) <==> (j & 7 == 0)
  {
  }

  lemma LowThreeBits(i: nat)
    requires i < 64
    ensures ((i as bv8) & 7 == 0) <==> i % 8 == 0
  {
  }

  lemma EveryEighthBits(i: nat)
    requires i < 64
    ensures Bit(EveryEighth, i) <==> i % 8 == 0
  {
    EveryEighthBitsBv(i as bv8);
    LowThreeBits(i);
  }

  /** The lanes below `i` hold one selected lane per started group of
      eight. */
  lemma {:induction false} EveryEighthBelow(i: nat)
    requires i <= 64
    ensures PopBelow(EveryEighth, i) == (i + 7) / 8
    decreases i
  {
    if i > 0 {
      hide *;
      EveryEighthBelow(i - 1);
      EveryEighthBits(i - 1);
      PopBelowStep(EveryEighth, i - 1);
    }
  }

  /** Each row consumes eight bytes, and lane `8 * p` takes the `p`-th. */
  lemma EveryEighthRanks(p: nat)
    requires p < 8
    ensures Popcount(EveryEighth) == 8
    ensures Rank(EveryEighth, 8 * p) == p
  {
    EveryEighthBelow(64);
    EveryEighthBelow(8 * p);
  }

  /** Without a block boundary in between, row `g` starts eight bytes per
      earlier row past the base. */
  lemma {:induction false} JitCursor(base: nat, g: nat)
    requires g < 64
    ensures |JitMasks| == 64
    ensures RowStart(JitMasks, base, g) == base + 8 * g
    decreases g
  {
    hide *;
    JitMaskWord(g);
    if g == 0 {
      RowStartZero(JitMasks, base);
    } else {
      JitCursor(base, g - 1);
      RowStartStep(JitMasks, base, g);
      JitMaskWord(g - 1);
      EveryEighthRanks(0);
    }
  }

  /** The packed stream the driver builds: row `i`'s eight values, then
      slack. */
  predicate JitStream(mem: seq<byte>)
  {
    && |mem| == 512 + 128
    && forall t :: 0 <= t < 512 ==> mem[t] == (0xA0 + t / 8 + t % 8) as byte
  }

  lemma JitStreamAt(mem: seq<byte>, t: nat)
    requires JitStream(mem) && t < 512
    ensures |mem| == 640 && mem[t] == (0xA0 + t / 8 + t % 8) as byte
  {
  }

  /** The driver's buffers cover the unmasked 64-byte load of every row. */
  lemma JitFits(mem: seq<byte>, base: nat)
    requires JitStream(mem)
    ensures Fits(mem, JitMasks, base, 64, true)
  {
    forall g | 0 <= g < 64
      ensures RowStart(JitMasks, base, g) - base + Reach(JitMasks[g], true) <= |mem|
    {
      JitCursor(base, g);
    }
  }

  /** Lane `8 * p` of row `r` reads the `p`-th of the row's values. */
  lemma JitSelected(mem: seq<byte>, base: nat, r: nat, p: nat)
    requires JitStream(mem) && r < 64 && p < 8
    ensures RowStart(JitMasks, base, r) - base + Rank(EveryEighth, 8 * p) < |mem|
    ensures mem[RowStart(JitMasks, base, r) - base + Rank(EveryEighth, 8 * p)] ==
      (0xA0 + (64 * r + 8 * p) / 64 + (64 * r + 8 * p) % 64 / 8) as byte
  {
    hide *;
    EveryEighthRanks(p);
    JitCursor(base, r);
    var t := 8 * r + p;
    JitStreamAt(mem, t);
    assert t / 8 == r && t % 8 == p;
    assert (64 * r + 8 * p) / 64 == r && (64 * r + 8 * p) % 64 / 8 == p;
  }

  /** Output byte `k` of the driver's run. */
  lemma JitByte(mem: seq<byte>, base: nat, k: nat)
    requires JitStream(mem) && k < 4096
    requires Fits(mem, JitMasks, base, 64, false)
    ensures Decompress(mem, JitMasks, base, 1)[k] ==
      if k % 8 == 0 then (0xA0 + k / 64 + k % 64 / 8) as byte else 0
  {
    hide *;
    var r, i := k / 64, k % 64;
    assert k == 64 * r + i && r < 64 && i < 64 && k % 8 == i % 8;
    JitLane(mem, base, r, i);
  }

  lemma JitLane(mem: seq<byte>, base: nat, r: nat, i: nat)
    requires JitStream(mem) && r < 64 && i < 64
    requires Fits(mem, JitMasks, base, 64, false)
    ensures Decompress(mem, JitMasks, base, 1)[64 * r + i] ==
      if i % 8 == 0 then (0xA0 + (64 * r + i) / 64 + (64 * r + i) % 64 / 8) as byte else 0
  {
    hide *;
    JitMaskWord(0);
    DecompressLayout(mem, JitMasks, base, 1, 0, r, i);
    assert 4096 * 0 + 64 * r + i == 64 * r + i && 64 * 0 + r == r;
    JitMaskWord(r);
    EveryEighthBits(i);
    if i % 8 == 0 {
      JitSelected(mem, base, r, i / 8);
      assert i == 8 * (i / 8);
    }
  }

  /** The driver's check: lane `8 * p` of row `i` holds `0xA0 + i + p`, the
      other lanes are 0, and the cursor ends on the boundary after the 512
      packed bytes. */
  lemma JitScenario(mem: seq<byte>, base: nat)
    requires JitStream(mem)
    ensures Fits(mem, JitMasks, base, 64, true)
    ensures Fits(mem, JitMasks, base, 64, false)
    ensures forall k :: 0 <= k < 4096 ==>
      (Decompress(mem, JitMasks, base, 1)[k] == if k % 8 == 0 then (0xA0 + k / 64 + k % 64 / 8) as byte else 0)
    ensures FinalCursor(JitMasks, base, 1) == AlignUp(base + 512)
  {
    JitFits(mem, base);
    FitsNarrow(mem, JitMasks, base, 64);
    forall k | 0 <= k < 4096
      ensures Decompress(mem, JitMasks, base, 1)[k] ==
        if k % 8 == 0 then (0xA0 + k / 64 + k % 64 / 8) as byte else 0
    {
      JitByte(mem, base, k);
    }
    JitFinal(base);
  }

  lemma JitFinal(base: nat)
    ensures |JitMasks| == 64
    ensures FinalCursor(JitMasks, base, 1) == AlignUp(base + 512)
  {
    hide *;
    JitCursor(base, 63);
    JitMaskWord(63);
    EveryEighthRanks(0);
    RowStartStep(JitMasks, base, 64);
    FinalCursorIs(JitMasks, base, 1);
  }

  // ---------------------------------------------------------------------
  // The driver of the variant without realignment: rows 0 to 4 carry the
  // masks 0xF, 0xFF, 0, all ones and the top bit alone, over the stream
  // 1, 2, 3, ...

  /** Only the top lane. */
  const TopLane: bv64 := 0x8000_0000_0000_0000

  lemma TopLaneBitsBv(j: bv8)
    requires j < 64
    ensures ((TopLane >> j) & 1 == 1) <==> j == 63
  {
  }

  lemma TopLaneBits(i: nat)
    requires i < 64
    ensures Bit(TopLane, i) <==> i == 63
  {
    TopLaneBitsBv(i as bv8);
    RoundTrip8(i);
  }

  /** The top lane takes the row's only byte. */
  lemma TopLaneRank()
    ensures Popcount(TopLane) == 1 && Rank(TopLane, 63) == 0
  {
    forall j | 0 <= j < 63
      ensures !Bit(TopLane, j)
    {
      TopLaneBits(j);
    }
    PopBelowFlat(TopLane, 0, 63);
    TopLaneBits(63);
    PopBelowStep(TopLane, 63);
  }

  /** A row whose mask selects the lowest `p` lanes copies the next `p`
      stream bytes into those lanes and zeroes the rest. */
  lemma LowMaskRow(mem: seq<byte>, masks: seq<bv64>, base: nat, g: nat, p: nat)
    requires g < |masks| && p <= 64 && masks[g] == LowMask(p)
    requires PackedStart(masks, base, g) - base + p <= |mem|
    ensures Popcount(masks[g]) == p
    ensures forall i :: 0 <= i < 64 ==>
      (PackedRow(mem, masks, base, g)[i] == if i < p then mem[PackedStart(masks, base, g) - base + i] else 0)
  {
    LowMaskShape(p);
    PopcountLowMask(p);
    PackedRowIs(mem, masks, base, g);
  }

  /** A row under the top lane alone puts its one byte into lane 63. */
  lemma TopLaneRow(mem: seq<byte>, masks: seq<bv64>, base: nat, g: nat)
    requires g < |masks| && masks[g] == TopLane
    requires PackedStart(masks, base, g) - base + 1 <= |mem|
    ensures Popcount(masks[g]) == 1
    ensures forall i :: 0 <= i < 64 ==>
      (PackedRow(mem, masks, base, g)[i] == if i == 63 then mem[PackedStart(masks, base, g) - base] else 0)
  {
    TopLaneRank();
    PackedRowIs(mem, masks, base, g);
    forall i | 0 <= i < 64
      ensures PackedRow(mem, masks, base, g)[i] == if i == 63 then mem[PackedStart(masks, base, g) - base] else 0
    {
      TopLaneBits(i);
    }
  }

  /** The five mask words the driver sets. */
  predicate SparseHead(masks: seq<bv64>)
  {
    && 5 <= |masks|
    && masks[0] == 0xF && masks[1] == 0xFF && masks[2] == 0
    && masks[3] == AllOnes && masks[4] == TopLane
  }

  lemma SparseMasks(masks: seq<bv64>)
    requires SparseHead(masks)
    ensures 5 <= |masks| && masks[4] == TopLane
    ensures masks[0] == LowMask(4) && masks[1] == LowMask(8) && masks[2] == LowMask(0) && masks[3] == LowMask(64)
  {
    assert LowMask(4) == 0xF && LowMask(8) == 0xFF && LowMask(0) == 0 && LowMask(64) == AllOnes;
  }

  lemma CountingPrefix(mem: seq<byte>, n: nat, k: nat)
    requires Counting(mem, n) && k <= n
    ensures Counting(mem, k) && n <= |mem|
  {
  }

  lemma CountingAt(mem: seq<byte>, n: nat, t: nat)
    requires Counting(mem, n) && t < n
    ensures mem[t] == (t + 1) as byte
  {
  }

  /** The counting stream covers the five rows. */
  lemma SparseFits(mem: seq<byte>, masks: seq<bv64>, base: nat)
    requires SparseHead(masks) && Counting(mem, 77)
    ensures PackedFits(mem, masks, base, 5)
  {
    hide Counting, Popcount, PackedStart, SparseHead;
    CountingPrefix(mem, 77, 77);
    SparseMasks(masks);
    forall g | 0 <= g < 5
      ensures PackedStart(masks, base, g) - base + Popcount(masks[g]) <= |mem|
    {
      SparseCursor(masks, base);
      if g == 0 {
      } else if g == 1 {
      } else if g == 2 {
      } else if g == 3 {
      }
    }
  }

  /** The rows start 0, 4, 12, 12 and 76 bytes past the base: the running
      popcount, with no realignment. */
  lemma SparseCursor(masks: seq<bv64>, base: nat)
    requires SparseHead(masks)
    ensures Popcount(masks[0]) == 4 && Popcount(masks[1]) == 8 && Popcount(masks[2]) == 0
    ensures Popcount(masks[3]) == 64 && Popcount(masks[4]) == 1
    ensures PackedStart(masks, base, 0) == base
    ensures PackedStart(masks, base, 1) == base + 4
    ensures PackedStart(masks, base, 2) == base + 12
    ensures PackedStart(masks, base, 3) == base + 12
    ensures PackedStart(masks, base, 4) == base + 76
    ensures PackedStart(masks, base, 5) == base + 77
  {
    assert LowMask(4) == 0xF && LowMask(8) == 0xFF && LowMask(0) == 0 && LowMask(64) == AllOnes;
    PopcountLowMask(4);
    PopcountLowMask(8);
    PopcountLowMask(0);
    PopcountLowMask(64);
    TopLaneRank();
    PackedStartIs(masks, base, 0);
    SumPopEmpty(masks, 0);
    PackedStartStep(masks, base, 0);
    PackedStartStep(masks, base, 1);
    PackedStartStep(masks, base, 2);
    PackedStartStep(masks, base, 3);
    PackedStartStep(masks, base, 4);
  }

  /** The stream counts up from 1 for its first `n` bytes. */
  predicate Counting(mem: seq<byte>, n: nat)
  {
    n <= |mem| && n < 256 && forall t :: 0 <= t < n ==> mem[t] == (t + 1) as byte
  }

  /** A low-lane row starting `off` bytes into the counting stream. */
  lemma CountingLowRow(mem: seq<byte>, masks: seq<bv64>, base: nat, g: nat, p: nat, off: nat)
    requires g < |masks| && p <= 64 && masks[g] == LowMask(p)
    requires PackedStart(masks, base, g) == base + off && Counting(mem, off + p)
    ensures PackedStart(masks, base, g) - base + Popcount(masks[g]) <= |mem|
    ensures forall i :: 0 <= i < 64 ==>
      (PackedRow(mem, masks, base, g)[i] == if i < p then (off + i + 1) as byte else 0)
  {
    LowMaskRow(mem, masks, base, g, p);
  }

  /** The driver's check on its first three rows: row 0 is 1..4, row 1 is
      5..12 and row 2 is all zeros; after five rows the cursor has moved 77
      bytes. */
  lemma SparseScenario(mem: seq<byte>, masks: seq<bv64>, base: nat)
    requires SparseHead(masks) && Counting(mem, 77)
    ensures PackedFits(mem, masks, base, 5)
    ensures forall i :: 0 <= i < 64 ==>
      (PackedRow(mem, masks, base, 0)[i] == if i < 4 then (i + 1) as byte else 0)
    ensures forall i :: 0 <= i < 64 ==>
      (PackedRow(mem, masks, base, 1)[i] == if i < 8 then (i + 5) as byte else 0)
    ensures forall i :: 0 <= i < 64 ==> PackedRow(mem, masks, base, 2)[i] == 0
    ensures PackedStart(masks, base, 5) == base + 77
  {
    SparseCursor(masks, base);
    SparseMasks(masks);
    hide *;
    CountingPrefix(mem, 77, 4);
    CountingPrefix(mem, 77, 12);
    CountingLowRow(mem, masks, base, 0, 4, 0);
    CountingLowRow(mem, masks, base, 1, 8, 4);
    CountingLowRow(mem, masks, base, 2, 0, 12);
    SparseFits(mem, masks, base);
  }

  /** The same check on rows 3 and 4: row 3 is 13..76, and row 4 has 77 in
      lane 63 and zeros elsewhere. */
  lemma SparseScenarioLate(mem: seq<byte>, masks: seq<bv64>, base: nat)
    requires SparseHead(masks) && Counting(mem, 77)
    ensures PackedFits(mem, masks, base, 5)
    ensures forall i :: 0 <= i < 64 ==> PackedRow(mem, masks, base, 3)[i] == (i + 13) as byte
    ensures forall i :: 0 <= i < 64 ==>
      (PackedRow(mem, masks, base, 4)[i] == if i == 63 then 77 else 0)
  {
    SparseCursor(masks, base);
    SparseMasks(masks);
    hide *;
    CountingLowRow(mem, masks, base, 3, 64, 12);
    TopLaneRow(mem, masks, base, 4);
    CountingAt(mem, 77, 76);
    SparseFits(mem, masks, base);
  }
}
