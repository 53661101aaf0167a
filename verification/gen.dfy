/** How a compressed stream must be laid out for the decompressors to
    recover the dense rows, and the benchmark's stream generator (the data
    set-up in `main` of the scalar/intrinsic benchmark).

    A row's payload is its selected bytes in lane order, one per set mask
    bit. The decompressors read row `g`'s payload at their cursor
    `RowStart(g)`; so a stream decodes to the rows exactly when every
    payload sits at its row's cursor. */
module StreamGen {
  import opened Bits
  import opened Expansion
  import opened Alignment
  import opened Reference

  /** `rows[g]` is row `g`'s payload: one byte per set bit of `masks[g]`. */
  predicate Payloads(masks: seq<bv64>, rows: seq<seq<byte>>)
  {
    |rows| == |masks| && forall g :: 0 <= g < |rows| ==> |rows[g]| == Popcount(masks[g])
  }

  lemma PayloadsCount(masks: seq<bv64>, rows: seq<seq<byte>>)
    requires Payloads(masks, rows)
    ensures |rows| == |masks|
  {
  }

  /** The dense rows the first `n` payloads stand for: each payload expanded
      under its mask (the generator's `expected_output`). */
  function Expected(masks: seq<bv64>, rows: seq<seq<byte>>, n: nat): (out: seq<byte>)
    requires Payloads(masks, rows) && n <= |masks|
    ensures |out| == 64 * n
    decreases n
  {
    if n == 0 then [] else Expected(masks, rows, n - 1) + Expand(masks[n - 1], rows[n - 1])
  }

  lemma ExpectedStep(masks: seq<bv64>, rows: seq<seq<byte>>, n: nat)
    requires Payloads(masks, rows) && 0 < n <= |masks|
    ensures Expected(masks, rows, n) == Expected(masks, rows, n - 1) + Expand(masks[n - 1], rows[n - 1])
  {
  }

  /** Byte `64 * g + i` of the expected output is lane `i` of row `g`: the
      `p`-th selected lane holds payload byte `p`, the others hold 0. */
  lemma {:induction false} ExpectedAt(masks: seq<bv64>, rows: seq<seq<byte>>, n: nat, g: nat, i: nat)
    requires Payloads(masks, rows) && g < n <= |masks| && i < 64
    ensures Bit(masks[g], i) ==> Rank(masks[g], i) < |rows[g]|
    ensures Expected(masks, rows, n)[64 * g + i] == if Bit(masks[g], i) then rows[g][Rank(masks[g], i)] else 0
    decreases n
  {
    hide *;
    ExpectedStep(masks, rows, n);
    LaneOf(masks, rows, g, i);
    if g < n - 1 {
      ExpectedAt(masks, rows, n - 1, g, i);
    }
  }

  lemma LaneOf(masks: seq<bv64>, rows: seq<seq<byte>>, g: nat, i: nat)
    requires Payloads(masks, rows) && g < |masks| && i < 64
    ensures Bit(masks[g], i) ==> Rank(masks[g], i) < |rows[g]|
    ensures Expand(masks[g], rows[g])[i] == if Bit(masks[g], i) then rows[g][Rank(masks[g], i)] else 0
  {
    if Bit(masks[g], i) {
      RankBelowPopcount(masks[g], i);
    }
  }

  // ---------------------------------------------------------------------
  // Layout.

  /** `v` sits at offset `off` of `s`. */
  predicate Holds(s: seq<byte>, off: nat, v: seq<byte>)
  {
    off + |v| <= |s| && s[off..off + |v|] == v
  }

  lemma HoldsMiddle(a: seq<byte>, v: seq<byte>, c: seq<byte>)
    ensures Holds(a + v + c, |a|, v)
  {
    assert (a + v + c)[|a|..|a| + |v|] == v;
  }

  lemma HoldsExtend(s: seq<byte>, t: seq<byte>, off: nat, v: seq<byte>)
    requires Holds(s, off, v)
    ensures Holds(s + t, off, v)
  {
    assert (s + t)[off..off + |v|] == s[off..off + |v|];
  }

  lemma HoldsShift(a: seq<byte>, s: seq<byte>, off: nat, v: seq<byte>)
    requires Holds(s, off, v)
    ensures Holds(a + s, |a| + off, v)
  {
    assert (a + s)[|a| + off..|a| + off + |v|] == s[off..off + |v|];
  }

  /** Row `g`'s payload sits at the row's cursor, and the stream has the
      row's reach after the cursor (its popcount, or 64 bytes for a full
      load). */
  ghost predicate Placed(mem: seq<byte>, masks: seq<bv64>, rows: seq<seq<byte>>, base: nat, g: nat, wide: bool)
    requires Payloads(masks, rows) && g < |masks|
  {
    var off := RowStart(masks, base, g) - base;
    off + Reach(masks[g], wide) <= |mem| && Holds(mem, off, rows[g])
  }

  ghost predicate Layout(mem: seq<byte>, masks: seq<bv64>, rows: seq<seq<byte>>, base: nat, n: nat, wide: bool)
    requires Payloads(masks, rows) && n <= |masks|
  {
    forall g :: 0 <= g < n ==> Placed(mem, masks, rows, base, g, wide)
  }

  lemma LayoutFits(mem: seq<byte>, masks: seq<bv64>, rows: seq<seq<byte>>, base: nat, n: nat, wide: bool)
    requires Payloads(masks, rows) && n <= |masks| && Layout(mem, masks, rows, base, n, wide)
    ensures Fits(mem, masks, base, n, wide)
    ensures Fits(mem, masks, base, n, false)
    ensures forall k :: 0 <= k <= n ==> Layout(mem, masks, rows, base, k, wide)
  {
    hide RowStart, Popcount, PopBelow;
    forall g | 0 <= g < n
      ensures RowStart(masks, base, g) - base + Reach(masks[g], wide) <= |mem|
      ensures RowStart(masks, base, g) - base + Reach(masks[g], false) <= |mem|
    {
      assert Placed(mem, masks, rows, base, g, wide);
    }
  }

  /** A placed payload decodes to its row. */
  lemma PlacedRow(mem: seq<byte>, masks: seq<bv64>, rows: seq<seq<byte>>, base: nat, g: nat, wide: bool)
    requires Payloads(masks, rows) && g < |masks| && Placed(mem, masks, rows, base, g, wide)
    ensures RowStart(masks, base, g) - base + Popcount(masks[g]) <= |mem|
    ensures Row(mem, masks, base, g) == Expand(masks[g], rows[g])
  {
    hide *;
    PayloadsCount(masks, rows);
    var off := RowStart(masks, base, g) - base;
    PlacedIs(mem, masks, rows, base, g, wide);
    RowIs(mem, masks, base, g);
    assert mem[off..][..Popcount(masks[g])] == rows[g];
    ExpandReadsOnlyPopcount(masks[g], mem[off..], rows[g]);
  }

  lemma PlacedIs(mem: seq<byte>, masks: seq<bv64>, rows: seq<seq<byte>>, base: nat, g: nat, wide: bool)
    requires Payloads(masks, rows) && g < |masks| && Placed(mem, masks, rows, base, g, wide)
    ensures var off := RowStart(masks, base, g) - base;
      && |rows[g]| == Popcount(masks[g])
      && off + Popcount(masks[g]) <= |mem|
      && mem[off..off + Popcount(masks[g])] == rows[g]
  {
  }

  lemma {:induction false} LayoutRows(mem: seq<byte>, masks: seq<bv64>, rows: seq<seq<byte>>, base: nat, n: nat, wide: bool)
    requires Payloads(masks, rows) && n <= |masks| && Layout(mem, masks, rows, base, n, wide)
    ensures Fits(mem, masks, base, n, false)
    ensures Rows(mem, masks, base, n) == Expected(masks, rows, n)
    decreases n
  {
    hide *;
    LayoutFits(mem, masks, rows, base, n, wide);
    if n > 0 {
      LayoutRows(mem, masks, rows, base, n - 1, wide);
      RowsStep(mem, masks, base, n);
      LayoutAt(mem, masks, rows, base, n, n - 1, wide);
      PlacedRow(mem, masks, rows, base, n - 1, wide);
      ExpectedStep(masks, rows, n);
    } else {
      RowsEmpty(mem, masks, base);
      ExpectedEmpty(masks, rows);
    }
  }

  lemma LayoutAt(mem: seq<byte>, masks: seq<bv64>, rows: seq<seq<byte>>, base: nat, n: nat, g: nat, wide: bool)
    requires Payloads(masks, rows) && g < n <= |masks| && Layout(mem, masks, rows, base, n, wide)
    ensures Placed(mem, masks, rows, base, g, wide)
  {
  }

  lemma RowsEmpty(mem: seq<byte>, masks: seq<bv64>, base: nat)
    ensures Rows(mem, masks, base, 0) == []
  {
  }

  lemma ExpectedEmpty(masks: seq<bv64>, rows: seq<seq<byte>>)
    requires Payloads(masks, rows)
    ensures Expected(masks, rows, 0) == []
  {
  }

  /** A stream whose every payload sits at its row's cursor decompresses to
      the expected rows; with `wide` it also has the slack the full-load
      kernel needs. */
  lemma LayoutDecodes(mem: seq<byte>, masks: seq<bv64>, rows: seq<seq<byte>>, base: nat, blocks: nat, wide: bool)
    requires 64 * blocks <= |masks| && Payloads(masks, rows)
    requires Layout(mem, masks, rows, base, 64 * blocks, wide)
    ensures Fits(mem, masks, base, 64 * blocks, wide)
    ensures Fits(mem, masks, base, 64 * blocks, false)
    ensures Decompress(mem, masks, base, blocks) == Expected(masks, rows, 64 * blocks)
  {
    LayoutFits(mem, masks, rows, base, 64 * blocks, wide);
    LayoutRows(mem, masks, rows, base, 64 * blocks, wide);
  }

  /** Conversely, a stream that decompresses to the expected rows for every
      choice of payload bytes has each selected lane read from its row's
      cursor plus the lane's rank: the layout is forced lane by lane. */
  lemma DecodedLane(mem: seq<byte>, masks: seq<bv64>, rows: seq<seq<byte>>, base: nat, blocks: nat, b: nat, r: nat, i: nat)
    requires 64 * blocks <= |masks| && Payloads(masks, rows) && Fits(mem, masks, base, 64 * blocks, false)
    requires Decompress(mem, masks, base, blocks) == Expected(masks, rows, 64 * blocks)
    requires b < blocks && r < 64 && i < 64 && Bit(masks[64 * b + r], i)
    ensures Rank(masks[64 * b + r], i) < |rows[64 * b + r]|
    ensures RowStart(masks, base, 64 * b + r) - base + Rank(masks[64 * b + r], i) < |mem|
    ensures mem[RowStart(masks, base, 64 * b + r) - base + Rank(masks[64 * b + r], i)] ==
            rows[64 * b + r][Rank(masks[64 * b + r], i)]
  {
    hide *;
    DecompressLayout(mem, masks, base, blocks, b, r, i);
    ExpectedAt(masks, rows, 64 * blocks, 64 * b + r, i);
    assert 4096 * b + 64 * r + i == 64 * (64 * b + r) + i;
  }

  // ---------------------------------------------------------------------
  // Concatenated payloads.

  /** The payloads of rows `i .. j - 1`, back to back. */
  function Payload(rows: seq<seq<byte>>, i: nat, j: nat): seq<byte>
    requires i <= j <= |rows|
    decreases j - i
  {
    if i == j then [] else Payload(rows, i, j - 1) + rows[j - 1]
  }

  lemma {:induction false} PayloadLength(masks: seq<bv64>, rows: seq<seq<byte>>, i: nat, j: nat)
    requires Payloads(masks, rows) && i <= j <= |rows|
    ensures |Payload(rows, i, j)| == SumPop(masks, i, j)
    decreases j - i
  {
    if i < j {
      PayloadLength(masks, rows, i, j - 1);
      SumPopStep(masks, i, j);
    }
  }

  /** Row `g`'s payload sits after those of rows `i .. g - 1`. */
  lemma {:induction false} PayloadHolds(rows: seq<seq<byte>>, i: nat, g: nat, j: nat)
    requires i <= g < j <= |rows|
    ensures Holds(Payload(rows, i, j), |Payload(rows, i, g)|, rows[g])
    decreases j - g
  {
    if j == g + 1 {
      HoldsMiddle(Payload(rows, i, g), rows[g], []);
      assert Payload(rows, i, g) + rows[g] + [] == Payload(rows, i, j);
    } else {
      PayloadHolds(rows, i, g, j - 1);
      HoldsExtend(Payload(rows, i, j - 1), rows[j - 1], |Payload(rows, i, g)|, rows[g]);
    }
  }

  /** `n` filler bytes (the generator's `0xDD`). */
  function Fill(n: nat): (f: seq<byte>)
    ensures |f| == n
  {
    seq(n, _ => 0xDD)
  }

  // ---------------------------------------------------------------------
  // The generator as written: it pads the stream's logical size.

  /** The stream for the first `blocks` blocks: each block's payloads, then
      filler up to the next multiple of 64 of the stream's length. */
  function WrittenStream(rows: seq<seq<byte>>, blocks: nat): (s: seq<byte>)
    requires 64 * blocks <= |rows|
    decreases blocks
  {
    if blocks == 0 then []
    else
      var d := WrittenStream(rows, blocks - 1) + Payload(rows, 64 * (blocks - 1), 64 * blocks);
      d + Fill(ScalarPad(|d|))
  }

  /** The buffer handed to the decompressors: the stream and 128 bytes of
      filler. */
  function WrittenBuffer(rows: seq<seq<byte>>, blocks: nat): seq<byte>
    requires 64 * blocks <= |rows|
  {
    WrittenStream(rows, blocks) + Fill(128)
  }

  // ---------------------------------------------------------------------
  // The generator corrected: it pads the stream's absolute address.

  /** As `WrittenStream`, but the filler after each block brings
      `base + length` to a multiple of 64, which is where the decompressors
      move their cursor. */
  function AlignedStream(rows: seq<seq<byte>>, base: nat, blocks: nat): (s: seq<byte>)
    requires 64 * blocks <= |rows|
    decreases blocks
  {
    if blocks == 0 then []
    else
      var d := AlignedStream(rows, base, blocks - 1) + Payload(rows, 64 * (blocks - 1), 64 * blocks);
      d + Fill(ScalarPad(base + |d|))
  }

  function AlignedBuffer(rows: seq<seq<byte>>, base: nat, blocks: nat): seq<byte>
    requires 64 * blocks <= |rows|
  {
    AlignedStream(rows, base, blocks) + Fill(128)
  }

  lemma AlignedStreamNext(rows: seq<seq<byte>>, base: nat, b: nat)
    requires 64 * b + 64 <= |rows|
    ensures AlignedStream(rows, base, b + 1) ==
      AlignedStream(rows, base, b) + Payload(rows, 64 * b, 64 * b + 64) +
      Fill(ScalarPad(base + |AlignedStream(rows, base, b)| + |Payload(rows, 64 * b, 64 * b + 64)|))
  {
    hide Payload, Fill, ScalarPad;
    var d := AlignedStream(rows, base, b) + Payload(rows, 64 * b, 64 * b + 64);
    assert AlignedStream(rows, base, b + 1) == d + Fill(ScalarPad(base + |d|));
  }

  lemma AlignedStreamEmpty(rows: seq<seq<byte>>, base: nat)
    ensures AlignedStream(rows, base, 0) == []
  {
  }

  lemma AlignUpIs(c: nat)
    ensures AlignUp(c) == c + ScalarPad(c)
  {
  }

  /** The corrected stream ends each block where the decompressors start the
      next one. */
  lemma {:induction false} AlignedStreamCursor(masks: seq<bv64>, rows: seq<seq<byte>>, base: nat, blocks: nat)
    requires Payloads(masks, rows) && 64 * blocks <= |rows|
    ensures base + |AlignedStream(rows, base, blocks)| == RowStart(masks, base, 64 * blocks)
    decreases blocks
  {
    hide *;
    PayloadsCount(masks, rows);
    if blocks == 0 {
      RowStartZero(masks, base);
      AlignedStreamEmpty(rows, base);
    } else {
      var b := blocks - 1;
      AlignedStreamCursor(masks, rows, base, b);
      AlignedStreamNext(rows, base, b);
      PayloadLength(masks, rows, 64 * b, 64 * b + 64);
      BlockCursor(masks, base, b, 64);
      AlignUpIs(RowStart(masks, base, 64 * b) + SumPop(masks, 64 * b, 64 * b + 64));
      assert 64 * b + 64 == 64 * blocks;
    }
  }

  /** Whatever a shorter corrected stream holds, a longer one holds too. */
  lemma {:induction false} AlignedStreamGrows(rows: seq<seq<byte>>, base: nat, b: nat, c: nat, off: nat, v: seq<byte>)
    requires b <= c && 64 * c <= |rows| && Holds(AlignedStream(rows, base, b), off, v)
    ensures Holds(AlignedStream(rows, base, c), off, v)
    decreases c - b
  {
    hide *;
    if b < c {
      AlignedStreamGrows(rows, base, b, c - 1, off, v);
      AlignedStreamNext(rows, base, c - 1);
      var d := AlignedStream(rows, base, c - 1);
      var p := Payload(rows, 64 * (c - 1), 64 * (c - 1) + 64);
      HoldsExtend(d, p, off, v);
      HoldsExtend(d + p, Fill(ScalarPad(base + |d| + |p|)), off, v);
      assert c - 1 + 1 == c;
    }
  }

  /** In the corrected stream row `64 * b + r`'s payload sits at the row's
      cursor. */
  lemma AlignedRowPlaced(masks: seq<bv64>, rows: seq<seq<byte>>, base: nat, blocks: nat, b: nat, r: nat)
    requires Payloads(masks, rows) && 64 * blocks <= |rows| && b < blocks && r < 64
    ensures Holds(AlignedStream(rows, base, blocks), RowStart(masks, base, 64 * b + r) - base, rows[64 * b + r])
  {
    hide *;
    PayloadsCount(masks, rows);
    var g := 64 * b + r;
    var s := AlignedStream(rows, base, b);
    var p := Payload(rows, 64 * b, 64 * b + 64);
    var off := |s| + |Payload(rows, 64 * b, g)|;
    AlignedStreamCursor(masks, rows, base, b);
    BlockCursor(masks, base, b, r);
    PayloadLength(masks, rows, 64 * b, g);
    PayloadHolds(rows, 64 * b, g, 64 * b + 64);
    HoldsShift(s, p, |Payload(rows, 64 * b, g)|, rows[g]);
    AlignedStreamNext(rows, base, b);
    HoldsExtend(s + p, Fill(ScalarPad(base + |s| + |p|)), off, rows[g]);
    AlignedStreamGrows(rows, base, b + 1, blocks, off, rows[g]);
    assert RowStart(masks, base, g) - base == off;
  }

  /** The corrected buffer has the layout the decompressors need, wherever
      it lies in memory. */
  lemma AlignedLayout(masks: seq<bv64>, rows: seq<seq<byte>>, base: nat, blocks: nat)
    requires Payloads(masks, rows) && 64 * blocks <= |rows|
    ensures Layout(AlignedBuffer(rows, base, blocks), masks, rows, base, 64 * blocks, true)
  {
    forall g | 0 <= g < 64 * blocks
      ensures Placed(AlignedBuffer(rows, base, blocks), masks, rows, base, g, true)
    {
      AlignedPlaced(masks, rows, base, blocks, g);
    }
  }

  lemma AlignedPlaced(masks: seq<bv64>, rows: seq<seq<byte>>, base: nat, blocks: nat, g: nat)
    requires Payloads(masks, rows) && 64 * blocks <= |rows| && g < 64 * blocks
    ensures Placed(AlignedBuffer(rows, base, blocks), masks, rows, base, g, true)
  {
    hide AlignedStream, Payload, Fill, RowStart, Popcount;
    PayloadsCount(masks, rows);
    var b, r := g / 64, g % 64;
    assert g == 64 * b + r;
    AlignedRowPlaced(masks, rows, base, blocks, b, r);
    HoldsExtend(AlignedStream(rows, base, blocks), Fill(128), RowStart(masks, base, g) - base, rows[g]);
  }

  /** Round trip: the corrected buffer decompresses to the expected rows at
      any base address, with the slack the full-load kernel needs. */
  lemma AlignedRoundTrip(masks: seq<bv64>, rows: seq<seq<byte>>, base: nat, blocks: nat)
    requires Payloads(masks, rows) && 64 * blocks <= |rows|
    ensures Fits(AlignedBuffer(rows, base, blocks), masks, base, 64 * blocks, true)
    ensures Fits(AlignedBuffer(rows, base, blocks), masks, base, 64 * blocks, false)
    ensures Decompress(AlignedBuffer(rows, base, blocks), masks, base, blocks) == Expected(masks, rows, 64 * blocks)
    ensures FinalCursor(masks, base, blocks) == base + |AlignedStream(rows, base, blocks)|
  {
    AlignedLayout(masks, rows, base, blocks);
    LayoutDecodes(AlignedBuffer(rows, base, blocks), masks, rows, base, blocks, true);
    AlignedStreamCursor(masks, rows, base, blocks);
  }

  // ---------------------------------------------------------------------
  // Where the two agree, and where they do not.

  lemma PadShift(base: nat, x: nat)
    requires base % 64 == 0
    ensures ScalarPad(base + x) == ScalarPad(x)
  {
    assert (base + x) % 64 == x % 64;
  }

  /** On a 64-aligned base the generator as written produces the corrected
      stream. */
  lemma {:induction false} WrittenIsAligned(rows: seq<seq<byte>>, base: nat, blocks: nat)
    requires 64 * blocks <= |rows| && base % 64 == 0
    ensures WrittenStream(rows, blocks) == AlignedStream(rows, base, blocks)
    decreases blocks
  {
    hide Payload, Fill;
    if blocks > 0 {
      WrittenIsAligned(rows, base, blocks - 1);
      var d := AlignedStream(rows, base, blocks - 1) + Payload(rows, 64 * (blocks - 1), 64 * blocks);
      PadShift(base, |d|);
    }
  }

  /** Round trip of the generator as written, on a 64-aligned base. */
  lemma WrittenRoundTrip(masks: seq<bv64>, rows: seq<seq<byte>>, base: nat, blocks: nat)
    requires Payloads(masks, rows) && 64 * blocks <= |rows| && base % 64 == 0
    ensures Fits(WrittenBuffer(rows, blocks), masks, base, 64 * blocks, true)
    ensures Decompress(WrittenBuffer(rows, blocks), masks, base, blocks) == Expected(masks, rows, 64 * blocks)
  {
    WrittenIsAligned(rows, base, blocks);
    AlignedRoundTrip(masks, rows, base, blocks);
  }

  /** On a base that is not 64-aligned, after a first block whose payloads
      fill whole 64-byte lines (so the generator writes no filler), the
      decompressors start the second block past the point where the
      generator put it: they skip `64 - base % 64` bytes of payload. */
  lemma WrittenCursorMismatch(masks: seq<bv64>, rows: seq<seq<byte>>, base: nat, blocks: nat)
    requires Payloads(masks, rows) && 2 <= blocks && 64 * blocks <= |rows|
    requires base % 64 != 0 && SumPop(masks, 0, 64) % 64 == 0
    ensures |WrittenStream(rows, 1)| == SumPop(masks, 0, 64)
    ensures RowStart(masks, base, 64) - base == |WrittenStream(rows, 1)| + (64 - base % 64)
  {
    hide *;
    PayloadsCount(masks, rows);
    var sum := SumPop(masks, 0, 64);
    PayloadLength(masks, rows, 0, 64);
    WrittenOneBlock(rows);
    ScalarPadOfAligned(sum);
    FirstBlockEnd(masks, base);
    AlignUpIs(base + sum);
    ScalarPadShift(base, sum);
  }

  lemma ScalarPadOfAligned(x: nat)
    requires x % 64 == 0
    ensures ScalarPad(x) == 0
  {
  }

  lemma ScalarPadShift(base: nat, x: nat)
    requires x % 64 == 0 && base % 64 != 0
    ensures ScalarPad(base + x) == 64 - base % 64
  {
    var q := x / 64;
    assert x == 64 * q;
    ModShift(base, q);
  }

  lemma {:induction false} ModShift(base: nat, q: nat)
    ensures (base + 64 * q) % 64 == base % 64
  {
    if q > 0 {
      ModShift(base, q - 1);
      assert base + 64 * q == (base + 64 * (q - 1)) + 64;
    }
  }

  lemma FirstBlockEnd(masks: seq<bv64>, base: nat)
    requires 64 <= |masks|
    ensures RowStart(masks, base, 64) == AlignUp(base + SumPop(masks, 0, 64))
  {
    hide *;
    BlockCursor(masks, base, 0, 64);
    RowStartZero(masks, base);
  }

  lemma WrittenOneBlock(rows: seq<seq<byte>>)
    requires 64 <= |rows|
    ensures WrittenStream(rows, 1) == Payload(rows, 0, 64) + Fill(ScalarPad(|Payload(rows, 0, 64)|))
  {
    assert WrittenStream(rows, 0) == [];
    assert [] + Payload(rows, 0, 64) == Payload(rows, 0, 64);
  }
}
