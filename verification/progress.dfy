/** How far a decompression run has got, stated against the reference: the
    rows already in the destination and the cursor for the next row. Every
    implementation in the model is proved by carrying these through its
    loop or its emitted code. */
module Progress {
  import opened Bits
  import opened Expansion
  import opened Alignment
  import opened Seqs
  import opened Reference

  /** Where a run stands on entry to row `g` of an `n`-row run: the first
      `g` rows of the output are in place and the cursor is row `g`'s. */
  ghost predicate AtRow(mem: seq<byte>, masks: seq<bv64>, base: nat, n: nat, g: nat, dst: seq<byte>, cur: nat)
    requires g <= n <= |masks| && Fits(mem, masks, base, n, false)
  {
    && Fits(mem, masks, base, g, false)
    && |dst| == 64 * n
    && dst[..64 * g] == Rows(mem, masks, base, g)
    && cur == RowStart(masks, base, g)
  }

  /** Just after row `g` has advanced the cursor, before any realignment. */
  ghost predicate AfterRow(mem: seq<byte>, masks: seq<bv64>, base: nat, n: nat, g: nat, dst: seq<byte>, cur: nat)
    requires g < n <= |masks| && Fits(mem, masks, base, n, false)
  {
    && Fits(mem, masks, base, g + 1, false)
    && |dst| == 64 * n
    && dst[..64 * (g + 1)] == Rows(mem, masks, base, g + 1)
    && cur == RowStart(masks, base, g) + Popcount(masks[g])
  }

  /** Writing row `g` at its place and advancing by its popcount takes a run
      from `AtRow(g)` to `AfterRow(g)`. */
  lemma RowDone(mem: seq<byte>, masks: seq<bv64>, base: nat, n: nat, g: nat, dst: seq<byte>, cur: nat,
                out: seq<byte>, popcnt: nat)
    requires g < n <= |masks| && Fits(mem, masks, base, n, false)
    requires AtRow(mem, masks, base, n, g, dst, cur)
    requires cur - base + Popcount(masks[g]) <= |mem|
    requires 64 * g + 64 <= |dst|
    requires out == Splice(dst, 64 * g, Expand(masks[g], mem[cur - base..]))
    requires popcnt == Popcount(masks[g])
    ensures AfterRow(mem, masks, base, n, g, out, cur + popcnt)
  {
    hide Rows, Row, RowStart, Fits, Popcount, PopBelow, Expand;
    FitsPrefix(mem, masks, base, n, g + 1, false);
    RowsStep(mem, masks, base, g + 1);
    RowIs(mem, masks, base, g);
    SpliceExtends(dst, 64 * g, Expand(masks[g], mem[cur - base..]), Rows(mem, masks, base, g));
  }

  /** Inside a block the cursor after a row is the next row's cursor. */
  lemma NextInBlock(mem: seq<byte>, masks: seq<bv64>, base: nat, n: nat, g: nat, dst: seq<byte>, cur: nat)
    requires g + 1 < n <= |masks| && Fits(mem, masks, base, n, false) && (g + 1) % 64 != 0
    requires AfterRow(mem, masks, base, n, g, dst, cur)
    ensures AtRow(mem, masks, base, n, g + 1, dst, cur)
  {
    hide Rows, Row, RowStart, Fits, Popcount, PopBelow, Expand, AlignUp;
    RowStartStep(masks, base, g + 1);
  }

  /** At a block's end the realigned cursor is the next block's cursor. */
  lemma NextBlock(mem: seq<byte>, masks: seq<bv64>, base: nat, n: nat, g: nat, dst: seq<byte>, cur: nat)
    requires g < n <= |masks| && Fits(mem, masks, base, n, false) && (g + 1) % 64 == 0
    requires AfterRow(mem, masks, base, n, g, dst, cur)
    ensures AtRow(mem, masks, base, n, g + 1, dst, AlignUp(cur))
  {
    hide Rows, Row, RowStart, Fits, Popcount, PopBelow, Expand, AlignUp;
    RowStartStep(masks, base, g + 1);
  }

  /** A finished run holds the whole reference output. */
  lemma RunDone(mem: seq<byte>, masks: seq<bv64>, base: nat, blocks: nat, dst: seq<byte>, cur: nat)
    requires 64 * blocks <= |masks| && Fits(mem, masks, base, 64 * blocks, false)
    requires AtRow(mem, masks, base, 64 * blocks, 64 * blocks, dst, cur)
    ensures dst == Decompress(mem, masks, base, blocks)
    ensures cur == FinalCursor(masks, base, blocks)
  {
    assert dst == dst[..64 * (64 * blocks)];
  }

  lemma RunStart(mem: seq<byte>, masks: seq<bv64>, base: nat, blocks: nat, dst: seq<byte>)
    requires 64 * blocks <= |masks| && Fits(mem, masks, base, 64 * blocks, false)
    requires |dst| == 4096 * blocks
    ensures AtRow(mem, masks, base, 64 * blocks, 0, dst, base)
  {
  }


  // ---------------------------------------------------------------------
  // The same for a run that never realigns.

  /** On entry to row `g` of a run without realignment. */
  ghost predicate PackedAt(mem: seq<byte>, masks: seq<bv64>, base: nat, n: nat, g: nat, dst: seq<byte>, cur: nat)
    requires g <= n <= |masks| && PackedFits(mem, masks, base, n)
  {
    && PackedFits(mem, masks, base, g)
    && |dst| == 64 * n
    && dst[..64 * g] == PackedRows(mem, masks, base, g)
    && cur == PackedStart(masks, base, g)
  }

  lemma PackedRowDone(mem: seq<byte>, masks: seq<bv64>, base: nat, n: nat, g: nat, dst: seq<byte>, cur: nat,
                      out: seq<byte>, popcnt: nat)
    requires g < n <= |masks| && PackedFits(mem, masks, base, n)
    requires PackedAt(mem, masks, base, n, g, dst, cur)
    requires cur - base + Popcount(masks[g]) <= |mem|
    requires 64 * g + 64 <= |dst|
    requires out == Splice(dst, 64 * g, Expand(masks[g], mem[cur - base..]))
    requires popcnt == Popcount(masks[g])
    ensures PackedAt(mem, masks, base, n, g + 1, out, cur + popcnt)
  {
    hide PackedRows, PackedRow, PackedStart, PackedFits, SumPop, Popcount, PopBelow, Expand;
    PackedFitsPrefix(mem, masks, base, n, g + 1);
    PackedRowsStep(mem, masks, base, g + 1);
    PackedRowIs(mem, masks, base, g);
    PackedStartStep(masks, base, g);
    SpliceExtends(dst, 64 * g, Expand(masks[g], mem[cur - base..]), PackedRows(mem, masks, base, g));
  }

  lemma PackedRunStart(mem: seq<byte>, masks: seq<bv64>, base: nat, blocks: nat, dst: seq<byte>)
    requires 64 * blocks <= |masks| && PackedFits(mem, masks, base, 64 * blocks)
    requires |dst| == 4096 * blocks
    ensures PackedAt(mem, masks, base, 64 * blocks, 0, dst, base)
  {
    PackedStartIs(masks, base, 0);
    SumPopEmpty(masks, 0);
  }

  lemma PackedRunDone(mem: seq<byte>, masks: seq<bv64>, base: nat, blocks: nat, dst: seq<byte>, cur: nat)
    requires 64 * blocks <= |masks| && PackedFits(mem, masks, base, 64 * blocks)
    requires PackedAt(mem, masks, base, 64 * blocks, 64 * blocks, dst, cur)
    ensures dst == PackedDecompress(mem, masks, base, blocks)
    ensures cur == PackedFinal(masks, base, blocks)
  {
    assert dst == dst[..64 * (64 * blocks)];
  }
}
