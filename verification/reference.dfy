/** The reference meaning of bitmask-sparse decompression.

    A run decompresses `blocks` blocks of 64 rows. Row `g` (counting across
    blocks, so row `r` of block `b` is `g = 64 * b + r`) reads mask word
    `masks[g]`, expands the packed bytes at the stream cursor into the 64
    destination bytes `[64 * g, 64 * g + 64)`, and advances the cursor by the
    mask's popcount. After the last row of each block the cursor is rounded up
    to a multiple of 64.

    The cursor is an absolute address. The stream buffer starts at address
    `base`, so the byte at address `a` is `mem[a - base]`. */
module Reference {
  import opened Bits
  import opened Expansion
  import opened Alignment
  import opened Seqs

  /** Total popcount of `masks[i .. j-1]`: the bytes those rows consume. */
  function SumPop(masks: seq<bv64>, i: nat, j: nat): (s: nat)
    requires i <= j <= |masks|
    ensures s <= 64 * (j - i)
    decreases j - i
  {
    if i == j then 0 else SumPop(masks, i, j - 1) + Popcount(masks[j - 1])
  }

  /** The cursor on entry to row `g`: the previous row's cursor plus its
      popcount, rounded up to 64 when `g` starts a new block. */
  function RowStart(masks: seq<bv64>, base: nat, g: nat): (c: nat)
    requires g <= |masks|
    ensures c >= base
    decreases g
  {
    if g == 0 then base
    else
      var end := RowStart(masks, base, g - 1) + Popcount(masks[g - 1]);
      if g % 64 == 0 then AlignUp(end) else end
  }

  /** How many stream bytes a row touches from its cursor: the popcount for
      the scalar code and the masked loads, a whole 64-byte vector for an
      unmasked load. */
  function Reach(m: bv64, wide: bool): (n: nat)
    ensures Popcount(m) <= n <= 64
  {
    if wide then 64 else Popcount(m)
  }

  /** The stream buffer holds every byte the first `n` rows touch. */
  ghost predicate Fits(mem: seq<byte>, masks: seq<bv64>, base: nat, n: nat, wide: bool)
    requires n <= |masks|
  {
    forall g :: 0 <= g < n ==> RowStart(masks, base, g) - base + Reach(masks[g], wide) <= |mem|
  }

  /** The stream bytes from row `g`'s cursor on. */
  function Src(mem: seq<byte>, masks: seq<bv64>, base: nat, g: nat): (src: seq<byte>)
    requires g < |masks| && RowStart(masks, base, g) - base + Popcount(masks[g]) <= |mem|
    ensures Popcount(masks[g]) <= |src|
  {
    mem[RowStart(masks, base, g) - base..]
  }

  /** The 64 destination bytes of row `g`. */
  function Row(mem: seq<byte>, masks: seq<bv64>, base: nat, g: nat): (row: seq<byte>)
    requires g < |masks| && RowStart(masks, base, g) - base + Popcount(masks[g]) <= |mem|
    ensures |row| == 64
  {
    Expand(masks[g], Src(mem, masks, base, g))
  }

  /** The destination bytes of the first `n` rows, in row order. */
  function Rows(mem: seq<byte>, masks: seq<bv64>, base: nat, n: nat): (out: seq<byte>)
    requires n <= |masks| && Fits(mem, masks, base, n, false)
    ensures |out| == 64 * n
    decreases n
  {
    if n == 0 then []
    else
      assert Fits(mem, masks, base, n - 1, false);
      Rows(mem, masks, base, n - 1) + Row(mem, masks, base, n - 1)
  }

  /** The whole destination buffer of a `blocks`-block run. */
  function Decompress(mem: seq<byte>, masks: seq<bv64>, base: nat, blocks: nat): (out: seq<byte>)
    requires 64 * blocks <= |masks| && Fits(mem, masks, base, 64 * blocks, false)
    ensures |out| == 4096 * blocks
  {
    Rows(mem, masks, base, 64 * blocks)
  }

  /** The cursor when the run returns. */
  function FinalCursor(masks: seq<bv64>, base: nat, blocks: nat): nat
    requires 64 * blocks <= |masks|
  {
    RowStart(masks, base, 64 * blocks)
  }

  lemma FinalCursorIs(masks: seq<bv64>, base: nat, blocks: nat)
    requires 64 * blocks <= |masks|
    ensures FinalCursor(masks, base, blocks) == RowStart(masks, base, 64 * blocks)
  {
  }

  // ---------------------------------------------------------------------
  // Where each row lands and what it holds.

  /** Fitting the first `n` rows means fitting any prefix of them. */
  lemma FitsPrefix(mem: seq<byte>, masks: seq<bv64>, base: nat, n: nat, k: nat, wide: bool)
    requires k <= n <= |masks| && Fits(mem, masks, base, n, wide)
    ensures Fits(mem, masks, base, k, wide)
  {
  }

  /** A row touches at least its popcount, so fitting the unmasked reach
      implies fitting the popcount. */
  lemma FitsNarrow(mem: seq<byte>, masks: seq<bv64>, base: nat, n: nat)
    requires n <= |masks| && Fits(mem, masks, base, n, true)
    ensures Fits(mem, masks, base, n, false)
  {
  }

  /** Each row the stream covers fits, read at its own cursor. */
  lemma FitsAt(mem: seq<byte>, masks: seq<bv64>, base: nat, n: nat, g: nat, wide: bool)
    requires g < n <= |masks| && Fits(mem, masks, base, n, wide)
    ensures RowStart(masks, base, g) - base + Reach(masks[g], wide) <= |mem|
    ensures RowStart(masks, base, g) - base + Popcount(masks[g]) <= |mem|
  {
  }

  /** Row `g` is the expansion of the stream from its cursor. */
  lemma RowIs(mem: seq<byte>, masks: seq<bv64>, base: nat, g: nat)
    requires g < |masks| && RowStart(masks, base, g) - base + Popcount(masks[g]) <= |mem|
    ensures Row(mem, masks, base, g) == Expand(masks[g], mem[RowStart(masks, base, g) - base..])
  {
  }

  /** One more row appends that row's 64 bytes. */
  lemma RowsStep(mem: seq<byte>, masks: seq<bv64>, base: nat, n: nat)
    requires 0 < n <= |masks| && Fits(mem, masks, base, n, false)
    ensures Fits(mem, masks, base, n - 1, false)
    ensures RowStart(masks, base, n - 1) - base + Popcount(masks[n - 1]) <= |mem|
    ensures Rows(mem, masks, base, n) == Rows(mem, masks, base, n - 1) + Row(mem, masks, base, n - 1)
  {
  }

  /** Row `g` of the output is exactly destination bytes
      `[64 * g, 64 * g + 64)` of every longer prefix. */
  lemma {:induction false} RowsAt(mem: seq<byte>, masks: seq<bv64>, base: nat, n: nat, g: nat)
    requires g < n <= |masks| && Fits(mem, masks, base, n, false)
    ensures RowStart(masks, base, g) - base + Popcount(masks[g]) <= |mem|
    ensures Rows(mem, masks, base, n)[64 * g..64 * g + 64] == Row(mem, masks, base, g)
    decreases n
  {
    hide *;
    RowsStep(mem, masks, base, n);
    if g < n - 1 {
      RowsAt(mem, masks, base, n - 1, g);
      assert 64 * g + 64 <= 64 * (n - 1);
      SliceLeft(Rows(mem, masks, base, n - 1), Row(mem, masks, base, n - 1), 64 * g, 64 * g + 64);
    } else {
      SliceRight(Rows(mem, masks, base, n - 1), Row(mem, masks, base, n - 1));
    }
  }

  /** Lane `i` of row `g`, by rank. */
  lemma RowLane(mem: seq<byte>, masks: seq<bv64>, base: nat, g: nat, i: nat)
    requires g < |masks| && RowStart(masks, base, g) - base + Popcount(masks[g]) <= |mem| && i < 64
    ensures Bit(masks[g], i) ==> Rank(masks[g], i) < Popcount(masks[g])
    ensures Row(mem, masks, base, g)[i] ==
      if Bit(masks[g], i) then mem[RowStart(masks, base, g) - base + Rank(masks[g], i)] else 0
  {
    hide *;
    var m, src := masks[g], Src(mem, masks, base, g);
    SrcIs(mem, masks, base, g);
    ExpandLane(m, src, i);
    if Bit(m, i) {
      RankBelowPopcount(m, i);
    }
  }

  lemma SrcIs(mem: seq<byte>, masks: seq<bv64>, base: nat, g: nat)
    requires g < |masks| && RowStart(masks, base, g) - base + Popcount(masks[g]) <= |mem|
    ensures Src(mem, masks, base, g) == mem[RowStart(masks, base, g) - base..]
    ensures Row(mem, masks, base, g) == Expand(masks[g], Src(mem, masks, base, g))
  {
  }

  /** Destination byte `i` of row `r` of block `b` is the packed byte of rank
      `i` at that row's cursor when bit `i` of mask word `64 * b + r` is set,
      and 0 otherwise. */
  lemma DecompressLayout(mem: seq<byte>, masks: seq<bv64>, base: nat, blocks: nat, b: nat, r: nat, i: nat)
    requires 64 * blocks <= |masks| && Fits(mem, masks, base, 64 * blocks, false)
    requires b < blocks && r < 64 && i < 64
    ensures RowStart(masks, base, 64 * b + r) - base + Popcount(masks[64 * b + r]) <= |mem|
    ensures Bit(masks[64 * b + r], i) ==> Rank(masks[64 * b + r], i) < Popcount(masks[64 * b + r])
    ensures Decompress(mem, masks, base, blocks)[4096 * b + 64 * r + i] ==
      if Bit(masks[64 * b + r], i)
      then mem[RowStart(masks, base, 64 * b + r) - base + Rank(masks[64 * b + r], i)]
      else 0
  {
    hide *;
    var g := 64 * b + r;
    assert g < 64 * blocks;
    RowsAt(mem, masks, base, 64 * blocks, g);
    RowLane(mem, masks, base, g, i);
    DecompressIsRows(mem, masks, base, blocks);
    var out := Rows(mem, masks, base, 64 * blocks);
    assert 4096 * b + 64 * r + i == 64 * g + i;
    assert out[64 * g + i] == out[64 * g..64 * g + 64][i];
  }

  lemma DecompressIsRows(mem: seq<byte>, masks: seq<bv64>, base: nat, blocks: nat)
    requires 64 * blocks <= |masks| && Fits(mem, masks, base, 64 * blocks, false)
    ensures Decompress(mem, masks, base, blocks) == Rows(mem, masks, base, 64 * blocks)
    ensures |Rows(mem, masks, base, 64 * blocks)| == 4096 * blocks
  {
  }

  /** With no blocks nothing is written and no stream byte is consumed. */
  lemma ZeroBlocks(mem: seq<byte>, masks: seq<bv64>, base: nat)
    ensures Decompress(mem, masks, base, 0) == []
    ensures FinalCursor(masks, base, 0) == base
  {
  }

  // ---------------------------------------------------------------------
  // The cursor in closed form.

  lemma SumPopStep(masks: seq<bv64>, i: nat, j: nat)
    requires i < j <= |masks|
    ensures SumPop(masks, i, j) == SumPop(masks, i, j - 1) + Popcount(masks[j - 1])
  {
  }

  lemma {:induction false} SumPopSplit(masks: seq<bv64>, i: nat, j: nat, k: nat)
    requires i <= j <= k <= |masks|
    ensures SumPop(masks, i, k) == SumPop(masks, i, j) + SumPop(masks, j, k)
    decreases k - j
  {
    hide *;
    if j < k {
      SumPopSplit(masks, i, j, k - 1);
      SumPopStep(masks, i, k);
      SumPopStep(masks, j, k);
    } else {
      SumPopEmpty(masks, j);
    }
  }

  lemma SumPopEmpty(masks: seq<bv64>, i: nat)
    requires i <= |masks|
    ensures SumPop(masks, i, i) == 0
  {
  }

  /** One row more: the cursor moves by the row's popcount, and is rounded up
      when the next row opens a block. */
  lemma RowStartStep(masks: seq<bv64>, base: nat, g: nat)
    requires 0 < g <= |masks|
    ensures g % 64 != 0 ==> RowStart(masks, base, g) == RowStart(masks, base, g - 1) + Popcount(masks[g - 1])
    ensures g % 64 == 0 ==> RowStart(masks, base, g) == AlignUp(RowStart(masks, base, g - 1) + Popcount(masks[g - 1]))
  {
    hide AlignUp, Popcount;
  }

  /** Row `r` of block `b` opens a block exactly when `r` is 0 or 64. */
  lemma RowInBlock(b: nat, r: nat)
    requires r <= 64
    ensures (64 * b + r) % 64 == 0 <==> r == 0 || r == 64
  {
    if 0 < r < 64 {
      assert 64 * b + r == 64 * b + r % 64;
    }
  }

  /** Inside block `b` the cursor is the block's start plus the popcounts of
      the block's earlier rows, and the next block starts at the first
      multiple of 64 at or after the end of the block's last row. */
  lemma {:induction false} BlockCursor(masks: seq<bv64>, base: nat, b: nat, r: nat)
    requires r <= 64 && 64 * b + r <= |masks|
    ensures r < 64 ==> RowStart(masks, base, 64 * b + r) == RowStart(masks, base, 64 * b) + SumPop(masks, 64 * b, 64 * b + r)
    ensures r == 64 ==> RowStart(masks, base, 64 * b + r) == AlignUp(RowStart(masks, base, 64 * b) + SumPop(masks, 64 * b, 64 * b + r))
    decreases r
  {
    hide *;
    if r == 0 {
      SumPopEmpty(masks, 64 * b);
    } else {
      BlockCursor(masks, base, b, r - 1);
      RowInBlock(b, r);
      RowInBlock(b, r - 1);
      RowStartStep(masks, base, 64 * b + r);
      SumPopStep(masks, 64 * b, 64 * b + r);
    }
  }

  /** Every block after the first starts on a 64-byte boundary. */
  lemma BlockStartAligned(masks: seq<bv64>, base: nat, b: nat)
    requires 0 < b && 64 * b <= |masks|
    ensures RowStart(masks, base, 64 * b) % 64 == 0
  {
    RowInBlock(b - 1, 64);
    RowStartStep(masks, base, 64 * b);
  }

  // ---------------------------------------------------------------------
  // The variant without realignment.

  /** The cursor on entry to row `g` when nothing is realigned: the base
      plus every earlier row's popcount. */
  function PackedStart(masks: seq<bv64>, base: nat, g: nat): (c: nat)
    requires g <= |masks|
    ensures c >= base
  {
    base + SumPop(masks, 0, g)
  }

  ghost predicate PackedFits(mem: seq<byte>, masks: seq<bv64>, base: nat, n: nat)
    requires n <= |masks|
  {
    forall g :: 0 <= g < n ==> PackedStart(masks, base, g) - base + Popcount(masks[g]) <= |mem|
  }

  function PackedRow(mem: seq<byte>, masks: seq<bv64>, base: nat, g: nat): (row: seq<byte>)
    requires g < |masks| && PackedStart(masks, base, g) - base + Popcount(masks[g]) <= |mem|
    ensures |row| == 64
  {
    Expand(masks[g], mem[PackedStart(masks, base, g) - base..])
  }

  function PackedRows(mem: seq<byte>, masks: seq<bv64>, base: nat, n: nat): (out: seq<byte>)
    requires n <= |masks| && PackedFits(mem, masks, base, n)
    ensures |out| == 64 * n
    decreases n
  {
    if n == 0 then []
    else
      assert PackedFits(mem, masks, base, n - 1);
      PackedRows(mem, masks, base, n - 1) + PackedRow(mem, masks, base, n - 1)
  }

  lemma PackedRowsStep(mem: seq<byte>, masks: seq<bv64>, base: nat, n: nat)
    requires 0 < n <= |masks| && PackedFits(mem, masks, base, n)
    ensures PackedFits(mem, masks, base, n - 1)
    ensures PackedStart(masks, base, n - 1) - base + Popcount(masks[n - 1]) <= |mem|
    ensures PackedRows(mem, masks, base, n) == PackedRows(mem, masks, base, n - 1) + PackedRow(mem, masks, base, n - 1)
  {
  }

  lemma {:induction false} PackedRowsAt(mem: seq<byte>, masks: seq<bv64>, base: nat, n: nat, g: nat)
    requires g < n <= |masks| && PackedFits(mem, masks, base, n)
    ensures PackedStart(masks, base, g) - base + Popcount(masks[g]) <= |mem|
    ensures PackedRows(mem, masks, base, n)[64 * g..64 * g + 64] == PackedRow(mem, masks, base, g)
    decreases n
  {
    hide *;
    PackedRowsStep(mem, masks, base, n);
    if g < n - 1 {
      PackedRowsAt(mem, masks, base, n - 1, g);
      assert 64 * g + 64 <= 64 * (n - 1);
      SliceLeft(PackedRows(mem, masks, base, n - 1), PackedRow(mem, masks, base, n - 1), 64 * g, 64 * g + 64);
    } else {
      SliceRight(PackedRows(mem, masks, base, n - 1), PackedRow(mem, masks, base, n - 1));
    }
  }

  /** When the base is 64-aligned and every block consumes a multiple of 64
      bytes, realignment never moves the cursor, so the two variants agree
      row for row. */
  lemma {:induction false} PackedIsAligned(masks: seq<bv64>, base: nat, g: nat)
    requires g <= |masks| && base % 64 == 0
    requires forall b :: 0 <= b && 64 * (b + 1) <= g ==>
      SumPop(masks, 64 * b, 64 * (b + 1)) % 64 == 0
    ensures RowStart(masks, base, g) == PackedStart(masks, base, g)
    ensures g % 64 == 0 ==> PackedStart(masks, base, g) % 64 == 0
    decreases g
  {
    hide *;
    PackedStartIs(masks, base, g);
    if g == 0 {
      SumPopEmpty(masks, 0);
      RowStartZero(masks, base);
    } else {
      PackedIsAligned(masks, base, g - 1);
      RowStartStep(masks, base, g);
      SumPopStep(masks, 0, g);
      PackedStartIs(masks, base, g - 1);
      if g % 64 == 0 {
        var b := g / 64 - 1;
        assert 64 * (b + 1) == g;
        PackedIsAligned(masks, base, 64 * b);
        PackedBlockEnd(masks, base, g);
        AlignUpLeast(base + SumPop(masks, 0, g), base + SumPop(masks, 0, g));
      }
    }
  }

  /** A block whose popcount total is a multiple of 64, packed after an
      aligned cursor, ends on an aligned cursor. */
  lemma PackedBlockEnd(masks: seq<bv64>, base: nat, g: nat)
    requires 64 <= g <= |masks|
    requires PackedStart(masks, base, g - 64) % 64 == 0
    requires SumPop(masks, g - 64, g) % 64 == 0
    ensures PackedStart(masks, base, g) % 64 == 0
  {
    hide *;
    PackedStartIs(masks, base, g - 64);
    PackedStartIs(masks, base, g);
    SumPopSplit(masks, 0, g - 64, g);
    SumAligned(PackedStart(masks, base, g - 64), SumPop(masks, g - 64, g));
  }

  lemma SumAligned(x: nat, y: nat)
    requires x % 64 == 0 && y % 64 == 0
    ensures (x + y) % 64 == 0
  {
    assert x + y == 64 * (x / 64 + y / 64);
  }

  lemma PackedStartIs(masks: seq<bv64>, base: nat, g: nat)
    requires g <= |masks|
    ensures PackedStart(masks, base, g) == base + SumPop(masks, 0, g)
  {
  }

  lemma RowStartZero(masks: seq<bv64>, base: nat)
    ensures RowStart(masks, base, 0) == base
  {
  }

  lemma PackedStartStep(masks: seq<bv64>, base: nat, g: nat)
    requires g < |masks|
    ensures PackedStart(masks, base, g + 1) == PackedStart(masks, base, g) + Popcount(masks[g])
  {
    SumPopStep(masks, 0, g + 1);
  }

  lemma PackedFitsPrefix(mem: seq<byte>, masks: seq<bv64>, base: nat, n: nat, k: nat)
    requires k <= n <= |masks| && PackedFits(mem, masks, base, n)
    ensures PackedFits(mem, masks, base, k)
  {
  }

  lemma PackedFitsAt(mem: seq<byte>, masks: seq<bv64>, base: nat, n: nat, g: nat)
    requires g < n <= |masks| && PackedFits(mem, masks, base, n)
    ensures PackedStart(masks, base, g) - base + Popcount(masks[g]) <= |mem|
  {
  }

  lemma PackedRowIs(mem: seq<byte>, masks: seq<bv64>, base: nat, g: nat)
    requires g < |masks| && PackedStart(masks, base, g) - base + Popcount(masks[g]) <= |mem|
    ensures PackedRow(mem, masks, base, g) == Expand(masks[g], mem[PackedStart(masks, base, g) - base..])
  {
  }

  /** The output of a run without realignment. */
  function PackedDecompress(mem: seq<byte>, masks: seq<bv64>, base: nat, blocks: nat): (out: seq<byte>)
    requires 64 * blocks <= |masks| && PackedFits(mem, masks, base, 64 * blocks)
    ensures |out| == 4096 * blocks
  {
    PackedRows(mem, masks, base, 64 * blocks)
  }

  /** Where the stream cursor ends up: the base plus every row's popcount. */
  function PackedFinal(masks: seq<bv64>, base: nat, blocks: nat): (c: nat)
    requires 64 * blocks <= |masks|
    ensures c == base + SumPop(masks, 0, 64 * blocks)
  {
    PackedStart(masks, base, 64 * blocks)
  }

  lemma FitsFromPacked(mem: seq<byte>, masks: seq<bv64>, base: nat, n: nat)
    requires n <= |masks|
    requires forall g :: 0 <= g < n ==> RowStart(masks, base, g) == PackedStart(masks, base, g)
    requires PackedFits(mem, masks, base, n)
    ensures Fits(mem, masks, base, n, false)
  {
    hide RowStart, PackedStart, Popcount, PopBelow;
  }

  /** Where the two cursors agree on every row, the two outputs agree. */
  lemma {:induction false} PackedRowsIsRows(mem: seq<byte>, masks: seq<bv64>, base: nat, n: nat)
    requires n <= |masks|
    requires forall g :: 0 <= g < n ==> RowStart(masks, base, g) == PackedStart(masks, base, g)
    requires PackedFits(mem, masks, base, n)
    ensures Fits(mem, masks, base, n, false)
    ensures PackedRows(mem, masks, base, n) == Rows(mem, masks, base, n)
    decreases n
  {
    hide *;
    FitsFromPacked(mem, masks, base, n);
    if n > 0 {
      PackedFitsPrefix(mem, masks, base, n, n - 1);
      PackedRowsIsRows(mem, masks, base, n - 1);
      PackedRowsStep(mem, masks, base, n);
      RowsStep(mem, masks, base, n);
      PackedRowIs(mem, masks, base, n - 1);
      RowIs(mem, masks, base, n - 1);
    } else {
      PackedRowsEmpty(mem, masks, base);
    }
  }

  lemma PackedRowsEmpty(mem: seq<byte>, masks: seq<bv64>, base: nat)
    ensures PackedRows(mem, masks, base, 0) == [] == Rows(mem, masks, base, 0)
  {
  }
}
