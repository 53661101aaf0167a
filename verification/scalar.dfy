/** The four compiled decompressors: the scalar lane loop and the expand-load
    intrinsic, each without unrolling and unrolled four times.

    The destination buffer is a value here: each method receives the buffer's
    previous contents and returns the buffer it leaves behind, together with
    the final stream cursor (an absolute address). All four return the
    reference output and cursor whatever the buffer held before. */
module ScalarKernels {
  import opened Bits
  import opened Expansion
  import opened Alignment
  import opened Seqs
  import opened Reference
  import opened Progress

  /** The scalar inner loop: walk the 64 lanes, taking the next stream byte
      for a set mask bit and writing 0 for a clear one. It writes exactly the
      64 destination bytes at `off`, with the expansion of `src`, and counts
      the bytes it took. */
  method ScalarRow(dst: seq<byte>, off: nat, m: bv64, src: seq<byte>) returns (out: seq<byte>, popcnt: nat)
    requires off + 64 <= |dst| && Popcount(m) <= |src|
    ensures out == Splice(dst, off, Expand(m, src))
    ensures popcnt == Popcount(m)
  {
    hide Popcount, PopBelow, Expand, Splice;
    out := dst;
    popcnt := 0;
    for i := 0 to 64
      invariant |out| == |dst|
      invariant forall k :: 0 <= k < |out| && !(off <= k < off + i) ==> out[k] == dst[k]
      invariant forall j :: 0 <= j < i ==> out[off + j] == Lane(m, src, j)
      invariant popcnt == PopBelow(m, i)
    {
      PopBelowMono(m, i + 1, 64);
      PopBelowStep(m, i);
      RankIsPopBelow(m, i);
      PopcountIsPopBelow(m);
      if (m >> (i as bv8)) & 1 == 1 {
        out := out[off + i := src[popcnt]];
        popcnt := popcnt + 1;
      } else {
        out := out[off + i := 0];
      }
    }
    PopcountIsPopBelow(m);
    RowStoreIs(dst, off, m, src, out);
  }

  lemma RowStoreIs(dst: seq<byte>, off: nat, m: bv64, src: seq<byte>, out: seq<byte>)
    requires off + 64 <= |dst| && Popcount(m) <= |src| && |out| == |dst|
    requires forall k :: 0 <= k < |out| && !(off <= k < off + 64) ==> out[k] == dst[k]
    requires forall j :: 0 <= j < 64 ==> out[off + j] == Lane(m, src, j)
    ensures out == Splice(dst, off, Expand(m, src))
  {
    var want := Splice(dst, off, Expand(m, src));
    forall k | 0 <= k < |out|
      ensures out[k] == want[k]
    {
      if off <= k < off + 64 {
        assert want[k] == want[off..off + 64][k - off];
      }
    }
  }

  /** The intrinsic row: `_mm512_maskz_expandloadu_epi8` on the cursor, then
      one 64-byte store, then the cursor moves by `_mm_popcnt_u64`. */
  method IntrinsicRow(dst: seq<byte>, off: nat, m: bv64, src: seq<byte>) returns (out: seq<byte>, popcnt: nat)
    requires off + 64 <= |dst| && Popcount(m) <= |src|
    ensures out == Splice(dst, off, Expand(m, src))
    ensures popcnt == Popcount(m)
  {
    var v := ExpandInstr(m, src);
    ExpandInstrIsExpand(m, src);
    out := Splice(dst, off, v);
    popcnt := Popcount(m);
  }

  /** The block's realignment as the compiled code writes it: skip
      `64 - (addr & 63)` bytes unless the address is already aligned. */
  function Realign(cur: nat): (r: nat)
    ensures r % 64 == 0 && cur <= r < cur + 64
    ensures cur % 64 == 0 ==> r == cur
  {
    var misalignment := cur % 64;
    if misalignment != 0 then cur + (64 - misalignment) else cur
  }

  /** One row of either kernel, at global row `g`, and the realignment
      when `g` ends a block. */
  method Step(mem: seq<byte>, masks: seq<bv64>, base: nat, n: nat, g: nat, dst: seq<byte>, cur: nat, intrinsic: bool)
    returns (out: seq<byte>, next: nat)
    requires g < n <= |masks| && Fits(mem, masks, base, n, false)
    requires AtRow(mem, masks, base, n, g, dst, cur)
    ensures AfterRow(mem, masks, base, n, g, out, next)
    ensures (g + 1) % 64 != 0 && g + 1 < n ==> AtRow(mem, masks, base, n, g + 1, out, next)
  {
    FitsAt(mem, masks, base, n, g, false);
    var popcnt;
    if intrinsic {
      out, popcnt := IntrinsicRow(dst, 64 * g, masks[g], mem[cur - base..]);
    } else {
      out, popcnt := ScalarRow(dst, 64 * g, masks[g], mem[cur - base..]);
    }
    next := cur + popcnt;
    RowDone(mem, masks, base, n, g, dst, cur, out, popcnt);
    if (g + 1) % 64 != 0 && g + 1 < n {
      NextInBlock(mem, masks, base, n, g, out, next);
    }
  }

  /** The 64 rows of block `block`, one per iteration, then the
      realignment: the non-unrolled loops at `jit_decomp_c.cpp` 31-52. */
  method Block(mem: seq<byte>, masks: seq<bv64>, base: nat, blocks: nat, block: nat, dst: seq<byte>, cur: nat,
               intrinsic: bool)
    returns (out: seq<byte>, next: nat)
    requires block < blocks && 64 * blocks <= |masks| && Fits(mem, masks, base, 64 * blocks, false)
    requires AtRow(mem, masks, base, 64 * blocks, 64 * block, dst, cur)
    ensures AtRow(mem, masks, base, 64 * blocks, 64 * (block + 1), out, next)
  {
    hide *;
    out, next := dst, cur;
    for cl := 0 to 64
      invariant cl < 64 ==> AtRow(mem, masks, base, 64 * blocks, 64 * block + cl, out, next)
      invariant cl == 64 ==> AfterRow(mem, masks, base, 64 * blocks, 64 * block + 63, out, next)
    {
      RowInBlock(block, cl + 1);
      out, next := Step(mem, masks, base, 64 * blocks, 64 * block + cl, out, next, intrinsic);
    }
    RowInBlock(block, 64);
    NextBlock(mem, masks, base, 64 * blocks, 64 * block + 63, out, next);
    var last := next;
    next := Realign(next);
    AlignUpUnique(last, next);
  }

  /** The same block with the row loop unrolled four times: the loops at
      `jit_decomp_c.cpp` 73-133. */
  method Block4(mem: seq<byte>, masks: seq<bv64>, base: nat, blocks: nat, block: nat, dst: seq<byte>, cur: nat,
                intrinsic: bool)
    returns (out: seq<byte>, next: nat)
    requires block < blocks && 64 * blocks <= |masks| && Fits(mem, masks, base, 64 * blocks, false)
    requires AtRow(mem, masks, base, 64 * blocks, 64 * block, dst, cur)
    ensures AtRow(mem, masks, base, 64 * blocks, 64 * (block + 1), out, next)
  {
    hide *;
    out, next := dst, cur;
    var cl := 0;
    while cl < 64
      invariant cl <= 64 && cl % 4 == 0
      invariant cl < 64 ==> AtRow(mem, masks, base, 64 * blocks, 64 * block + cl, out, next)
      invariant cl == 64 ==> AfterRow(mem, masks, base, 64 * blocks, 64 * block + 63, out, next)
    {
      out, next := Quad(mem, masks, base, blocks, block, cl, out, next, intrinsic);
      cl := cl + 4;
    }
    RowInBlock(block, 64);
    NextBlock(mem, masks, base, 64 * blocks, 64 * block + 63, out, next);
    var last := next;
    next := Realign(next);
    AlignUpUnique(last, next);
  }

  /** One iteration of the unrolled loop: rows `cl .. cl + 3` of the block. */
  method Quad(mem: seq<byte>, masks: seq<bv64>, base: nat, blocks: nat, block: nat, cl: nat, dst: seq<byte>, cur: nat,
              intrinsic: bool)
    returns (out: seq<byte>, next: nat)
    requires block < blocks && 64 * blocks <= |masks| && Fits(mem, masks, base, 64 * blocks, false)
    requires cl < 64 && cl % 4 == 0
    requires AtRow(mem, masks, base, 64 * blocks, 64 * block + cl, dst, cur)
    ensures cl + 4 < 64 ==> AtRow(mem, masks, base, 64 * blocks, 64 * block + cl + 4, out, next)
    ensures cl + 4 == 64 ==> AfterRow(mem, masks, base, 64 * blocks, 64 * block + 63, out, next)
  {
    hide *;
    RowInBlock(block, cl + 1);
    RowInBlock(block, cl + 2);
    RowInBlock(block, cl + 3);
    RowInBlock(block, cl + 4);
    out, next := Step(mem, masks, base, 64 * blocks, 64 * block + cl, dst, cur, intrinsic);
    out, next := Step(mem, masks, base, 64 * blocks, 64 * block + cl + 1, out, next, intrinsic);
    out, next := Step(mem, masks, base, 64 * blocks, 64 * block + cl + 2, out, next, intrinsic);
    out, next := Step(mem, masks, base, 64 * blocks, 64 * block + cl + 3, out, next, intrinsic);
  }

  /** The block loop shared by the four kernels. */
  method Run(dst: seq<byte>, mem: seq<byte>, masks: seq<bv64>, base: nat, blocks: nat, intrinsic: bool, unrolled: bool)
    returns (out: seq<byte>, cur: nat)
    requires 64 * blocks <= |masks| && Fits(mem, masks, base, 64 * blocks, false)
    requires |dst| == 4096 * blocks
    ensures out == Decompress(mem, masks, base, blocks)
    ensures cur == FinalCursor(masks, base, blocks)
  {
    RunStart(mem, masks, base, blocks, dst);
    out, cur := dst, base;
    for block := 0 to blocks
      invariant AtRow(mem, masks, base, 64 * blocks, 64 * block, out, cur)
    {
      if unrolled {
        out, cur := Block4(mem, masks, base, blocks, block, out, cur, intrinsic);
      } else {
        out, cur := Block(mem, masks, base, blocks, block, out, cur, intrinsic);
      }
    }
    RunDone(mem, masks, base, blocks, out, cur);
  }

  /** `decompress_scalar_nounroll`: whatever the destination held, it ends
      up holding the reference output, and the cursor ends at the
      reference's final cursor. */
  method ScalarNoUnroll(dst: seq<byte>, mem: seq<byte>, masks: seq<bv64>, base: nat, blocks: nat)
    returns (out: seq<byte>, cur: nat)
    requires 64 * blocks <= |masks| && Fits(mem, masks, base, 64 * blocks, false)
    requires |dst| == 4096 * blocks
    ensures out == Decompress(mem, masks, base, blocks)
    ensures cur == FinalCursor(masks, base, blocks)
  {
    out, cur := Run(dst, mem, masks, base, blocks, false, false);
  }

  /** `decompress_scalar`, the four-times unrolled scalar kernel. */
  method ScalarUnrolled(dst: seq<byte>, mem: seq<byte>, masks: seq<bv64>, base: nat, blocks: nat)
    returns (out: seq<byte>, cur: nat)
    requires 64 * blocks <= |masks| && Fits(mem, masks, base, 64 * blocks, false)
    requires |dst| == 4096 * blocks
    ensures out == Decompress(mem, masks, base, blocks)
    ensures cur == FinalCursor(masks, base, blocks)
  {
    out, cur := Run(dst, mem, masks, base, blocks, false, true);
  }

  /** `decompress_avx512_nounroll`. */
  method IntrinsicNoUnroll(dst: seq<byte>, mem: seq<byte>, masks: seq<bv64>, base: nat, blocks: nat)
    returns (out: seq<byte>, cur: nat)
    requires 64 * blocks <= |masks| && Fits(mem, masks, base, 64 * blocks, false)
    requires |dst| == 4096 * blocks
    ensures out == Decompress(mem, masks, base, blocks)
    ensures cur == FinalCursor(masks, base, blocks)
  {
    out, cur := Run(dst, mem, masks, base, blocks, true, false);
  }

  /** `decompress_avx512`, the four-times unrolled intrinsic kernel. */
  method IntrinsicUnrolled(dst: seq<byte>, mem: seq<byte>, masks: seq<bv64>, base: nat, blocks: nat)
    returns (out: seq<byte>, cur: nat)
    requires 64 * blocks <= |masks| && Fits(mem, masks, base, 64 * blocks, false)
    requires |dst| == 4096 * blocks
    ensures out == Decompress(mem, masks, base, blocks)
    ensures cur == FinalCursor(masks, base, blocks)
  {
    out, cur := Run(dst, mem, masks, base, blocks, true, true);
  }
}
