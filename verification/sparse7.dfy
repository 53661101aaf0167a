/** The masked-load kernel generator (`SparseDecompressKernel`): its block
    count, its register tables, the operations it emits per row, and the
    proof that the emitted kernel computes the decompression without
    realignment.

    Per row it loads the mask word, counts its bits, builds the
    lowest-`P`-bits load mask, does a zero-masked load of the `P` packed
    bytes, advances the cursor by `P`, and expands under the row mask. No
    byte past the cursor plus `P` is ever read, and the cursor is never
    rounded between blocks. */
module Sparse7 {
  import opened Wrappers
  import opened Bits
  import opened Expansion
  import opened Seqs
  import opened LoadMask
  import opened RowIr
  import opened Reference
  import opened Progress
  import X86
  import Frames

  // ---------------------------------------------------------------------
  // Block count.

  const AOuterBlkSz: nat := 16
  const BBlkSz: nat := 64
  const AInnerBlkSz: nat := 4

  /** Elements per block: 16 * 64 * 4. */
  const BlkSz: nat := AOuterBlkSz * BBlkSz * AInnerBlkSz

  /** `nblks_to_decompress_ = K_blk * b_blk_sz_ / blk_sz_`: the number of whole
      4096-byte blocks in `K_blk` rows of 64 bytes. */
  function BlockCount(kBlk: nat): (n: nat)
    ensures n * 4096 <= kBlk * 64 < (n + 1) * 4096
  {
    kBlk * BBlkSz / BlkSz
  }

  /** The test's `K_blk = 128` gives two blocks, 128 rows. */
  lemma TestBlockCount()
    ensures BlkSz == 4096
    ensures BlockCount(128) == 2
  {
  }

  // ---------------------------------------------------------------------
  // Register tables.

  /** `get_zmm`: the vector register of each unroll slot. */
  function ZmmOf(u: Slot): nat
  {
    if u == 0 then 25 else if u == 1 then 26 else if u == 2 then 27 else 28
  }

  /** `get_opmask`, which `get_expand_mask` returns too: `k1 .. k4`. */
  function OpmaskOf(u: Slot): X86.Opmask
  {
    if u == 0 then 1 else if u == 1 then 2 else if u == 2 then 3 else 4
  }

  /** `get_reg_mask_tmp`: the general register holding each slot's mask word. */
  function MaskTmpOf(u: Slot): X86.Gpr
  {
    if u == 0 then X86.R13 else if u == 1 then X86.R14 else if u == 2 then X86.R15 else X86.RAX
  }

  /** Registers with a fixed role in the kernel: stream, destination and mask
      pointers (`r8`, `r9`, `r10`), the load-mask scratch (`r11`, `r12`) and
      the popcount (`rcx`). */
  predicate FixedRole(r: X86.Gpr)
  {
    r == X86.R8 || r == X86.R9 || r == X86.R10 || r == X86.R11 || r == X86.R12 || r == X86.RCX
  }

  /** The four slots never share a vector register, an opmask or a mask
      temporary; no slot uses `k0` (which cannot act as a write mask); and no
      mask temporary is a register the load-mask construction or the
      pointers occupy. So the four rows of a group cannot disturb each other,
      which is what lets the model treat slots as independent. */
  lemma RegisterTables()
    ensures forall u: Slot, v: Slot :: u != v ==> ZmmOf(u) != ZmmOf(v)
    ensures forall u: Slot, v: Slot :: u != v ==> OpmaskOf(u) != OpmaskOf(v)
    ensures forall u: Slot, v: Slot :: u != v ==> MaskTmpOf(u) != MaskTmpOf(v)
    ensures forall u: Slot :: OpmaskOf(u) != 0
    ensures forall u: Slot :: !FixedRole(MaskTmpOf(u))
  {
  }

  /** Every general register the kernel writes is among the ten it saves on
      entry and restores on exit. */
  lemma ClobberedAreSaved()
    ensures forall u: Slot :: X86.G(MaskTmpOf(u)) in Frames.Sparse7Saved
    ensures forall r: X86.Gpr :: FixedRole(r) ==> X86.G(r) in Frames.Sparse7Saved
  {
  }

  // ---------------------------------------------------------------------
  // The emitted operations.

  function Row7(b: nat, i: nat, uf: Slot): seq<Op>
  {
    var blkOffset := b * 4096;
    var bitmaskOff := blkOffset / 8;
    [MaskLoad(uf, (i + uf) * 8 + bitmaskOff), Popcnt(uf), LoadMaskK(uf), MaskedLoad(uf),
     Advance, MaskToK(uf), ExpandK(uf), Store(uf, blkOffset + (i + uf) * 64)]
  }

  lemma MaskedLoadLow(p: nat, mem: seq<byte>, a: nat)
    requires p <= 64 && a + p <= |mem|
    ensures LanesInRange(LowMask(p), mem, a)
    ensures MaskedBytes(LowMask(p), mem, a)[..p] == mem[a..a + p]
  {
    LowMaskShape(p);
    assert LanesInRange(LowMask(p), mem, a);
    var v := MaskedBytes(LowMask(p), mem, a);
    assert forall j :: 0 <= j < p ==> v[..p][j] == mem[a..a + p][j];
  }

  lemma Row7Ops(b: nat, i: nat, uf: Slot)
    ensures var ops := Row7(b, i, uf);
      && |ops| == 8
      && ops[0] == MaskLoad(uf, (i + uf) * 8 + (b * 4096) / 8) && ops[1] == Popcnt(uf)
      && ops[2] == LoadMaskK(uf) && ops[3] == MaskedLoad(uf)
      && ops[4] == Advance && ops[5] == MaskToK(uf)
      && ops[6] == ExpandK(uf) && ops[7] == Store(uf, b * 4096 + (i + uf) * 64)
  {
  }

  /** The masked load under the lowest-`P`-bits mask, then the zeroing
      expand under the row mask, is the row's expansion of the stream. */
  lemma MaskedRowIsExpand(m: bv64, mem: seq<byte>, a: nat)
    requires a + Popcount(m) <= |mem|
    ensures LanesInRange(LowMask(Popcount(m)), mem, a)
    ensures ExpandInstr(m, MaskedBytes(LowMask(Popcount(m)), mem, a)) == Expand(m, mem[a..])
  {
    var p := Popcount(m);
    MaskedLoadLow(p, mem, a);
    var v := MaskedBytes(LowMask(p), mem, a);
    ExpandInstrIsExpand(m, v);
    assert mem[a..][..p] == mem[a..a + p];
    ExpandReadsOnlyPopcount(m, v, mem[a..]);
  }

  lemma Row7Effect(env: Env, b: nat, i: nat, uf: Slot, s: Vm)
    requires 64 * b + i + uf < |env.masks|
    requires env.base <= s.src && s.src - env.base + Popcount(env.masks[64 * b + i + uf]) <= |env.mem|
    requires 64 * (64 * b + i + uf) + 64 <= |s.dst|
    ensures var g := 64 * b + i + uf;
      var r := Exec(env, Row7(b, i, uf), s);
      && r.Some?
      && r.value.src == s.src + Popcount(env.masks[g])
      && r.value.dst == Splice(s.dst, 64 * g, Expand(env.masks[g], env.mem[s.src - env.base..]))
  {
    hide *;
    var g := 64 * b + i + uf;
    MaskByteOffset(b, i + uf);
    assert b * 4096 + (i + uf) * 64 == 64 * g;
    Row7Ops(b, i, uf);
    var ops := Row7(b, i, uf);
    var front := ops[..4];
    var back := ops[4..];
    assert ops == front + back;
    var s4 := Row7Front(env, g, (i + uf) * 8 + (b * 4096) / 8, uf, s, front);
    var s8 := Row7Back(env, uf, 64 * g, s4, back);
    ExecThen(env, front, back, s, s4);
  }

  /** Load the mask word, count it, build the load mask and do the masked
      load: the vector now holds what the expand turns into the row. */
  lemma Row7Front(env: Env, g: nat, off: nat, uf: Slot, s: Vm, ops: seq<Op>) returns (s4: Vm)
    requires off % 8 == 0 && off / 8 == g < |env.masks|
    requires env.base <= s.src && s.src - env.base + Popcount(env.masks[g]) <= |env.mem|
    requires ops == [MaskLoad(uf, off), Popcnt(uf), LoadMaskK(uf), MaskedLoad(uf)]
    ensures Exec(env, ops, s) == Some(s4)
    ensures s4.src == s.src && s4.dst == s.dst
    ensures s4.cnt == Popcount(env.masks[g]) && s4.tmp(uf) == env.masks[g]
    ensures ExpandInstr(env.masks[g], s4.zmm(uf)) == Expand(env.masks[g], env.mem[s.src - env.base..])
  {
    hide *;
    var m := env.masks[g];
    var p := Popcount(m);
    LoadMaskIsLowMask(p);
    MaskedRowIsExpand(m, env.mem, s.src - env.base);
    var s1 := StepMaskLoad(env, uf, off, s);
    var s2 := StepPopcnt(env, uf, s1);
    var s3 := StepLoadMaskK(env, uf, s2);
    s4 := StepMaskedLoad(env, uf, s3);
    ExecSteps4(env, ops, s, s1, s2, s3, s4);
  }

  /** Advance the cursor, move the mask word to the opmask, expand and
      store the row. */
  lemma Row7Back(env: Env, uf: Slot, dOff: nat, s4: Vm, ops: seq<Op>) returns (s8: Vm)
    requires dOff + 64 <= |s4.dst|
    requires ops == [Advance, MaskToK(uf), ExpandK(uf), Store(uf, dOff)]
    ensures Exec(env, ops, s4) == Some(s8)
    ensures s8.src == s4.src + s4.cnt
    ensures s8.dst == Splice(s4.dst, dOff, ExpandInstr(s4.tmp(uf), s4.zmm(uf)))
  {
    hide *;
    var s5 := StepAdvance(env, s4);
    var s6 := StepMaskToK(env, uf, s5);
    var s7 := StepExpandK(env, uf, s6);
    s8 := StepStore(env, uf, dOff, s7);
    ExecSteps4(env, ops, s4, s5, s6, s7, s8);
  }

  /** The four rows of one unrolled iteration `i` of block `b`. */
  function Group7(b: nat, i: nat): seq<Op>
  {
    Row7(b, i, 0) + Row7(b, i, 1) + Row7(b, i, 2) + Row7(b, i, 3)
  }

  /** The first `k` iterations (`i = 0, 4, .., 4 * (k - 1)`) of block `b`. */
  function Groups7(b: nat, k: nat): seq<Op>
  {
    if k == 0 then [] else Groups7(b, k - 1) + Group7(b, 4 * (k - 1))
  }

  /** `generate_code` for `nblks` blocks, without the register frame. */
  function Gen7(nblks: nat): seq<Op>
  {
    if nblks == 0 then [] else Gen7(nblks - 1) + Groups7(nblks - 1, 16)
  }

  /** The kernel built for `K_blk` rows. */
  function Kernel7(kBlk: nat): seq<Op>
  {
    Gen7(BlockCount(kBlk))
  }

  // ---------------------------------------------------------------------
  // Correctness.

  lemma Row7Step(env: Env, n: nat, b: nat, i: nat, uf: Slot, s: Vm) returns (t: Vm)
    requires 64 * b + i + uf < n <= |env.masks| && PackedFits(env.mem, env.masks, env.base, n)
    requires PackedAt(env.mem, env.masks, env.base, n, 64 * b + i + uf, s.dst, s.src)
    ensures Exec(env, Row7(b, i, uf), s) == Some(t)
    ensures PackedAt(env.mem, env.masks, env.base, n, 64 * b + i + uf + 1, t.dst, t.src)
  {
    hide *;
    var g := 64 * b + i + uf;
    PackedFitsAt(env.mem, env.masks, env.base, n, g);
    PackedAtShape(env.mem, env.masks, env.base, n, g, s.dst, s.src);
    Row7Effect(env, b, i, uf, s);
    t := Exec(env, Row7(b, i, uf), s).value;
    PackedRowDone(env.mem, env.masks, env.base, n, g, s.dst, s.src, t.dst, Popcount(env.masks[g]));
  }

  lemma PackedAtShape(mem: seq<byte>, masks: seq<bv64>, base: nat, n: nat, g: nat, dst: seq<byte>, cur: nat)
    requires g < n <= |masks| && PackedFits(mem, masks, base, n)
    requires PackedAt(mem, masks, base, n, g, dst, cur)
    ensures cur == PackedStart(masks, base, g) >= base
    ensures 64 * g + 64 <= |dst|
  {
  }

  lemma Group7Step(env: Env, n: nat, b: nat, i: nat, s: Vm) returns (t: Vm)
    requires 64 * b + i + 4 <= n <= |env.masks| && PackedFits(env.mem, env.masks, env.base, n)
    requires PackedAt(env.mem, env.masks, env.base, n, 64 * b + i, s.dst, s.src)
    ensures Exec(env, Group7(b, i), s) == Some(t)
    ensures PackedAt(env.mem, env.masks, env.base, n, 64 * b + i + 4, t.dst, t.src)
  {
    hide *;
    var t1 := Row7Step(env, n, b, i, 0, s);
    var t2 := Row7Step(env, n, b, i, 1, t1);
    ExecThen(env, Row7(b, i, 0), Row7(b, i, 1), s, t1);
    var t3 := Row7Step(env, n, b, i, 2, t2);
    ExecThen(env, Row7(b, i, 0) + Row7(b, i, 1), Row7(b, i, 2), s, t2);
    t := Row7Step(env, n, b, i, 3, t3);
    ExecThen(env, Row7(b, i, 0) + Row7(b, i, 1) + Row7(b, i, 2), Row7(b, i, 3), s, t3);
    Group7Is(b, i);
  }

  lemma Group7Is(b: nat, i: nat)
    ensures Group7(b, i) == Row7(b, i, 0) + Row7(b, i, 1) + Row7(b, i, 2) + Row7(b, i, 3)
  {
  }

  lemma {:induction false} Groups7Step(env: Env, n: nat, b: nat, k: nat, s: Vm) returns (t: Vm)
    requires k <= 16 && 64 * b + 64 <= n <= |env.masks| && PackedFits(env.mem, env.masks, env.base, n)
    requires PackedAt(env.mem, env.masks, env.base, n, 64 * b, s.dst, s.src)
    ensures Exec(env, Groups7(b, k), s) == Some(t)
    ensures PackedAt(env.mem, env.masks, env.base, n, 64 * b + 4 * k, t.dst, t.src)
    decreases k
  {
    hide *;
    Groups7Is(b, k);
    if k == 0 {
      ExecEmpty(env, s);
      t := s;
    } else {
      var mid := Groups7Step(env, n, b, k - 1, s);
      t := Group7Step(env, n, b, 4 * (k - 1), mid);
      ExecThen(env, Groups7(b, k - 1), Group7(b, 4 * (k - 1)), s, mid);
    }
  }

  lemma Groups7Is(b: nat, k: nat)
    ensures k == 0 ==> Groups7(b, k) == []
    ensures k > 0 ==> Groups7(b, k) == Groups7(b, k - 1) + Group7(b, 4 * (k - 1))
  {
  }

  lemma Gen7Is(nblks: nat)
    ensures nblks == 0 ==> Gen7(nblks) == []
    ensures nblks > 0 ==> Gen7(nblks) == Gen7(nblks - 1) + Groups7(nblks - 1, 16)
  {
  }

  lemma {:induction false} Gen7Step(env: Env, n: nat, nblks: nat, s: Vm) returns (t: Vm)
    requires 64 * nblks <= n <= |env.masks| && PackedFits(env.mem, env.masks, env.base, n)
    requires PackedAt(env.mem, env.masks, env.base, n, 0, s.dst, s.src)
    ensures Exec(env, Gen7(nblks), s) == Some(t)
    ensures PackedAt(env.mem, env.masks, env.base, n, 64 * nblks, t.dst, t.src)
    decreases nblks
  {
    hide *;
    Gen7Is(nblks);
    if nblks == 0 {
      ExecEmpty(env, s);
      t := s;
    } else {
      var mid := Gen7Step(env, n, nblks - 1, s);
      t := Groups7Step(env, n, nblks - 1, 16, mid);
      ExecThen(env, Gen7(nblks - 1), Groups7(nblks - 1, 16), s, mid);
    }
  }

  /** The emitted kernel, started with the cursor at the stream's base and
      any register and destination contents, runs without a fault and leaves
      the rows of the reference without realignment in the destination and
      the cursor at the base plus the popcounts of all rows. */
  lemma Gen7Correct(env: Env, blocks: nat, s: Vm) returns (t: Vm)
    requires 64 * blocks <= |env.masks| && PackedFits(env.mem, env.masks, env.base, 64 * blocks)
    requires s.src == env.base && |s.dst| == 4096 * blocks
    ensures Exec(env, Gen7(blocks), s) == Some(t)
    ensures t.dst == PackedDecompress(env.mem, env.masks, env.base, blocks)
    ensures t.src == PackedFinal(env.masks, env.base, blocks)
  {
    PackedRunStart(env.mem, env.masks, env.base, blocks, s.dst);
    t := Gen7Step(env, 64 * blocks, blocks, s);
    PackedRunDone(env.mem, env.masks, env.base, blocks, t.dst, t.src);
  }

  /** When the base is 64-aligned and every block's popcounts sum to a
      multiple of 64, the kernel's output and final cursor are those of the
      realigning reference. */
  lemma Gen7MatchesRealigning(env: Env, blocks: nat, s: Vm) returns (t: Vm)
    requires 64 * blocks <= |env.masks| && PackedFits(env.mem, env.masks, env.base, 64 * blocks)
    requires env.base % 64 == 0
    requires forall b :: 0 <= b < blocks ==> SumPop(env.masks, 64 * b, 64 * (b + 1)) % 64 == 0
    requires s.src == env.base && |s.dst| == 4096 * blocks
    ensures Exec(env, Gen7(blocks), s) == Some(t)
    ensures Fits(env.mem, env.masks, env.base, 64 * blocks, false)
    ensures t.dst == Decompress(env.mem, env.masks, env.base, blocks)
    ensures t.src == FinalCursor(env.masks, env.base, blocks)
  {
    t := Gen7Correct(env, blocks, s);
    forall g | 0 <= g <= 64 * blocks
      ensures RowStart(env.masks, env.base, g) == PackedStart(env.masks, env.base, g)
    {
      PackedIsAligned(env.masks, env.base, g);
    }
    PackedRowsIsRows(env.mem, env.masks, env.base, 64 * blocks);
  }

  // ---------------------------------------------------------------------
  // The size of the mask array.

  lemma {:induction false} Groups7Head(b: nat, k: nat)
    requires 0 < k
    ensures 0 < |Groups7(b, k)|
    ensures Groups7(b, k)[0] == MaskLoad(0, (b * 4096) / 8)
    decreases k
  {
    Groups7Is(b, k);
    if k == 1 {
      Groups7Is(b, 0);
      Group7Is(b, 0);
      Row7Ops(b, 0, 0);
    } else {
      Groups7Head(b, k - 1);
    }
  }

  /** A list whose first operation faults does nothing else. */
  lemma ExecHeadFails(env: Env, ops: seq<Op>, s: Vm)
    requires 0 < |ops| && Step(env, ops[0], s).None?
    ensures Exec(env, ops, s).None?
  {
  }

  /** The last block of an `nblks`-block kernel starts by loading mask word
      `64 * (nblks - 1)`: a mask array that does not reach that word makes
      the kernel fault, whatever the stream and the registers hold. */
  lemma ShortMasksFault(env: Env, nblks: nat, s: Vm)
    requires 0 < nblks && |env.masks| <= 64 * (nblks - 1)
    ensures Exec(env, Gen7(nblks), s).None?
  {
    hide *;
    Gen7Is(nblks);
    var head := Gen7(nblks - 1);
    var last := Groups7(nblks - 1, 16);
    Groups7Head(nblks - 1, 16);
    MaskByteOffset(nblks - 1, 0);
    match Exec(env, head, s)
    case None =>
      ExecFailsPrefix(env, head, last, s);
    case Some(t) =>
      StepFails(env, last[0], t);
      ExecHeadFails(env, last, t);
      ExecThen(env, head, last, s, t);
  }

  /** The test driver builds the kernel for `K_blk = 128`, two blocks, but
      fills a mask array of 64 words: the second block's first mask load
      lies past the end of the array. */
  lemma DriverMasksTooShort(env: Env, s: Vm)
    requires |env.masks| == 64
    ensures BlockCount(128) == 2
    ensures Exec(env, Kernel7(128), s).None?
  {
    TestBlockCount();
    ShortMasksFault(env, 2, s);
  }

  /** With one mask word per row the kernel processes (128 for
      `K_blk = 128`) and a stream holding the packed bytes of all those
      rows, the driver's kernel runs and fills both blocks. */
  lemma DriverMasksSized(env: Env, s: Vm) returns (t: Vm)
    requires |env.masks| == 128 && PackedFits(env.mem, env.masks, env.base, 128)
    requires s.src == env.base && |s.dst| == 8192
    ensures Exec(env, Kernel7(128), s) == Some(t)
    ensures t.dst == PackedDecompress(env.mem, env.masks, env.base, 2)
    ensures t.src == PackedFinal(env.masks, env.base, 2)
  {
    TestBlockCount();
    t := Gen7Correct(env, 2, s);
  }
}
