/** The unmasked-load kernel generator (`jit_decompress_kernel_t`): the
    operations it emits, and the proof that the emitted kernel computes the
    reference decompression, 64-byte realignment between blocks included.

    Each iteration handles four rows in three phases: load the four mask
    words into the mask temporaries and opmasks; for each row do a full
    64-byte load at the cursor, count the mask's bits and advance the cursor;
    then expand and store the four rows. The full load reads up to 64 bytes
    past the cursor whatever the popcount, so the stream must have that much
    slack after every row. */
module Jit5 {
  import opened Wrappers
  import opened Bits
  import opened Expansion
  import opened Alignment
  import opened Seqs
  import opened RowIr
  import opened Reference
  import opened Progress

  // ---------------------------------------------------------------------
  // The emitted operations.

  /** `mov tmp_u, [mask + (cl + u) * 8 + bitmask_off]; kmovq k_u, tmp_u`. */
  function MaskOps(b: nat, cl: nat, u: Slot): seq<Op>
  {
    [MaskLoad(u, (cl + u) * 8 + (b * 4096) / 8), MaskToK(u)]
  }

  /** `vmovdqu8 zmm_u, [src]; popcnt rax, tmp_u; add src, rax`. */
  function LoadOps(u: Slot): seq<Op>
  {
    [Load(u), Popcnt(u), Advance]
  }

  /** `vpexpandb zmm_u{k_u}{z}, zmm_u; vmovdqu8 [dst + wei_offset + (cl + u) * 64], zmm_u`. */
  function StoreOps(b: nat, cl: nat, u: Slot): seq<Op>
  {
    [ExpandK(u), Store(u, b * 4096 + (cl + u) * 64)]
  }

  function MaskPhase(b: nat, cl: nat): seq<Op>
  {
    MaskOps(b, cl, 0) + MaskOps(b, cl, 1) + MaskOps(b, cl, 2) + MaskOps(b, cl, 3)
  }

  function LoadPhase(): seq<Op>
  {
    LoadOps(0) + LoadOps(1) + LoadOps(2) + LoadOps(3)
  }

  function StorePhase(b: nat, cl: nat): seq<Op>
  {
    StoreOps(b, cl, 0) + StoreOps(b, cl, 1) + StoreOps(b, cl, 2) + StoreOps(b, cl, 3)
  }

  /** One iteration `cl` (a multiple of 4) of block `b`'s row loop. */
  function Group5(b: nat, cl: nat): seq<Op>
  {
    MaskPhase(b, cl) + LoadPhase() + StorePhase(b, cl)
  }

  /** The first `k` iterations (`cl = 0, 4, .., 4 * (k - 1)`) of block `b`. */
  function Groups5(b: nat, k: nat): seq<Op>
  {
    if k == 0 then [] else Groups5(b, k - 1) + Group5(b, 4 * (k - 1))
  }

  /** Block `b`: sixteen iterations, then the cursor fix-up. */
  function Block5(b: nat): seq<Op>
  {
    Groups5(b, 16) + [Align]
  }

  /** `generate()` for `blocks` blocks, without the register frame. */
  function Gen5(blocks: nat): seq<Op>
  {
    if blocks == 0 then [] else Gen5(blocks - 1) + Block5(blocks - 1)
  }

  // ---------------------------------------------------------------------
  // Each phase.

  lemma MaskOpsStep(env: Env, b: nat, cl: nat, u: Slot, s: Vm) returns (t: Vm)
    requires 64 * b + cl + u < |env.masks|
    ensures Exec(env, MaskOps(b, cl, u), s) == Some(t)
    ensures t == s.(tmp := SetW(s.tmp, u, env.masks[64 * b + cl + u]), k := SetW(s.k, u, env.masks[64 * b + cl + u]))
  {
    hide *;
    MaskByteOffset(b, cl + u);
    var t1 := StepMaskLoad(env, u, (cl + u) * 8 + (b * 4096) / 8, s);
    t := StepMaskToK(env, u, t1);
    MaskOpsIs(b, cl, u);
    ExecSteps2(env, MaskOps(b, cl, u), s, t1, t);
  }

  lemma MaskOpsIs(b: nat, cl: nat, u: Slot)
    ensures MaskOps(b, cl, u) == [MaskLoad(u, (cl + u) * 8 + (b * 4096) / 8), MaskToK(u)]
  {
  }

  /** After the mask phase each slot's temporary and opmask hold its row's
      mask word; the cursor, the destination and the vectors are untouched. */
  lemma MaskPhaseStep(env: Env, b: nat, cl: nat, s: Vm) returns (t: Vm)
    requires 64 * b + cl + 4 <= |env.masks|
    ensures Exec(env, MaskPhase(b, cl), s) == Some(t)
    ensures t.src == s.src && t.dst == s.dst && t.zmm == s.zmm
    ensures t.tmp(0) == env.masks[64 * b + cl] && t.k(0) == env.masks[64 * b + cl]
    ensures t.tmp(1) == env.masks[64 * b + cl + 1] && t.k(1) == env.masks[64 * b + cl + 1]
    ensures t.tmp(2) == env.masks[64 * b + cl + 2] && t.k(2) == env.masks[64 * b + cl + 2]
    ensures t.tmp(3) == env.masks[64 * b + cl + 3] && t.k(3) == env.masks[64 * b + cl + 3]
  {
    hide *;
    var t1 := MaskOpsStep(env, b, cl, 0, s);
    var t2 := MaskOpsStep(env, b, cl, 1, t1);
    ExecThen(env, MaskOps(b, cl, 0), MaskOps(b, cl, 1), s, t1);
    var t3 := MaskOpsStep(env, b, cl, 2, t2);
    ExecThen(env, MaskOps(b, cl, 0) + MaskOps(b, cl, 1), MaskOps(b, cl, 2), s, t2);
    t := MaskOpsStep(env, b, cl, 3, t3);
    ExecThen(env, MaskOps(b, cl, 0) + MaskOps(b, cl, 1) + MaskOps(b, cl, 2), MaskOps(b, cl, 3), s, t3);
    MaskPhaseIs(b, cl);
  }

  lemma MaskPhaseIs(b: nat, cl: nat)
    ensures MaskPhase(b, cl) == MaskOps(b, cl, 0) + MaskOps(b, cl, 1) + MaskOps(b, cl, 2) + MaskOps(b, cl, 3)
  {
  }

  lemma LoadOpsStep(env: Env, u: Slot, s: Vm) returns (t: Vm)
    requires env.base <= s.src && s.src - env.base + 64 <= |env.mem|
    ensures Exec(env, LoadOps(u), s) == Some(t)
    ensures t == s.(zmm := SetV(s.zmm, u, env.mem[s.src - env.base..s.src - env.base + 64]),
                    cnt := Popcount(s.tmp(u)), src := s.src + Popcount(s.tmp(u)))
  {
    hide *;
    var t1 := StepLoad(env, u, s);
    var t2 := StepPopcnt(env, u, t1);
    t := StepAdvance(env, t2);
    LoadOpsIs(u);
    ExecSteps3(env, LoadOps(u), s, t1, t2, t);
  }

  lemma LoadOpsIs(u: Slot)
    ensures LoadOps(u) == [Load(u), Popcnt(u), Advance]
  {
  }

  /** Row `g` has 64 readable stream bytes from its cursor on. */
  predicate Slack(env: Env, g: nat)
  {
    g < |env.masks| && RowStart(env.masks, env.base, g) - env.base + 64 <= |env.mem|
  }

  /** The 64-byte window at the cursor of row `g`, where a full load reads. */
  function Window(env: Env, g: nat): (w: seq<byte>)
    requires Slack(env, g)
    ensures |w| == 64
  {
    env.mem[RowStart(env.masks, env.base, g) - env.base..RowStart(env.masks, env.base, g) - env.base + 64]
  }

  /** A full load at row `g`'s cursor reads its window. */
  lemma LoadIsWindow(env: Env, g: nat, s: Vm, u: Slot) returns (t: Vm)
    requires Slack(env, g) && s.src == RowStart(env.masks, env.base, g)
    ensures Exec(env, LoadOps(u), s) == Some(t)
    ensures t == s.(zmm := SetV(s.zmm, u, Window(env, g)),
                    cnt := Popcount(s.tmp(u)), src := s.src + Popcount(s.tmp(u)))
  {
    t := LoadOpsStep(env, u, s);
  }

  /** Each row has slack, and a row inside a block starts where the previous
      one ended. */
  lemma NextCursor(env: Env, n: nat, b: nat, r: nat)
    requires r < 64 && 64 * b + r < n <= |env.masks|
    requires Fits(env.mem, env.masks, env.base, n, true)
    ensures Slack(env, 64 * b + r)
    ensures 0 < r ==>
      RowStart(env.masks, env.base, 64 * b + r) ==
      RowStart(env.masks, env.base, 64 * b + r - 1) + Popcount(env.masks[64 * b + r - 1])
  {
    hide *;
    FitsAt(env.mem, env.masks, env.base, n, 64 * b + r, true);
    WideReach(env.masks[64 * b + r]);
    if 0 < r {
      RowInBlock(b, r);
      RowStartStep(env.masks, env.base, 64 * b + r);
    }
    SlackIs(env, 64 * b + r);
  }

  lemma SlackIs(env: Env, g: nat)
    ensures Slack(env, g) <==> g < |env.masks| && RowStart(env.masks, env.base, g) - env.base + 64 <= |env.mem|
  {
  }

  lemma WideReach(m: bv64)
    ensures Reach(m, true) == 64
  {
  }

  /** After the load phase slot `u` holds the 64-byte window at row
      `g + u`'s cursor, and the cursor has passed all four rows. */
  lemma LoadPhaseStep(env: Env, n: nat, b: nat, cl: nat, s: Vm) returns (t: Vm)
    requires cl % 4 == 0 && cl < 64 && 64 * b + cl + 4 <= n <= |env.masks|
    requires Fits(env.mem, env.masks, env.base, n, true)
    requires s.src == RowStart(env.masks, env.base, 64 * b + cl)
    requires s.tmp(0) == env.masks[64 * b + cl] && s.tmp(1) == env.masks[64 * b + cl + 1]
    requires s.tmp(2) == env.masks[64 * b + cl + 2] && s.tmp(3) == env.masks[64 * b + cl + 3]
    ensures Exec(env, LoadPhase(), s) == Some(t)
    ensures t.dst == s.dst && t.k == s.k
    ensures Slack(env, 64 * b + cl) && Slack(env, 64 * b + cl + 1)
    ensures Slack(env, 64 * b + cl + 2) && Slack(env, 64 * b + cl + 3)
    ensures t.zmm(0) == Window(env, 64 * b + cl) && t.zmm(1) == Window(env, 64 * b + cl + 1)
    ensures t.zmm(2) == Window(env, 64 * b + cl + 2) && t.zmm(3) == Window(env, 64 * b + cl + 3)
    ensures t.src == RowStart(env.masks, env.base, 64 * b + cl + 3) + Popcount(env.masks[64 * b + cl + 3])
  {
    hide *;
    NextCursor(env, n, b, cl);
    NextCursor(env, n, b, cl + 1);
    NextCursor(env, n, b, cl + 2);
    NextCursor(env, n, b, cl + 3);
    var t1 := LoadIsWindow(env, 64 * b + cl, s, 0);
    var t2 := LoadIsWindow(env, 64 * b + cl + 1, t1, 1);
    ExecThen(env, LoadOps(0), LoadOps(1), s, t1);
    var t3 := LoadIsWindow(env, 64 * b + cl + 2, t2, 2);
    ExecThen(env, LoadOps(0) + LoadOps(1), LoadOps(2), s, t2);
    t := LoadIsWindow(env, 64 * b + cl + 3, t3, 3);
    ExecThen(env, LoadOps(0) + LoadOps(1) + LoadOps(2), LoadOps(3), s, t3);
    LoadPhaseIs();
  }

  lemma LoadPhaseIs()
    ensures LoadPhase() == LoadOps(0) + LoadOps(1) + LoadOps(2) + LoadOps(3)
  {
  }

  lemma StoreOpsStep(env: Env, b: nat, cl: nat, u: Slot, s: Vm) returns (t: Vm)
    requires 64 * (64 * b + cl + u) + 64 <= |s.dst|
    ensures Exec(env, StoreOps(b, cl, u), s) == Some(t)
    ensures t == s.(zmm := SetV(s.zmm, u, ExpandInstr(s.k(u), s.zmm(u))),
                    dst := Splice(s.dst, 64 * (64 * b + cl + u), ExpandInstr(s.k(u), s.zmm(u))))
  {
    hide *;
    var t1 := StepExpandK(env, u, s);
    t := StepStore(env, u, 64 * (64 * b + cl + u), t1);
    StoreOpsIs(b, cl, u);
    ExecSteps2(env, StoreOps(b, cl, u), s, t1, t);
  }

  lemma StoreOpsIs(b: nat, cl: nat, u: Slot)
    ensures StoreOps(b, cl, u) == [ExpandK(u), Store(u, 64 * (64 * b + cl + u))]
  {
    assert b * 4096 + (cl + u) * 64 == 64 * (64 * b + cl + u);
  }

  /** What slot `u` stores: its vector expanded under its opmask. */
  function Expanded(s: Vm, u: Slot): Vec
  {
    ExpandInstr(s.k(u), s.zmm(u))
  }

  /** Storing slot `u` writes its expanded vector at row `g + u` and changes
      no other slot. */
  lemma StoreSlot(env: Env, b: nat, cl: nat, u: Slot, s: Vm) returns (t: Vm)
    requires 64 * (64 * b + cl + u) + 64 <= |s.dst|
    ensures Exec(env, StoreOps(b, cl, u), s) == Some(t)
    ensures t.src == s.src && t.k == s.k
    ensures t.dst == Splice(s.dst, 64 * (64 * b + cl + u), Expanded(s, u))
    ensures forall x: Slot :: x != u ==> t.zmm(x) == s.zmm(x)
  {
    t := StoreOpsStep(env, b, cl, u, s);
  }

  /** The store phase writes the four expanded vectors at rows `g .. g + 3`
      and moves nothing else. */
  lemma StorePhaseStep(env: Env, b: nat, cl: nat, s: Vm) returns (t: Vm)
    requires 64 * (64 * b + cl + 4) <= |s.dst|
    ensures Exec(env, StorePhase(b, cl), s) == Some(t)
    ensures t.src == s.src
    ensures t.dst ==
      Splice(Splice(Splice(Splice(s.dst,
        64 * (64 * b + cl), Expanded(s, 0)),
        64 * (64 * b + cl + 1), Expanded(s, 1)),
        64 * (64 * b + cl + 2), Expanded(s, 2)),
        64 * (64 * b + cl + 3), Expanded(s, 3))
  {
    hide *;
    var t1 := StoreSlot(env, b, cl, 0, s);
    SameExpanded(s, t1, 1);
    SameExpanded(s, t1, 2);
    SameExpanded(s, t1, 3);
    var t2 := StoreSlot(env, b, cl, 1, t1);
    ExecThen(env, StoreOps(b, cl, 0), StoreOps(b, cl, 1), s, t1);
    SameExpanded(t1, t2, 2);
    SameExpanded(t1, t2, 3);
    var t3 := StoreSlot(env, b, cl, 2, t2);
    ExecThen(env, StoreOps(b, cl, 0) + StoreOps(b, cl, 1), StoreOps(b, cl, 2), s, t2);
    SameExpanded(t2, t3, 3);
    t := StoreSlot(env, b, cl, 3, t3);
    ExecThen(env, StoreOps(b, cl, 0) + StoreOps(b, cl, 1) + StoreOps(b, cl, 2), StoreOps(b, cl, 3), s, t3);
    StorePhaseIs(b, cl);
  }

  lemma SameExpanded(s: Vm, t: Vm, u: Slot)
    requires t.k == s.k && t.zmm(u) == s.zmm(u)
    ensures Expanded(t, u) == Expanded(s, u)
  {
  }

  lemma StorePhaseIs(b: nat, cl: nat)
    ensures StorePhase(b, cl) == StoreOps(b, cl, 0) + StoreOps(b, cl, 1) + StoreOps(b, cl, 2) + StoreOps(b, cl, 3)
  {
  }

  // ---------------------------------------------------------------------
  // One iteration, one block, the whole kernel.

  /** Expanding a full 64-byte window gives the row: the bytes past the
      popcount that the load over-reads are never used. */
  lemma WindowRowIsExpand(m: bv64, mem: seq<byte>, a: nat)
    requires a + 64 <= |mem|
    ensures ExpandInstr(m, mem[a..a + 64]) == Expand(m, mem[a..])
  {
    var w := mem[a..a + 64];
    ExpandInstrIsExpand(m, w);
    assert w[..Popcount(m)] == mem[a..][..Popcount(m)];
    ExpandReadsOnlyPopcount(m, w, mem[a..]);
  }

  /** Row `g` expanded from the stream at its cursor. */
  function RowAt(env: Env, g: nat): (row: seq<byte>)
    requires Slack(env, g)
    ensures |row| == 64
  {
    Expand(env.masks[g], env.mem[RowStart(env.masks, env.base, g) - env.base..])
  }

  /** Slot `u` stores row `g` once its opmask holds the row's mask and its
      vector the window at the row's cursor. */
  lemma StoredRow(env: Env, g: nat, u: Slot, s: Vm)
    requires Slack(env, g)
    requires s.k(u) == env.masks[g] && s.zmm(u) == Window(env, g)
    ensures Expanded(s, u) == RowAt(env, g)
  {
    WindowRowIsExpand(env.masks[g], env.mem, RowStart(env.masks, env.base, g) - env.base);
  }

  /** Writing row `64 * b + r` at its place takes `AtRow` of that row to
      `AfterRow`, and to `AtRow` of the next row inside the block. */
  lemma RowStep5(env: Env, n: nat, b: nat, r: nat, dst: seq<byte>) returns (out: seq<byte>)
    requires r < 64 && 64 * b + r < n <= |env.masks|
    requires Fits(env.mem, env.masks, env.base, n, true) && Fits(env.mem, env.masks, env.base, n, false)
    requires AtRow(env.mem, env.masks, env.base, n, 64 * b + r, dst, RowStart(env.masks, env.base, 64 * b + r))
    ensures Slack(env, 64 * b + r)
    ensures out == Splice(dst, 64 * (64 * b + r), RowAt(env, 64 * b + r))
    ensures AfterRow(env.mem, env.masks, env.base, n, 64 * b + r, out,
                     RowStart(env.masks, env.base, 64 * b + r) + Popcount(env.masks[64 * b + r]))
    ensures r + 1 < 64 && 64 * b + r + 1 < n ==>
      AtRow(env.mem, env.masks, env.base, n, 64 * b + r + 1, out, RowStart(env.masks, env.base, 64 * b + r + 1))
  {
    hide *;
    var g := 64 * b + r;
    var c := RowStart(env.masks, env.base, g);
    NextCursor(env, n, b, r);
    RowAtFits(env, g);
    AtRowShape(env.mem, env.masks, env.base, n, g, dst, c);
    out := Splice(dst, 64 * g, RowAt(env, g));
    RowDone(env.mem, env.masks, env.base, n, g, dst, c, out, Popcount(env.masks[g]));
    if r + 1 < 64 && g + 1 < n {
      NextCursor(env, n, b, r + 1);
      RowInBlock(b, r + 1);
      NextInBlock(env.mem, env.masks, env.base, n, g, out, c + Popcount(env.masks[g]));
    }
  }

  lemma RowAtFits(env: Env, g: nat)
    requires Slack(env, g)
    ensures RowStart(env.masks, env.base, g) - env.base + Popcount(env.masks[g]) <= |env.mem|
    ensures RowAt(env, g) == Expand(env.masks[g], env.mem[RowStart(env.masks, env.base, g) - env.base..])
  {
    hide RowStart, Expand, Popcount, PopBelow;
  }

  lemma AtRowShape(mem: seq<byte>, masks: seq<bv64>, base: nat, n: nat, g: nat, dst: seq<byte>, cur: nat)
    requires g <= n <= |masks| && Fits(mem, masks, base, n, false)
    requires AtRow(mem, masks, base, n, g, dst, cur)
    ensures |dst| == 64 * n && cur == RowStart(masks, base, g)
  {
  }

  /** One iteration takes the run from `AtRow(g)` to `AfterRow(g + 3)`, and
      to `AtRow(g + 4)` when the block has more rows. */
  lemma Group5Step(env: Env, n: nat, b: nat, cl: nat, s: Vm) returns (t: Vm)
    requires cl % 4 == 0 && cl < 64 && 64 * b + cl + 4 <= n <= |env.masks| && 64 * b + 64 <= n
    requires Fits(env.mem, env.masks, env.base, n, true) && Fits(env.mem, env.masks, env.base, n, false)
    requires AtRow(env.mem, env.masks, env.base, n, 64 * b + cl, s.dst, s.src)
    ensures Exec(env, Group5(b, cl), s) == Some(t)
    ensures AfterRow(env.mem, env.masks, env.base, n, 64 * b + cl + 3, t.dst, t.src)
    ensures cl + 4 < 64 ==> AtRow(env.mem, env.masks, env.base, n, 64 * b + cl + 4, t.dst, t.src)
  {
    hide *;
    var g := 64 * b + cl;
    AtRowShape(env.mem, env.masks, env.base, n, g, s.dst, s.src);
    var t1 := MaskPhaseStep(env, b, cl, s);
    var t2 := LoadPhaseStep(env, n, b, cl, t1);
    ExecThen(env, MaskPhase(b, cl), LoadPhase(), s, t1);
    t := StorePhaseStep(env, b, cl, t2);
    ExecThen(env, MaskPhase(b, cl) + LoadPhase(), StorePhase(b, cl), s, t2);
    Group5Is(b, cl);
    Group5Rows(env, n, b, cl, t2);
    Stored4Is(t2, g);
  }

  /** The destination after the store phase of the group at row `g`. */
  function Stored4(s: Vm, g: nat): (out: seq<byte>)
    requires 64 * g + 256 <= |s.dst|
    ensures |out| == |s.dst|
  {
    Splice(Splice(Splice(Splice(s.dst,
      64 * g, Expanded(s, 0)),
      64 * (g + 1), Expanded(s, 1)),
      64 * (g + 2), Expanded(s, 2)),
      64 * (g + 3), Expanded(s, 3))
  }

  lemma Stored4Is(s: Vm, g: nat)
    requires 64 * g + 256 <= |s.dst|
    ensures Stored4(s, g) ==
      Splice(Splice(Splice(Splice(s.dst,
        64 * g, Expanded(s, 0)),
        64 * (g + 1), Expanded(s, 1)),
        64 * (g + 2), Expanded(s, 2)),
        64 * (g + 3), Expanded(s, 3))
  {
  }

  /** The four rows the store phase writes are the reference rows, so the
      group takes the run from row `g` to past row `g + 3`. */
  lemma Group5Rows(env: Env, n: nat, b: nat, cl: nat, s: Vm)
    requires cl % 4 == 0 && cl < 64 && 64 * b + cl + 4 <= 64 * b + 64 <= n <= |env.masks| && |s.dst| == 64 * n
    requires Fits(env.mem, env.masks, env.base, n, true) && Fits(env.mem, env.masks, env.base, n, false)
    requires AtRow(env.mem, env.masks, env.base, n, 64 * b + cl, s.dst, RowStart(env.masks, env.base, 64 * b + cl))
    requires Slack(env, 64 * b + cl) && Slack(env, 64 * b + cl + 1)
    requires Slack(env, 64 * b + cl + 2) && Slack(env, 64 * b + cl + 3)
    requires s.k(0) == env.masks[64 * b + cl] && s.k(1) == env.masks[64 * b + cl + 1]
    requires s.k(2) == env.masks[64 * b + cl + 2] && s.k(3) == env.masks[64 * b + cl + 3]
    requires s.zmm(0) == Window(env, 64 * b + cl) && s.zmm(1) == Window(env, 64 * b + cl + 1)
    requires s.zmm(2) == Window(env, 64 * b + cl + 2) && s.zmm(3) == Window(env, 64 * b + cl + 3)
    ensures var g := 64 * b + cl;
      var out := Stored4(s, g);
      var next := RowStart(env.masks, env.base, g + 3) + Popcount(env.masks[g + 3]);
      && AfterRow(env.mem, env.masks, env.base, n, g + 3, out, next)
      && (cl + 4 < 64 ==> AtRow(env.mem, env.masks, env.base, n, g + 4, out, next))
  {
    hide *;
    var g := 64 * b + cl;
    Stored4Is(s, g);
    StoredRow(env, g, 0, s);
    StoredRow(env, g + 1, 1, s);
    StoredRow(env, g + 2, 2, s);
    StoredRow(env, g + 3, 3, s);
    var d1 := RowStep5(env, n, b, cl, s.dst);
    var d2 := RowStep5(env, n, b, cl + 1, d1);
    var d3 := RowStep5(env, n, b, cl + 2, d2);
    var d4 := RowStep5(env, n, b, cl + 3, d3);
    if cl + 4 < 64 {
      NextCursor(env, n, b, cl + 4);
    }
  }

  lemma Group5Is(b: nat, cl: nat)
    ensures Group5(b, cl) == MaskPhase(b, cl) + LoadPhase() + StorePhase(b, cl)
  {
  }

  lemma {:induction false} Groups5Step(env: Env, n: nat, b: nat, k: nat, s: Vm) returns (t: Vm)
    requires k <= 16 && 64 * b + 64 <= n <= |env.masks|
    requires Fits(env.mem, env.masks, env.base, n, true) && Fits(env.mem, env.masks, env.base, n, false)
    requires AtRow(env.mem, env.masks, env.base, n, 64 * b, s.dst, s.src)
    ensures Exec(env, Groups5(b, k), s) == Some(t)
    ensures k < 16 ==> AtRow(env.mem, env.masks, env.base, n, 64 * b + 4 * k, t.dst, t.src)
    ensures k == 16 ==> AfterRow(env.mem, env.masks, env.base, n, 64 * b + 63, t.dst, t.src)
    decreases k
  {
    hide *;
    Groups5Is(b, k);
    if k == 0 {
      ExecEmpty(env, s);
      t := s;
    } else {
      var mid := Groups5Step(env, n, b, k - 1, s);
      t := Group5Step(env, n, b, 4 * (k - 1), mid);
      ExecThen(env, Groups5(b, k - 1), Group5(b, 4 * (k - 1)), s, mid);
    }
  }

  lemma Groups5Is(b: nat, k: nat)
    ensures k == 0 ==> Groups5(b, k) == []
    ensures k > 0 ==> Groups5(b, k) == Groups5(b, k - 1) + Group5(b, 4 * (k - 1))
  {
  }

  /** The fix-up after a block moves the cursor to the next multiple of 64. */
  lemma AlignStep(env: Env, s: Vm) returns (t: Vm)
    ensures Exec(env, [Align], s) == Some(t)
    ensures t == s.(src := AlignUp(s.src))
  {
    t := StepAlign(env, s);
    ExecOne(env, Align, s);
    JitPadIsScalarPad(s.src);
  }

  lemma Block5Step(env: Env, n: nat, b: nat, s: Vm) returns (t: Vm)
    requires 64 * b + 64 <= n <= |env.masks|
    requires Fits(env.mem, env.masks, env.base, n, true) && Fits(env.mem, env.masks, env.base, n, false)
    requires AtRow(env.mem, env.masks, env.base, n, 64 * b, s.dst, s.src)
    ensures Exec(env, Block5(b), s) == Some(t)
    ensures AtRow(env.mem, env.masks, env.base, n, 64 * b + 64, t.dst, t.src)
  {
    hide *;
    var mid := Groups5Step(env, n, b, 16, s);
    RowInBlock(b, 64);
    NextBlock(env.mem, env.masks, env.base, n, 64 * b + 63, mid.dst, mid.src);
    t := AlignStep(env, mid);
    ExecThen(env, Groups5(b, 16), [Align], s, mid);
    Block5Is(b);
  }

  lemma Block5Is(b: nat)
    ensures Block5(b) == Groups5(b, 16) + [Align]
  {
  }

  lemma Gen5Is(blocks: nat)
    ensures blocks == 0 ==> Gen5(blocks) == []
    ensures blocks > 0 ==> Gen5(blocks) == Gen5(blocks - 1) + Block5(blocks - 1)
  {
  }

  lemma {:induction false} Gen5Step(env: Env, n: nat, blocks: nat, s: Vm) returns (t: Vm)
    requires 64 * blocks <= n <= |env.masks|
    requires Fits(env.mem, env.masks, env.base, n, true) && Fits(env.mem, env.masks, env.base, n, false)
    requires AtRow(env.mem, env.masks, env.base, n, 0, s.dst, s.src)
    ensures Exec(env, Gen5(blocks), s) == Some(t)
    ensures AtRow(env.mem, env.masks, env.base, n, 64 * blocks, t.dst, t.src)
    decreases blocks
  {
    hide *;
    Gen5Is(blocks);
    if blocks == 0 {
      ExecEmpty(env, s);
      t := s;
    } else {
      var mid := Gen5Step(env, n, blocks - 1, s);
      t := Block5Step(env, n, blocks - 1, mid);
      ExecThen(env, Gen5(blocks - 1), Block5(blocks - 1), s, mid);
    }
  }

  /** The emitted kernel, started with the cursor at the stream's base and
      any register and destination contents, runs without a fault and
      leaves the reference output in the destination and the reference's
      final cursor in `src`, provided every row has 64 readable stream bytes
      after its cursor. */
  lemma Gen5Correct(env: Env, blocks: nat, s: Vm) returns (t: Vm)
    requires 64 * blocks <= |env.masks| && Fits(env.mem, env.masks, env.base, 64 * blocks, true)
    requires s.src == env.base && |s.dst| == 4096 * blocks
    ensures Exec(env, Gen5(blocks), s) == Some(t)
    ensures Fits(env.mem, env.masks, env.base, 64 * blocks, false)
    ensures t.dst == Decompress(env.mem, env.masks, env.base, blocks)
    ensures t.src == FinalCursor(env.masks, env.base, blocks)
  {
    FitsNarrow(env.mem, env.masks, env.base, 64 * blocks);
    RunStart(env.mem, env.masks, env.base, blocks, s.dst);
    t := Gen5Step(env, 64 * blocks, blocks, s);
    RunDone(env.mem, env.masks, env.base, blocks, t.dst, t.src);
  }

  // ---------------------------------------------------------------------
  // The over-read is real.

  /** A stream of fewer than 64 bytes makes the first full load fault, even
      when it holds every byte the masks select: the kernel needs slack past
      the packed data, unlike the masked-load kernel. */
  lemma Gen5NeedsSlack(env: Env, blocks: nat, s: Vm)
    requires 0 < blocks && 64 * blocks <= |env.masks|
    requires s.src == env.base && |env.mem| < 64
    ensures Exec(env, Gen5(blocks), s).None?
  {
    FirstBlockFails(env, s);
    Gen5Prefix(env, blocks, s);
  }

  lemma FirstBlockFails(env: Env, s: Vm)
    requires 64 <= |env.masks| && s.src == env.base && |env.mem| < 64
    ensures Exec(env, Block5(0), s).None?
  {
    hide *;
    var t1 := MaskPhaseStep(env, 0, 0, s);
    FirstLoadFails(env, t1);
    ExecThen(env, MaskPhase(0, 0), LoadPhase(), s, t1);
    ExecFailsPrefix(env, LoadPhase(), StorePhase(0, 0), t1);
    ExecAppend(env, MaskPhase(0, 0) + LoadPhase(), StorePhase(0, 0), s);
    Group5Is(0, 0);
    Groups5Is(0, 1);
    Groups5Is(0, 0);
    assert Groups5(0, 1) == Group5(0, 0);
    GroupsFailPrefix(env, 0, 1, 16, s);
    ExecFailsPrefix(env, Groups5(0, 16), [Align], s);
    Block5Is(0);
  }

  lemma FirstLoadFails(env: Env, s: Vm)
    requires s.src == env.base && |env.mem| < 64
    ensures Exec(env, LoadPhase(), s).None?
  {
    LoadPhaseIs();
    assert LoadPhase()[0] == Load(0);
    StepFails(env, Load(0), s);
  }

  /** If the first `j` iterations of a block fail, so do the first `k`. */
  lemma {:induction false} GroupsFailPrefix(env: Env, b: nat, j: nat, k: nat, s: Vm)
    requires j <= k && Exec(env, Groups5(b, j), s).None?
    ensures Exec(env, Groups5(b, k), s).None?
    decreases k - j
  {
    hide *;
    if j < k {
      Groups5Is(b, k);
      GroupsFailPrefix(env, b, j, k - 1, s);
      ExecFailsPrefix(env, Groups5(b, k - 1), Group5(b, 4 * (k - 1)), s);
    }
  }

  /** If the first block fails, so does every kernel with at least one block. */
  lemma {:induction false} Gen5Prefix(env: Env, blocks: nat, s: Vm)
    requires 0 < blocks && Exec(env, Block5(0), s).None?
    ensures Exec(env, Gen5(blocks), s).None?
    decreases blocks
  {
    hide *;
    Gen5Is(blocks);
    if blocks == 1 {
      Gen5Is(0);
      assert Gen5(1) == [] + Block5(0) == Block5(0);
    } else {
      Gen5Prefix(env, blocks - 1, s);
      ExecFailsPrefix(env, Gen5(blocks - 1), Block5(blocks - 1), s);
    }
  }
}
