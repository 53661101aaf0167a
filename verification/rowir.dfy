/** The per-row operations the two kernel generators emit, and an
    interpreter for them.

    An emitted kernel is a straight-line list of these operations (the
    generators unroll every loop at generation time). Each operation stands
    for one instruction, or for the few instructions that do one job (the
    load-mask construction, the cursor fix-up). Four unroll slots each own
    a mask temporary, an opmask and a vector register; which physical
    registers they are is fixed by each generator's register tables.

    A run fails (`None`) when an instruction would touch memory outside the
    stream, mask or destination buffer. */
module RowIr {
  import opened Wrappers
  import opened Bits
  import opened Expansion
  import opened Alignment
  import opened Seqs
  import opened LoadMask

  /** An unroll slot. */
  type Slot = u: nat | u < 4

  /** A 64-byte vector register. */
  type Vec = v: seq<byte> | |v| == 64 witness seq(64, _ => 0)

  /** A popcount result. */
  type Count = c: nat | c <= 64

  datatype Op =
    | MaskLoad(slot: Slot, byteOff: nat)  // mov tmp, [mask_ptr + byteOff]
    | MaskToK(slot: Slot)                 // kmovq k, tmp
    | Popcnt(slot: Slot)                  // popcnt cnt, tmp
    | LoadMaskK(slot: Slot)               // k := lowest-cnt-bits mask
    | Load(slot: Slot)                    // vmovdqu8 zmm, [src]
    | MaskedLoad(slot: Slot)              // vmovdqu8 zmm{k}{z}, [src]
    | Advance                             // add src, cnt
    | ExpandK(slot: Slot)                 // vpexpandb zmm{k}{z}, zmm
    | Store(slot: Slot, dstOff: nat)      // vmovdqu8 [dst + dstOff], zmm
    | Align                               // the 64-byte cursor fix-up

  /** What the kernel reads: the stream bytes from address `base`, and the
      mask words. */
  datatype Env = Env(mem: seq<byte>, base: nat, masks: seq<bv64>)

  /** The machine state the operations touch. `src` is the stream cursor
      as an absolute address. */
  datatype Vm = Vm(src: nat, cnt: Count, tmp: Slot -> bv64, k: Slot -> bv64, zmm: Slot -> Vec, dst: seq<byte>)

  function SetW(f: Slot -> bv64, u: Slot, v: bv64): (g: Slot -> bv64)
    ensures g(u) == v && forall x: Slot :: x != u ==> g(x) == f(x)
  {
    (x: Slot) => if x == u then v else f(x)
  }

  function SetV(f: Slot -> Vec, u: Slot, v: Vec): (g: Slot -> Vec)
    ensures g(u) == v && forall x: Slot :: x != u ==> g(x) == f(x)
  {
    (x: Slot) => if x == u then v else f(x)
  }

  /** A zero-masked byte load: lane `j` reads `mem[a + j]` when bit `j` of
      `k` is set and is 0 otherwise. Masked-off lanes are never accessed. */
  function MaskedBytes(k: bv64, mem: seq<byte>, a: nat): (v: Vec)
    requires forall j :: 0 <= j < 64 && Bit(k, j) ==> a + j < |mem|
  {
    seq(64, j requires 0 <= j < 64 => if Bit(k, j) then mem[a + j] else 0)
  }

  predicate LanesInRange(k: bv64, mem: seq<byte>, a: nat)
  {
    forall j :: 0 <= j < 64 && Bit(k, j) ==> a + j < |mem|
  }

  /** One operation. */
  function Step(env: Env, op: Op, s: Vm): (r: Option<Vm>)
    ensures r.Some? ==> |r.value.dst| == |s.dst|
  {
    match op
    case MaskLoad(u, off) =>
      if off % 8 == 0 && off / 8 < |env.masks| then Some(s.(tmp := SetW(s.tmp, u, env.masks[off / 8])))
      else None
    case MaskToK(u) => Some(s.(k := SetW(s.k, u, s.tmp(u))))
    case Popcnt(u) => Some(s.(cnt := Popcount(s.tmp(u))))
    case LoadMaskK(u) => Some(s.(k := SetW(s.k, u, LoadMaskOf(Reg(s.cnt)))))
    case Load(u) =>
      if env.base <= s.src && s.src - env.base + 64 <= |env.mem| then
        Some(s.(zmm := SetV(s.zmm, u, env.mem[s.src - env.base..s.src - env.base + 64])))
      else None
    case MaskedLoad(u) =>
      if env.base <= s.src && LanesInRange(s.k(u), env.mem, s.src - env.base) then
        Some(s.(zmm := SetV(s.zmm, u, MaskedBytes(s.k(u), env.mem, s.src - env.base))))
      else None
    case Advance => Some(s.(src := s.src + s.cnt))
    case ExpandK(u) => Some(s.(zmm := SetV(s.zmm, u, ExpandInstr(s.k(u), s.zmm(u)))))
    case Store(u, off) =>
      if off + 64 <= |s.dst| then Some(s.(dst := Splice(s.dst, off, s.zmm(u)))) else None
    case Align => Some(s.(src := s.src + JitPad(s.src)))
  }

  /** When an operation fails: a mask load at a byte offset that is not a
      multiple of 8 or past the mask array, a stream byte outside the buffer
      on an unmasked load or on a selected lane of a masked load, or a store
      past the destination. Masked-off lanes never fault. */
  lemma StepFails(env: Env, op: Op, s: Vm)
    ensures Step(env, op, s).None? <==>
      || (op.MaskLoad? && !(op.byteOff % 8 == 0 && op.byteOff / 8 < |env.masks|))
      || (op.Load? && !(env.base <= s.src && s.src - env.base + 64 <= |env.mem|))
      || (op.MaskedLoad? && !(env.base <= s.src && LanesInRange(s.k(op.slot), env.mem, s.src - env.base)))
      || (op.Store? && op.dstOff + 64 > |s.dst|)
  {
  }

  /** A straight-line list of operations, stopping at the first failure. */
  function Exec(env: Env, ops: seq<Op>, s: Vm): (r: Option<Vm>)
    ensures r.Some? ==> |r.value.dst| == |s.dst|
    decreases |ops|
  {
    if |ops| == 0 then Some(s)
    else
      match Step(env, ops[0], s)
      case None => None
      case Some(t) => Exec(env, ops[1..], t)
  }

  /** Running two lists back to back is running their concatenation. */
  lemma {:induction false} ExecAppend(env: Env, a: seq<Op>, b: seq<Op>, s: Vm)
    ensures Exec(env, a + b, s) ==
      match Exec(env, a, s)
      case None => None
      case Some(t) => Exec(env, b, t)
    decreases |a|
  {
    if |a| > 0 {
      assert (a + b)[1..] == a[1..] + b;
      match Step(env, a[0], s)
      case None =>
      case Some(t) => ExecAppend(env, a[1..], b, t);
    } else {
      assert a + b == b;
    }
  }

  lemma ExecOne(env: Env, op: Op, s: Vm)
    ensures Exec(env, [op], s) == Step(env, op, s)
  {
  }

  // ---------------------------------------------------------------------
  // Running a list one operation at a time.

  lemma ExecAt(env: Env, ops: seq<Op>, k: nat, s: Vm, t: Vm)
    requires k < |ops| && Step(env, ops[k], s) == Some(t)
    ensures Exec(env, ops[k..], s) == Exec(env, ops[k + 1..], t)
  {
    assert ops[k..][1..] == ops[k + 1..];
  }

  lemma ExecEnd(env: Env, ops: seq<Op>, s: Vm)
    ensures Exec(env, ops[|ops|..], s) == Some(s)
  {
  }

  // ---------------------------------------------------------------------
  // The effect of each operation that cannot fail, and of the others when
  // their access is in range.

  lemma StepMaskLoad(env: Env, u: Slot, off: nat, s: Vm) returns (t: Vm)
    requires off % 8 == 0 && off / 8 < |env.masks|
    ensures Step(env, MaskLoad(u, off), s) == Some(t)
    ensures t == s.(tmp := SetW(s.tmp, u, env.masks[off / 8]))
  {
    t := s.(tmp := SetW(s.tmp, u, env.masks[off / 8]));
  }

  lemma StepMaskToK(env: Env, u: Slot, s: Vm) returns (t: Vm)
    ensures Step(env, MaskToK(u), s) == Some(t)
    ensures t == s.(k := SetW(s.k, u, s.tmp(u)))
  {
    t := s.(k := SetW(s.k, u, s.tmp(u)));
  }

  lemma StepPopcnt(env: Env, u: Slot, s: Vm) returns (t: Vm)
    ensures Step(env, Popcnt(u), s) == Some(t)
    ensures t == s.(cnt := Popcount(s.tmp(u)))
  {
    t := s.(cnt := Popcount(s.tmp(u)));
  }

  lemma StepLoadMaskK(env: Env, u: Slot, s: Vm) returns (t: Vm)
    ensures Step(env, LoadMaskK(u), s) == Some(t)
    ensures t == s.(k := SetW(s.k, u, LoadMaskOf(Reg(s.cnt))))
  {
    t := s.(k := SetW(s.k, u, LoadMaskOf(Reg(s.cnt))));
  }

  lemma StepLoad(env: Env, u: Slot, s: Vm) returns (t: Vm)
    requires env.base <= s.src && s.src - env.base + 64 <= |env.mem|
    ensures Step(env, Load(u), s) == Some(t)
    ensures t == s.(zmm := SetV(s.zmm, u, env.mem[s.src - env.base..s.src - env.base + 64]))
  {
    t := s.(zmm := SetV(s.zmm, u, env.mem[s.src - env.base..s.src - env.base + 64]));
  }

  lemma StepMaskedLoad(env: Env, u: Slot, s: Vm) returns (t: Vm)
    requires env.base <= s.src && LanesInRange(s.k(u), env.mem, s.src - env.base)
    ensures Step(env, MaskedLoad(u), s) == Some(t)
    ensures t == s.(zmm := SetV(s.zmm, u, MaskedBytes(s.k(u), env.mem, s.src - env.base)))
  {
    t := s.(zmm := SetV(s.zmm, u, MaskedBytes(s.k(u), env.mem, s.src - env.base)));
  }

  lemma StepAdvance(env: Env, s: Vm) returns (t: Vm)
    ensures Step(env, Advance, s) == Some(t)
    ensures t == s.(src := s.src + s.cnt)
  {
    t := s.(src := s.src + s.cnt);
  }

  lemma StepExpandK(env: Env, u: Slot, s: Vm) returns (t: Vm)
    ensures Step(env, ExpandK(u), s) == Some(t)
    ensures t == s.(zmm := SetV(s.zmm, u, ExpandInstr(s.k(u), s.zmm(u))))
  {
    t := s.(zmm := SetV(s.zmm, u, ExpandInstr(s.k(u), s.zmm(u))));
  }

  lemma StepStore(env: Env, u: Slot, off: nat, s: Vm) returns (t: Vm)
    requires off + 64 <= |s.dst|
    ensures Step(env, Store(u, off), s) == Some(t)
    ensures t == s.(dst := Splice(s.dst, off, s.zmm(u)))
  {
    t := s.(dst := Splice(s.dst, off, s.zmm(u)));
  }

  lemma StepAlign(env: Env, s: Vm) returns (t: Vm)
    ensures Step(env, Align, s) == Some(t)
    ensures t == s.(src := s.src + JitPad(s.src))
  {
    t := s.(src := s.src + JitPad(s.src));
  }

  /** Both generators address mask word `64 * b + r` of block `b` as byte
      offset `r * 8 + (b * 4096) / 8` from the mask pointer. */
  lemma MaskByteOffset(b: nat, r: nat)
    ensures (r * 8 + (b * 4096) / 8) % 8 == 0
    ensures (r * 8 + (b * 4096) / 8) / 8 == 64 * b + r
  {
    assert b * 4096 == 8 * (512 * b);
    assert (b * 4096) / 8 == 512 * b;
    assert r * 8 + 512 * b == 8 * (64 * b + r);
  }

  /** When the first list succeeds, the concatenation continues from where
      it stopped. */
  lemma ExecThen(env: Env, a: seq<Op>, b: seq<Op>, s: Vm, t: Vm)
    requires Exec(env, a, s) == Some(t)
    ensures Exec(env, a + b, s) == Exec(env, b, t)
  {
    ExecAppend(env, a, b, s);
  }

  lemma ExecEmpty(env: Env, s: Vm)
    ensures Exec(env, [], s) == Some(s)
  {
  }

  /** A list that fails still fails with more operations after it. */
  lemma ExecFailsPrefix(env: Env, a: seq<Op>, b: seq<Op>, s: Vm)
    requires Exec(env, a, s).None?
    ensures Exec(env, a + b, s).None?
  {
    ExecAppend(env, a, b, s);
  }

  lemma ExecSteps2(env: Env, ops: seq<Op>, s: Vm, s1: Vm, s2: Vm)
    requires |ops| == 2
    requires Step(env, ops[0], s) == Some(s1) && Step(env, ops[1], s1) == Some(s2)
    ensures Exec(env, ops, s) == Some(s2)
  {
    hide *;
    assert ops == ops[0..];
    ExecAt(env, ops, 0, s, s1);
    ExecAt(env, ops, 1, s1, s2);
    ExecEnd(env, ops, s2);
  }

  lemma ExecSteps3(env: Env, ops: seq<Op>, s: Vm, s1: Vm, s2: Vm, s3: Vm)
    requires |ops| == 3
    requires Step(env, ops[0], s) == Some(s1) && Step(env, ops[1], s1) == Some(s2)
    requires Step(env, ops[2], s2) == Some(s3)
    ensures Exec(env, ops, s) == Some(s3)
  {
    hide *;
    assert ops == ops[0..];
    ExecAt(env, ops, 0, s, s1);
    ExecAt(env, ops, 1, s1, s2);
    ExecAt(env, ops, 2, s2, s3);
    ExecEnd(env, ops, s3);
  }

  lemma ExecSteps4(env: Env, ops: seq<Op>, s: Vm, s1: Vm, s2: Vm, s3: Vm, s4: Vm)
    requires |ops| == 4
    requires Step(env, ops[0], s) == Some(s1) && Step(env, ops[1], s1) == Some(s2)
    requires Step(env, ops[2], s2) == Some(s3) && Step(env, ops[3], s3) == Some(s4)
    ensures Exec(env, ops, s) == Some(s4)
  {
    hide *;
    assert ops == ops[0..];
    ExecAt(env, ops, 0, s, s1);
    ExecAt(env, ops, 1, s1, s2);
    ExecAt(env, ops, 2, s2, s3);
    ExecAt(env, ops, 3, s3, s4);
    ExecEnd(env, ops, s4);
  }
}
