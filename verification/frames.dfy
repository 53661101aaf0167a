/** The register frames of the two kernel generators: which registers each
    saves on entry, the exact push and pop sequences it emits, and the proof
    that every saved register is restored on exit. */
module Frames {
  import opened X86

  /** The expand-load generator saves `r12 .. r15`, then `k1 .. k4` through
      `rax`. */
  const Jit5Saved: seq<Saved> := [G(R12), G(R13), G(R14), G(R15), K(1), K(2), K(3), K(4)]

  /** The masked-load generator saves ten general registers. */
  const Sparse7Saved: seq<Saved> :=
    [G(R13), G(R14), G(R15), G(RAX), G(RCX), G(R8), G(R9), G(R10), G(R11), G(R12)]

  /** The prologue and epilogue are exactly the instructions the expand-load
      generator emits. */
  lemma Jit5Code()
    ensures SaveCode(Jit5Saved) ==
      [Push(R12), Push(R13), Push(R14), Push(R15),
       KmovRK(RAX, 1), Push(RAX), KmovRK(RAX, 2), Push(RAX),
       KmovRK(RAX, 3), Push(RAX), KmovRK(RAX, 4), Push(RAX)]
    ensures RestoreCode(Jit5Saved) ==
      [Pop(RAX), KmovKR(4, RAX), Pop(RAX), KmovKR(3, RAX),
       Pop(RAX), KmovKR(2, RAX), Pop(RAX), KmovKR(1, RAX),
       Pop(R15), Pop(R14), Pop(R13), Pop(R12)]
  {
  }

  lemma Sparse7Prologue()
    ensures SaveCode(Sparse7Saved) ==
      [Push(R13), Push(R14), Push(R15), Push(RAX), Push(RCX),
       Push(R8), Push(R9), Push(R10), Push(R11), Push(R12)]
  {
    GprSaveCode(Sparse7Saved);
    hide SaveCode;
  }

  lemma Sparse7Epilogue()
    ensures RestoreCode(Sparse7Saved) ==
      [Pop(R12), Pop(R11), Pop(R10), Pop(R9), Pop(R8),
       Pop(RCX), Pop(RAX), Pop(R15), Pop(R14), Pop(R13)]
  {
    GprRestoreCode(Sparse7Saved);
    hide RestoreCode;
  }

  /** Whatever the expand-load kernel's body does, provided it leaves the
      stack as the prologue left it, `r12 .. r15` and `k1 .. k4` come back with
      their values on entry and the stack is balanced. */
  lemma Jit5Restores(c: Cpu, body: Cpu)
    requires body.stack == c.stack + Values(c, Jit5Saved)
    ensures Exec(SaveCode(Jit5Saved), c).Some?
    ensures Exec(SaveCode(Jit5Saved), c).value.stack == body.stack
    ensures Exec(RestoreCode(Jit5Saved), body).Some?
    ensures var d := Exec(RestoreCode(Jit5Saved), body).value;
      && d.stack == c.stack
      && d.gpr(R12) == c.gpr(R12) && d.gpr(R13) == c.gpr(R13)
      && d.gpr(R14) == c.gpr(R14) && d.gpr(R15) == c.gpr(R15)
      && d.kreg(1) == c.kreg(1) && d.kreg(2) == c.kreg(2)
      && d.kreg(3) == c.kreg(3) && d.kreg(4) == c.kreg(4)
  {
    hide SaveCode, RestoreCode, Exec, Values, HasK, Distinct;
    HasKAt(Jit5Saved);
    assert Jit5Saved[7].K?;
    assert G(RAX) !in Jit5Saved;
    DistinctPairwise(Jit5Saved);
    SaveRestore(Jit5Saved, c, body);
    var d := Exec(RestoreCode(Jit5Saved), body).value;
    assert Jit5Saved[0] == G(R12);
    assert Jit5Saved[1] == G(R13);
    assert Jit5Saved[2] == G(R14);
    assert Jit5Saved[3] == G(R15);
    assert Jit5Saved[4] == K(1);
    assert Jit5Saved[5] == K(2);
    assert Jit5Saved[6] == K(3);
    assert Jit5Saved[7] == K(4);
  }

  /** The same for the masked-load kernel's ten registers; none of them is
      an opmask register, so `rax` is restored as well. */
  lemma Sparse7Restores(c: Cpu, body: Cpu)
    requires body.stack == c.stack + Values(c, Sparse7Saved)
    ensures Exec(SaveCode(Sparse7Saved), c).Some?
    ensures Exec(SaveCode(Sparse7Saved), c).value.stack == body.stack
    ensures Exec(RestoreCode(Sparse7Saved), body).Some?
    ensures var d := Exec(RestoreCode(Sparse7Saved), body).value;
      && d.stack == c.stack
      && (forall i :: 0 <= i < |Sparse7Saved| ==> Read(d, Sparse7Saved[i]) == Read(c, Sparse7Saved[i]))
  {
    hide SaveCode, RestoreCode, Exec, Values, HasK, Distinct;
    HasKAt(Sparse7Saved);
    assert forall i :: 0 <= i < |Sparse7Saved| ==> Sparse7Saved[i].G?;
    DistinctPairwise(Sparse7Saved);
    SaveRestore(Sparse7Saved, c, body);
  }
}
