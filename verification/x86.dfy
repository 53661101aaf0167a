/** The scalar slice of x86-64 the two kernel generators emit around their
    vector bodies: general-purpose registers, opmask registers, the stack,
    and the moves, pushes and pops that save registers on entry and restore
    them on exit. Register values are only moved, never computed with. */
module X86 {
  import opened Wrappers

  datatype Gpr = RAX | RCX | RDX | RDI | R8 | R9 | R10 | R11 | R12 | R13 | R14 | R15

  /** Opmask registers `k0 .. k7`. */
  type Opmask = k: nat | k < 8

  datatype Cpu = Cpu(gpr: Gpr -> bv64, kreg: Opmask -> bv64, stack: seq<bv64>)

  datatype Instr =
    | MovRR(d: Gpr, s: Gpr)        // mov d, s
    | Push(r: Gpr)                 // push r
    | Pop(r: Gpr)                  // pop r
    | KmovRK(d: Gpr, k: Opmask)    // kmovq d, k
    | KmovKR(k: Opmask, s: Gpr)    // kmovq k, s

  function Set(f: Gpr -> bv64, r: Gpr, v: bv64): Gpr -> bv64
  {
    x => if x == r then v else f(x)
  }

  function SetK(f: Opmask -> bv64, k: Opmask, v: bv64): Opmask -> bv64
  {
    (x: Opmask) => if x == k then v else f(x)
  }

  /** One instruction; popping an empty stack faults. */
  function Step(i: Instr, c: Cpu): (r: Option<Cpu>)
    ensures r.None? <==> i.Pop? && |c.stack| == 0
  {
    match i
    case MovRR(d, s) => Some(c.(gpr := Set(c.gpr, d, c.gpr(s))))
    case Push(r) => Some(c.(stack := c.stack + [c.gpr(r)]))
    case Pop(r) =>
      if |c.stack| == 0 then None
      else Some(c.(gpr := Set(c.gpr, r, c.stack[|c.stack| - 1]), stack := c.stack[..|c.stack| - 1]))
    case KmovRK(d, k) => Some(c.(gpr := Set(c.gpr, d, c.kreg(k))))
    case KmovKR(k, s) => Some(c.(kreg := SetK(c.kreg, k, c.gpr(s))))
  }

  /** Straight-line code, stopping at the first fault. */
  function Exec(code: seq<Instr>, c: Cpu): (r: Option<Cpu>)
    decreases |code|
  {
    if |code| == 0 then Some(c)
    else
      match Step(code[0], c)
      case None => None
      case Some(c') => Exec(code[1..], c')
  }

  /** Running two pieces of code in a row is running their concatenation. */
  lemma {:induction false} ExecAppend(a: seq<Instr>, b: seq<Instr>, c: Cpu)
    ensures Exec(a + b, c) == (match Exec(a, c) case None => None case Some(c') => Exec(b, c'))
    decreases |a|
  {
    if |a| > 0 {
      assert (a + b)[0] == a[0];
      assert (a + b)[1..] == a[1..] + b;
      match Step(a[0], c)
      case None =>
      case Some(c') => ExecAppend(a[1..], b, c');
    } else {
      assert a + b == b;
    }
  }

  // ---------------------------------------------------------------------
  // Saving and restoring registers.

  /** A register a prologue saves. An opmask register cannot be pushed
      directly; it goes through `rax`. */
  datatype Saved = G(r: Gpr) | K(k: Opmask)

  function Read(c: Cpu, s: Saved): bv64
  {
    match s
    case G(r) => c.gpr(r)
    case K(k) => c.kreg(k)
  }

  /** Whether an opmask register is among `ss`. */
  predicate HasK(ss: seq<Saved>)
    decreases |ss|
  {
    |ss| > 0 && (ss[0].K? || HasK(ss[1..]))
  }

  /** Saving an opmask register clobbers `rax`, so `rax` is not itself among
      the registers saved alongside an opmask register. */
  predicate Saveable(ss: seq<Saved>)
  {
    HasK(ss) ==> G(RAX) !in ss
  }

  /** No register is saved twice. */
  predicate Distinct(ss: seq<Saved>)
    decreases |ss|
  {
    |ss| == 0 || (ss[0] !in ss[1..] && Distinct(ss[1..]))
  }

  /** `HasK` holds exactly when some entry is an opmask register. */
  lemma {:induction false} HasKAt(ss: seq<Saved>)
    ensures HasK(ss) <==> exists i :: 0 <= i < |ss| && ss[i].K?
    decreases |ss|
  {
    if |ss| > 0 {
      HasKAt(ss[1..]);
      if exists i :: 0 <= i < |ss| && ss[i].K? {
        var i :| 0 <= i < |ss| && ss[i].K?;
        if i > 0 {
          assert ss[1..][i - 1].K?;
        }
      }
      if exists i :: 0 <= i < |ss[1..]| && ss[1..][i].K? {
        var i :| 0 <= i < |ss[1..]| && ss[1..][i].K?;
        assert ss[i + 1].K?;
      }
    }
  }

  /** Pairwise distinct entries make a `Distinct` list. */
  lemma {:induction false} DistinctPairwise(ss: seq<Saved>)
    requires forall i, j :: 0 <= i < j < |ss| ==> ss[i] != ss[j]
    ensures Distinct(ss)
    decreases |ss|
  {
    if |ss| > 0 {
      assert forall i, j :: 0 <= i < j < |ss[1..]| ==> ss[1..][i] != ss[1..][j] by {
        forall i, j | 0 <= i < j < |ss[1..]|
          ensures ss[1..][i] != ss[1..][j]
        {
          assert ss[1..][i] == ss[i + 1] && ss[1..][j] == ss[j + 1];
        }
      }
      DistinctPairwise(ss[1..]);
      forall j | 0 <= j < |ss[1..]|
        ensures ss[1..][j] != ss[0]
      {
        assert ss[1..][j] == ss[j + 1];
      }
    }
  }

  /** `d` agrees with `c` on every register outside `ss`, except `rax` when
      `rax` served as a scratch register. */
  ghost predicate Keeps(c: Cpu, d: Cpu, ss: seq<Saved>, scratch: bool)
  {
    forall t :: t !in ss && !(scratch && t == G(RAX)) ==> Read(d, t) == Read(c, t)
  }

  function SaveOne(s: Saved): seq<Instr>
  {
    match s
    case G(r) => [Push(r)]
    case K(k) => [KmovRK(RAX, k), Push(RAX)]
  }

  function RestoreOne(s: Saved): seq<Instr>
  {
    match s
    case G(r) => [Pop(r)]
    case K(k) => [Pop(RAX), KmovKR(k, RAX)]
  }

  /** The prologue: save the registers in the listed order. */
  function SaveCode(ss: seq<Saved>): seq<Instr>
    decreases |ss|
  {
    if |ss| == 0 then [] else SaveOne(ss[0]) + SaveCode(ss[1..])
  }

  /** The epilogue: restore the registers in the reverse order. */
  function RestoreCode(ss: seq<Saved>): seq<Instr>
    decreases |ss|
  {
    if |ss| == 0 then [] else RestoreCode(ss[1..]) + RestoreOne(ss[0])
  }

  /** Saving a concatenation saves each part in turn. */
  lemma {:induction false} SaveCodeAppend(a: seq<Saved>, b: seq<Saved>)
    ensures SaveCode(a + b) == SaveCode(a) + SaveCode(b)
    decreases |a|
  {
    if |a| == 0 {
      assert a + b == b;
    } else {
      assert (a + b)[1..] == a[1..] + b;
      SaveCodeAppend(a[1..], b);
    }
  }

  /** Restoring a concatenation restores the later part first. */
  lemma {:induction false} RestoreCodeAppend(a: seq<Saved>, b: seq<Saved>)
    ensures RestoreCode(a + b) == RestoreCode(b) + RestoreCode(a)
    decreases |a|
  {
    if |a| == 0 {
      assert a + b == b;
    } else {
      assert (a + b)[1..] == a[1..] + b;
      RestoreCodeAppend(a[1..], b);
    }
  }

  /** With general registers only, the prologue is one push per register
      in list order. */
  lemma {:induction false} GprSaveCode(ss: seq<Saved>)
    requires forall i :: 0 <= i < |ss| ==> ss[i].G?
    ensures |SaveCode(ss)| == |ss|
    ensures forall i :: 0 <= i < |ss| ==> SaveCode(ss)[i] == Push(ss[i].r)
    decreases |ss|
  {
    if |ss| > 0 {
      GprSaveCode(ss[1..]);
      assert SaveCode(ss) == [Push(ss[0].r)] + SaveCode(ss[1..]);
    }
  }

  /** ... and the epilogue is one pop per register in reverse list order. */
  lemma {:induction false} GprRestoreCode(ss: seq<Saved>)
    requires forall i :: 0 <= i < |ss| ==> ss[i].G?
    ensures |RestoreCode(ss)| == |ss|
    ensures forall i :: 0 <= i < |ss| ==> RestoreCode(ss)[i] == Pop(ss[|ss| - 1 - i].r)
    decreases |ss|
  {
    if |ss| > 0 {
      GprRestoreCode(ss[1..]);
      assert RestoreCode(ss) == RestoreCode(ss[1..]) + [Pop(ss[0].r)];
    }
  }

  /** The values a prologue pushes, oldest first. */
  function Values(c: Cpu, ss: seq<Saved>): (vs: seq<bv64>)
    ensures |vs| == |ss|
    decreases |ss|
  {
    if |ss| == 0 then [] else [Read(c, ss[0])] + Values(c, ss[1..])
  }

  /** Two states that agree on the saved registers push the same values. */
  lemma {:induction false} ValuesAgree(c: Cpu, d: Cpu, ss: seq<Saved>)
    requires forall s :: s in ss ==> Read(c, s) == Read(d, s)
    ensures Values(c, ss) == Values(d, ss)
    decreases |ss|
  {
    if |ss| > 0 {
      ValuesAgree(c, d, ss[1..]);
    }
  }

  lemma {:induction false} ValuesAt(c: Cpu, ss: seq<Saved>, i: nat)
    requires i < |ss|
    ensures Values(c, ss)[i] == Read(c, ss[i])
    decreases i
  {
    if i > 0 {
      ValuesAt(c, ss[1..], i - 1);
    }
  }

  lemma SaveOneEffect(s: Saved, c: Cpu)
    ensures Exec(SaveOne(s), c).Some?
    ensures var d := Exec(SaveOne(s), c).value;
      && d.stack == c.stack + [Read(c, s)]
      && Keeps(c, d, [], s.K?)
  {
    match s
    case G(r) =>
      assert Exec([Push(r)], c) == Exec([], c.(stack := c.stack + [c.gpr(r)]));
    case K(k) =>
      var c1 := c.(gpr := Set(c.gpr, RAX, c.kreg(k)));
      assert Exec([KmovRK(RAX, k), Push(RAX)], c) == Exec([Push(RAX)], c1);
      assert Exec([Push(RAX)], c1) == Exec([], c1.(stack := c1.stack + [c1.gpr(RAX)]));
  }

  /** The prologue pushes the saved registers' values in order and changes no
      register, except `rax` when it carries opmask registers. */
  lemma {:induction false} SaveEffect(ss: seq<Saved>, c: Cpu)
    requires Saveable(ss)
    ensures Exec(SaveCode(ss), c).Some?
    ensures var d := Exec(SaveCode(ss), c).value;
      d.stack == c.stack + Values(c, ss) && Keeps(c, d, [], HasK(ss))
    decreases |ss|
  {
    if |ss| == 0 {
      assert c.stack + [] == c.stack;
    } else {
      hide Exec, Step, Read;
      var s := ss[0];
      var rest := ss[1..];
      assert HasK(ss) == (s.K? || HasK(rest));
      SaveOneEffect(s, c);
      var c1 := Exec(SaveOne(s), c).value;
      assert Saveable(rest) by {
        if G(RAX) in rest {
          assert G(RAX) in ss;
        }
      }
      SaveEffect(rest, c1);
      var d := Exec(SaveCode(rest), c1).value;
      assert Exec(SaveCode(ss), c) == Some(d) by {
        ExecAppend(SaveOne(s), SaveCode(rest), c);
      }
      assert d.stack == c.stack + Values(c, ss) by {
        forall t | t in rest
          ensures Read(c1, t) == Read(c, t)
        {
          assert t in ss;
        }
        ValuesAgree(c1, c, rest);
        assert c.stack + Values(c, ss) == c1.stack + Values(c, rest);
      }
    }
  }

  lemma RestoreOneEffect(s: Saved, c: Cpu)
    requires |c.stack| > 0
    ensures Exec(RestoreOne(s), c).Some?
    ensures var d := Exec(RestoreOne(s), c).value;
      && d.stack == c.stack[..|c.stack| - 1]
      && Read(d, s) == c.stack[|c.stack| - 1]
      && Keeps(c, d, [s], s.K?)
  {
    match s
    case G(r) => PopEffect(r, c);
    case K(k) => PopOpmaskEffect(k, c);
  }

  lemma PopEffect(r: Gpr, c: Cpu)
    requires |c.stack| > 0
    ensures Exec([Pop(r)], c) == Some(c.(gpr := Set(c.gpr, r, c.stack[|c.stack| - 1]), stack := c.stack[..|c.stack| - 1]))
  {
    assert [Pop(r)][1..] == [];
  }

  lemma PopOpmaskEffect(k: Opmask, c: Cpu)
    requires |c.stack| > 0
    ensures var top := c.stack[|c.stack| - 1];
      Exec([Pop(RAX), KmovKR(k, RAX)], c)
      == Some(c.(gpr := Set(c.gpr, RAX, top), stack := c.stack[..|c.stack| - 1], kreg := SetK(c.kreg, k, top)))
  {
    hide *;
    var top := c.stack[|c.stack| - 1];
    var c2 := c.(gpr := Set(c.gpr, RAX, top), stack := c.stack[..|c.stack| - 1]);
    assert [Pop(RAX), KmovKR(k, RAX)] == [Pop(RAX)] + [KmovKR(k, RAX)];
    ExecAppend([Pop(RAX)], [KmovKR(k, RAX)], c);
    PopEffect(RAX, c);
    KmovEffect(k, RAX, c2);
    SetRead(c.gpr, RAX, top);
  }

  lemma KmovEffect(k: Opmask, r: Gpr, c: Cpu)
    ensures Exec([KmovKR(k, r)], c) == Some(c.(kreg := SetK(c.kreg, k, c.gpr(r))))
  {
    assert [KmovKR(k, r)][1..] == [];
  }

  lemma SetRead(f: Gpr -> bv64, r: Gpr, v: bv64)
    ensures Set(f, r, v)(r) == v
  {
  }

  /** The epilogue pops the saved registers in reverse order: on a stack
      holding `base + vals`, saved register `ss[i]` receives `vals[i]`, the
      stack returns to `base`, and no other register changes, except `rax`
      when it carries opmask registers. */
  lemma {:induction false} RestoreEffect(ss: seq<Saved>, c: Cpu, base: seq<bv64>, vals: seq<bv64>)
    requires Saveable(ss) && Distinct(ss)
    requires |vals| == |ss| && c.stack == base + vals
    ensures Exec(RestoreCode(ss), c).Some?
    ensures var d := Exec(RestoreCode(ss), c).value;
      && d.stack == base
      && (forall i :: 0 <= i < |ss| ==> Read(d, ss[i]) == vals[i])
      && Keeps(c, d, ss, HasK(ss))
    decreases |ss|
  {
    if |ss| == 0 {
      assert c.stack == base;
    } else {
      hide Exec, Step, Read;
      var s := ss[0];
      var rest := ss[1..];
      assert Saveable(rest) by {
        if G(RAX) in rest {
          assert G(RAX) in ss;
        }
      }
      assert c.stack == (base + [vals[0]]) + vals[1..];
      RestoreEffect(rest, c, base + [vals[0]], vals[1..]);
      var c1 := Exec(RestoreCode(rest), c).value;
      RestoreOneEffect(s, c1);
      assert c1.stack[..|c1.stack| - 1] == base;
      var d := Exec(RestoreOne(s), c1).value;
      assert Exec(RestoreCode(ss), c) == Some(d) by {
        ExecAppend(RestoreCode(rest), RestoreOne(s), c);
      }
      forall i | 1 <= i < |ss|
        ensures Read(c1, ss[i]) == vals[i]
      {
        assert ss[i] == rest[i - 1];
      }
      RestoreCompose(ss, vals, c, c1, d);
    }
  }

  /** The bookkeeping of one induction step of `RestoreEffect`: popping the
      later saved registers and then the first gives every saved register its
      value and leaves the rest alone. */
  lemma RestoreCompose(ss: seq<Saved>, vals: seq<bv64>, c: Cpu, c1: Cpu, d: Cpu)
    requires |ss| > 0 && |vals| == |ss| && Saveable(ss) && Distinct(ss)
    requires forall i :: 1 <= i < |ss| ==> Read(c1, ss[i]) == vals[i]
    requires Keeps(c, c1, ss[1..], HasK(ss[1..]))
    requires Read(d, ss[0]) == vals[0]
    requires Keeps(c1, d, [ss[0]], ss[0].K?)
    ensures forall i :: 0 <= i < |ss| ==> Read(d, ss[i]) == vals[i]
    ensures Keeps(c, d, ss, HasK(ss))
  {
    var s := ss[0];
    var rest := ss[1..];
    assert HasK(ss) == (s.K? || HasK(rest));
    forall i | 1 <= i < |ss|
      ensures Read(d, ss[i]) == vals[i]
    {
      assert ss[i] in rest && ss[i] != s;
      if ss[i] == G(RAX) {
        assert G(RAX) in ss;
      }
    }
    forall t | t !in ss && !(HasK(ss) && t == G(RAX))
      ensures Read(d, t) == Read(c, t)
    {
      assert t !in rest && t != s;
    }
  }

  /** Whatever the body does between the prologue and the epilogue, as long
      as it leaves the stack where the prologue left it, every saved register
      comes back with its value on entry and the stack is balanced. */
  lemma SaveRestore(ss: seq<Saved>, c: Cpu, body: Cpu)
    requires Saveable(ss) && Distinct(ss)
    requires body.stack == c.stack + Values(c, ss)
    ensures Exec(SaveCode(ss), c).Some? && Exec(SaveCode(ss), c).value.stack == body.stack
    ensures Exec(RestoreCode(ss), body).Some?
    ensures var d := Exec(RestoreCode(ss), body).value;
      && d.stack == c.stack
      && (forall i :: 0 <= i < |ss| ==> Read(d, ss[i]) == Read(c, ss[i]))
  {
    SaveEffect(ss, c);
    RestoreEffect(ss, body, c.stack, Values(c, ss));
    var d := Exec(RestoreCode(ss), body).value;
    forall i | 0 <= i < |ss|
      ensures Read(d, ss[i]) == Read(c, ss[i])
    {
      ValuesAt(c, ss, i);
    }
  }
}
