/** The load-mask construction of the sparse-decompression kernel generator:
    turn a popcount `P` in `[0, 64]` into the opmask with the lowest `P` bits
    set, without a single shift by `P` (a 64-bit shift uses its count modulo
    64, so `1 << 64` would be `1`, not `2^64`).

    Register roles: the popcount lives in `rcx`, the mask is built in `r11`,
    and `r12` keeps a copy of the popcount. */
module LoadMask {
  import opened Bits

  /** A count held in a 64-bit register. */
  function Reg(p: nat): bv64
    requires p < 256
  {
    (p as bv8) as bv64
  }

  /** The low byte of a register (`cl` for `rcx`). */
  function Low8(x: bv64): bv8
  {
    (x & 0xFF) as bv8
  }

  /** A 64-bit shift takes its count modulo 64: only the low six bits of the
      count operand are used. */
  function Shl(x: bv64, count: bv8): bv64
  {
    x << (count & 63)
  }

  function Shr(x: bv64, count: bv8): bv64
  {
    x >> (count & 63)
  }

  /** Wrapping 64-bit subtraction. */
  function Sub(a: bv64, b: bv64): bv64
  {
    a - b
  }

  /** The three general registers the construction works in: the popcount in
      `rcx`, the mask under construction in `r11`, a copy of the count in
      `r12`. */
  datatype Scratch = Scratch(rcx: bv64, r11: bv64, r12: bv64)

  /** The instructions `get_load_mask` emits, one update per instruction, up
      to the final `kmovq` into the opmask register, which receives `r11`. */
  function LoadMaskRun(s: Scratch): (t: Scratch)
    ensures t.rcx == s.rcx && t.r12 == s.rcx
  {
    var s := s.(r12 := s.rcx);                          // mov r12, rcx
    var s := s.(r11 := 1);                              // mov r11, 1
    var s := s.(rcx := Shr(s.rcx, 1));                  // shr rcx, 1
    var s := s.(r11 := Shl(s.r11, Low8(s.rcx)));        // shl r11, cl
    var s := s.(r11 := Shl(s.r11, Low8(s.rcx)));        // shl r11, cl
    var s := s.(rcx := s.r12);                          // mov rcx, r12
    var s := s.(rcx := s.rcx & 1);                      // and rcx, 1
    var s := s.(r11 := Shl(s.r11, Low8(s.rcx)));        // shl r11, cl
    var s := s.(r11 := Sub(s.r11, 1));                  // sub r11, 1
    s.(rcx := s.r12)                                    // mov rcx, r12
  }

  /** The value the code leaves in `r11` for a count register `x`. */
  function LoadMaskOf(x: bv64): bv64
  {
    var half := Low8(Shr(x, 1));
    Sub(Shl(Shl(Shl(1, half), half), Low8(x & 1)), 1)
  }

  /** Below 64 the two half shifts and the tail shift add up to `P`. */
  lemma LoadMaskOfBelow64(y: bv8)
    requires y < 64
    ensures LoadMaskOf(y as bv64) == ((1 as bv64) << y) - 1
  {
    var h := y >> 1;
    assert Low8(Shr(y as bv64, 1)) == h;
    assert Low8((y as bv64) & 1) == y & 1;
    assert Shl(Shl(1, h), h) == (1 as bv64) << (h + h);
    assert y == h + h + (y & 1);
  }

  /** At 64 the halves are 32 each: `1 << 32 << 32` wraps to 0, and 0 - 1 is
      all ones. */
  lemma LoadMaskOf64()
    ensures LoadMaskOf(64) == AllOnes
  {
  }

  lemma LoadMaskOfBv(y: bv8)
    requires y <= 64
    ensures LoadMaskOf(y as bv64) == if y == 64 then AllOnes else ((1 as bv64) << y) - 1
  {
    if y == 64 {
      LoadMaskOf64();
    } else {
      LoadMaskOfBelow64(y);
    }
  }

  lemma LoadMaskOfReg(p: nat)
    requires p <= 64
    ensures LoadMaskOf(Reg(p)) == LowMask(p)
  {
    LoadMaskOfBv(p as bv8);
    RoundTrip8(p);
  }

  /** For every count `P` in `[0, 64]` the construction yields `2^P - 1`:
      no bits at `P = 0`, all 64 bits at `P = 64`, and exactly `P` bits, all
      in the lowest positions, in between. */
  lemma LoadMaskIsLowMask(p: nat)
    requires p <= 64
    ensures LoadMaskOf(Reg(p)) == LowMask(p)
    ensures Popcount(LoadMaskOf(Reg(p))) == p
    ensures forall j :: 0 <= j < 64 ==> (Bit(LoadMaskOf(Reg(p)), j) <==> j < p)
    ensures p == 0 ==> LoadMaskOf(Reg(p)) == 0
    ensures p == 64 ==> LoadMaskOf(Reg(p)) == AllOnes
  {
    LoadMaskOfReg(p);
    LowMaskShape(p);
    hide LoadMaskOf, LowMask, Bit, Popcount;
  }

  lemma ShiftCountsBv(y: bv8)
    requires y <= 64
    ensures Low8(Shr(y as bv64, 1)) == y >> 1
    ensures Low8((y as bv64) & 1) == y & 1
    ensures y >> 1 <= 32 && y & 1 <= 1
  {
  }

  /** The three shift counts are `P/2`, `P/2` and `P mod 2`, all below 64, so
      the processor's count masking never alters them. */
  lemma ShiftCountsInRange(p: nat)
    requires p <= 64
    ensures Low8(Shr(Reg(p), 1)) as int == p / 2 <= 32
    ensures Low8(Reg(p) & 1) as int == p % 2
    ensures Low8(Shr(Reg(p), 1)) & 63 == Low8(Shr(Reg(p), 1))
    ensures Low8(Reg(p) & 1) & 63 == Low8(Reg(p) & 1)
  {
    hide *;
    var y := p as bv8;
    ShiftCountsBv(y);
    RegIs(p);
    HalfParity(p);
  }

  lemma RegIs(p: nat)
    requires p < 256
    ensures Reg(p) == (p as bv8) as bv64
  {
  }

  lemma HalfParity(p: nat)
    requires p <= 64
    ensures ((p as bv8) >> 1) as int == p / 2
    ensures ((p as bv8) & 1) as int == p % 2
  {
    hide *;
    var y := p as bv8;
    RoundTrip8(p);
    ShiftIsDiv(y);
    DivToInt(y);
  }

  lemma ShiftIsDiv(y: bv8)
    ensures y >> 1 == y / 2 && y & 1 == y % 2
  {
  }

  lemma DivToInt(y: bv8)
    ensures (y / 2) as int == (y as int) / 2
    ensures (y % 2) as int == (y as int) % 2
  {
  }

  // ---------------------------------------------------------------------
  // Why the construction is split.

  /** The direct form `(1 << P) - 1` with a single `shl r11, cl`. */
  function NaiveLoadMaskOf(x: bv64): bv64
  {
    Shl(1, Low8(x)) - 1
  }

  /** The direct form is right for every `P < 64` and wrong at `P = 64`,
      where the count is taken modulo 64 and the mask comes out empty. */
  lemma NaiveLoadMaskFailsAtFullWidth(p: nat)
    requires p <= 64
    ensures p < 64 ==> NaiveLoadMaskOf(Reg(p)) == LowMask(p)
    ensures p == 64 ==> NaiveLoadMaskOf(Reg(p)) == 0 != LowMask(p)
  {
    RoundTrip8(p);
    Less8(p, 64);
  }

  /** Running the emitted instructions with popcount `P` in `rcx` leaves the
      opmask value `2^P - 1` in `r11`, with exactly `P` bits set, and gives
      `rcx` back its count, so the cursor advance that follows adds `P`. */
  lemma LoadMaskConstruction(p: nat, s: Scratch)
    requires p <= 64 && s.rcx == Reg(p)
    ensures var t := LoadMaskRun(s);
      && t.r11 == LowMask(p)
      && Popcount(t.r11) == p
      && t.rcx == Reg(p)
  {
    LoadMaskIsLowMask(p);
    assert LoadMaskRun(s).r11 == LoadMaskOf(s.rcx);
  }
}
