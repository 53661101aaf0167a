/** Realigning the stream cursor to the next 64-byte boundary after a block.

    Addresses are unbounded naturals. The source computes on the 64-bit
    address register, and both formulas below only look at its low six bits;
    `LowBits(c)` is that register with the upper 58 bits cleared, and
    `FixupIgnoresHighBits` shows the clearing changes nothing. */
module Alignment {

  /** The scalar decompressor's rule: with `mis = addr & 0x3F`, skip
      `64 - mis` bytes when `mis` is non-zero. */
  function ScalarPad(c: nat): (pad: nat)
    ensures pad < 64
  {
    var mis := c % 64;
    if mis != 0 then 64 - mis else 0
  }

  /** The cursor after realignment. */
  function AlignUp(c: nat): (r: nat)
    ensures r % 64 == 0
    ensures c <= r < c + 64
  {
    c + ScalarPad(c)
  }

  /** `AlignUp(c)` is the least multiple of 64 that is at least `c`, and an
      aligned cursor does not move. */
  lemma AlignUpLeast(c: nat, a: nat)
    requires a % 64 == 0 && c <= a
    ensures AlignUp(c) <= a
    ensures c % 64 == 0 ==> AlignUp(c) == c
  {
  }

  /** Only one multiple of 64 lies in `[c, c + 64)`, so any cursor with
      that property is `AlignUp(c)`. */
  lemma AlignUpUnique(c: nat, r: nat)
    requires r % 64 == 0 && c <= r < c + 64
    ensures r == AlignUp(c)
  {
  }

  /** The pad is the distance to the boundary: `(-c) mod 64`. */
  lemma ScalarPadIsNegMod(c: nat)
    ensures ScalarPad(c) == (0 - c as int) % 64
  {
  }

  // ---------------------------------------------------------------------
  // The same rules on a 64-bit register.

  /** The generated fix-up: `mov rdx, src; not rdx; and rdx, 0x3f; add rdx, 1;
      and rdx, 0x3f`. */
  function FixupBits(x: bv64): bv64
  {
    ((!x & 0x3F) + 1) & 0x3F
  }

  /** The scalar rule evaluated on a 64-bit register. */
  function ScalarPadBits(x: bv64): bv64
  {
    var mis := x & 0x3F;
    if mis != 0 then 64 - mis else 0
  }

  /** For every 64-bit value, the fix-up equals `(-x) & 63` and equals the
      scalar rule; in particular it is 0 exactly on aligned values. */
  lemma FixupMatchesScalar(x: bv64)
    ensures FixupBits(x) == (0 - x) & 0x3F
    ensures FixupBits(x) == ScalarPadBits(x)
    ensures FixupBits(x) == 0 <==> x & 0x3F == 0
  {
  }

  /** Only the low six bits of the address take part. */
  lemma FixupIgnoresHighBits(x: bv64)
    ensures FixupBits(x) == FixupBits(x & 0x3F)
    ensures ScalarPadBits(x) == ScalarPadBits(x & 0x3F)
  {
  }

  /** The low six bits of address `c` in a 64-bit register. */
  function LowBits(c: nat): bv64
  {
    ((c % 64) as bv8) as bv64
  }

  /** The pad the generated code adds to cursor `c`. */
  function JitPad(c: nat): nat
  {
    (FixupBits(LowBits(c)) as bv8) as int
  }

  /** The generated fix-up and the scalar rule move the cursor by the same
      amount, for every address. */
  lemma JitPadIsScalarPad(c: nat)
    ensures JitPad(c) == ScalarPad(c)
    ensures (ScalarPadBits(LowBits(c)) as bv8) as int == ScalarPad(c)
  {
    FixupMatchesScalar(LowBits(c));
  }
}
