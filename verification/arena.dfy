/** A bump-pointer arena over one block of `size` bytes starting at address
    `begin`: allocation rounds the cursor up to the requested alignment and
    moves it past the new object; nothing is freed until `reset`.

    Addresses are unbounded naturals and 0 is the null pointer. The source
    rounds with `(p + a - 1) & ~(a - 1)`, which for a power-of-two `a`
    clears the low bits of `p + a - 1`; `AlignAddr` writes that clearing as
    subtraction of the remainder. */
module Arena {
  import opened Wrappers

  datatype Heap = Heap(begin: nat, current: nat, size: nat)

  /** The failure `create` reports by throwing `std::bad_alloc`. */
  datatype Error = BadAlloc

  /** The arena's invariant: the cursor lies inside the block. */
  predicate Valid(h: Heap)
  {
    h.begin <= h.current <= h.begin + h.size
  }

  /** Euclidean division by a positive divisor. */
  lemma DivMod(x: nat, a: nat)
    requires a > 0
    ensures x == a * (x / a) + x % a && 0 <= x % a < a
  {
  }

  lemma {:induction false} MulAtLeast(a: nat, d: nat)
    requires d >= 1
    ensures a * d >= a
  {
    if d > 1 {
      MulAtLeast(a, d - 1);
      assert a * d == a * (d - 1) + a;
    }
  }

  lemma MulLess(a: nat, j: nat, k: nat)
    requires a > 0 && j < k
    ensures a * j + a <= a * k
  {
    var d := k - j;
    assert a * k == a * j + a * d;
    MulAtLeast(a, d);
  }

  lemma MultipleMod(a: nat, k: nat)
    requires a > 0
    ensures (a * k) % a == 0
  {
    var x := a * k;
    DivMod(x, a);
    if x / a < k {
      MulLess(a, x / a, k);
    } else if x / a > k {
      MulLess(a, k, x / a);
    }
  }

  /** Round `p` up to a multiple of `a`. */
  function AlignAddr(p: nat, a: nat): (q: nat)
    requires a > 0
    ensures q % a == 0
    ensures p <= q < p + a
  {
    var x := p + a - 1;
    DivMod(x, a);
    MultipleMod(a, x / a);
    x - x % a
  }

  /** `AlignAddr(p, a)` is the least multiple of `a` that is at least `p`. */
  lemma AlignAddrLeast(p: nat, a: nat, m: nat)
    requires a > 0 && m % a == 0 && p <= m
    ensures AlignAddr(p, a) <= m
  {
    var x := p + a - 1;
    var q := AlignAddr(p, a);
    DivMod(x, a);
    DivMod(m, a);
    assert q == a * (x / a);
    if m < q {
      assert m == a * (m / a);
      if m / a >= x / a {
        MulLess(a, x / a, m / a + 1);
      }
      MulLess(a, m / a, x / a);
    }
  }

  /** An address already aligned does not move. */
  lemma AlignAddrFixed(p: nat, a: nat)
    requires a > 0 && p % a == 0
    ensures AlignAddr(p, a) == p
  {
    AlignAddrLeast(p, a, p);
  }

  /** The outcome of an allocation: the arena after it and the address, or
      `None` for the null pointer. */
  datatype Alloc = Alloc(heap: Heap, addr: Option<nat>)

  /** `allocate(size, alignment)`. */
  function Allocate(h: Heap, size: nat, a: nat): (r: Alloc)
    requires a > 0
    ensures r.addr.None? ==> r.heap == h
    ensures r.addr.Some? ==>
      && r.addr.value % a == 0
      && h.current <= r.addr.value
      && r.addr.value + size <= h.begin + h.size
      && r.heap == h.(current := r.addr.value + size)
  {
    var aligned := AlignAddr(h.current, a);
    if aligned + size > h.begin + h.size then Alloc(h, None)
    else Alloc(h.(current := aligned + size), Some(aligned))
  }

  /** Allocation fails exactly when no `a`-aligned address at or past the
      cursor leaves room for `size` bytes before the end of the block; when
      it succeeds it returns the lowest such address. */
  lemma AllocateFirstFit(h: Heap, size: nat, a: nat, q: nat)
    requires a > 0
    requires q % a == 0 && h.current <= q && q + size <= h.begin + h.size
    ensures Allocate(h, size, a).addr.Some?
    ensures Allocate(h, size, a).addr.value <= q
  {
    AlignAddrLeast(h.current, a, q);
  }

  /** Allocation keeps the cursor inside the block. */
  lemma AllocateValid(h: Heap, size: nat, a: nat)
    requires a > 0 && Valid(h)
    ensures Valid(Allocate(h, size, a).heap)
    ensures Allocate(h, size, a).addr.Some? ==> h.begin <= Allocate(h, size, a).addr.value
  {
  }

  /** Two successive allocations do not overlap: the second starts at or
      after the end of the first. */
  lemma AllocationsDisjoint(h: Heap, s1: nat, a1: nat, s2: nat, a2: nat)
    requires a1 > 0 && a2 > 0
    requires Allocate(h, s1, a1).addr.Some?
    requires Allocate(Allocate(h, s1, a1).heap, s2, a2).addr.Some?
    ensures Allocate(h, s1, a1).addr.value + s1 <= Allocate(Allocate(h, s1, a1).heap, s2, a2).addr.value
  {
  }

  /** Bytes handed out so far. */
  function Used(h: Heap): (n: nat)
    requires Valid(h)
    ensures n <= Capacity(h)
  {
    h.current - h.begin
  }

  function Capacity(h: Heap): nat
  {
    h.size
  }

  /** Every successful allocation uses at least its own size and stays
      within capacity. */
  lemma AllocateUsed(h: Heap, size: nat, a: nat)
    requires a > 0 && Valid(h) && Allocate(h, size, a).addr.Some?
    ensures Used(Allocate(h, size, a).heap) >= Used(h) + size
    ensures Capacity(Allocate(h, size, a).heap) == Capacity(h)
  {
  }

  /** `reset`: the cursor goes back to the start of the block. */
  function Reset(h: Heap): (r: Heap)
    ensures Valid(r) && Used(r) == 0
    ensures Capacity(r) == Capacity(h) && r.begin == h.begin
  {
    h.(current := h.begin)
  }

  /** After `reset` the whole block is available again: any allocation that
      fits in a fresh arena of the same block succeeds. */
  lemma ResetReclaims(h: Heap, size: nat, a: nat)
    requires a > 0 && Valid(h)
    requires AlignAddr(h.begin, a) + size <= h.begin + h.size
    ensures Allocate(Reset(h), size, a).addr.Some?
    ensures Used(Allocate(h, size, a).heap) <= Used(h) + size + a
  {
  }

  /** `create<T>`: allocate `sizeof(T)` bytes at `alignof(T)` and construct
      there, or throw when the arena is full. */
  function Create(h: Heap, size: nat, a: nat): (r: (Heap, Result<nat, Error>))
    requires a > 0 && size > 0
    ensures r.1.Err? <==> Allocate(h, size, a).addr.None?
    ensures r.1.Err? ==> r.0 == h
    ensures r.1.Ok? ==> r.1.value % a == 0 && r.0 == h.(current := r.1.value + size)
  {
    var al := Allocate(h, size, a);
    if al.addr.None? then (h, Err(BadAlloc)) else (al.heap, Ok(al.addr.value))
  }

  /** The constructor: `block` is what `malloc(size)` returned. */
  function New(size: nat, block: Option<nat>): (r: Result<Heap, Error>)
    requires block.Some? ==> block.value != 0
    ensures r.Err? <==> block.None?
    ensures r.Ok? ==> Valid(r.value) && Used(r.value) == 0 && Capacity(r.value) == size
  {
    if block.None? then Err(BadAlloc) else Ok(Heap(block.value, block.value, size))
  }

  /** The moved-from state: null pointers and size 0. */
  const Moved := Heap(0, 0, 0)

  /** The move constructor: the new arena takes over the block, the cursor
      and the size; the source is left empty. */
  function MoveConstruct(other: Heap): (r: (Heap, Heap))
    ensures r.0 == other
    ensures r.1 == Moved
    ensures Valid(other) ==> Valid(r.0) && Used(r.0) == Used(other) && Capacity(r.0) == Capacity(other)
    ensures Valid(r.1) && Used(r.1) == 0 && Capacity(r.1) == 0
  {
    (other, Moved)
  }

  /** Move assignment; `same` says `this == &other`. The old block of the
      target is released (not modelled). */
  function MoveAssign(target: Heap, other: Heap, same: bool): (r: (Heap, Heap))
    ensures same ==> r == (target, other)
    ensures !same ==> r.0 == other && r.1 == Moved
    ensures same && Valid(target) ==> Valid(r.0) && Used(r.0) == Used(target) && Capacity(r.0) == Capacity(target)
    ensures !same && Valid(other) ==> Valid(r.0) && Used(r.0) == Used(other) && Capacity(r.0) == Capacity(other)
    ensures !same ==> Valid(r.1) && Used(r.1) == 0 && Capacity(r.1) == 0
  {
    if same then (target, other) else (other, Moved)
  }

  /** A moved-from arena has nothing to give: every non-empty allocation
      from it fails. */
  lemma MovedIsEmpty(size: nat, a: nat)
    requires a > 0 && size > 0
    ensures Allocate(Moved, size, a).addr.None?
    ensures Valid(Moved) && Used(Moved) == 0
  {
  }
}
