/** A growable array of `int`: `data` points to a heap block of `capacity`
    elements of which the first `size` are in use; `push_back` doubles the
    capacity when the array is full.

    `buf` is the heap block as it really is (its length is what was
    allocated), so `capacity` and `|buf|` can disagree, which is exactly
    what the source lets happen. `malloc` and `realloc` outcomes are
    parameters; fresh heap cells hold 0 in the model (their contents are
    indeterminate in C and never read before being written). Element and
    size arithmetic is unbounded. */
module DynArray {
  import opened Wrappers

  datatype Array = Array(buf: seq<int>, size: nat, capacity: nat)

  /** A write past the end of the heap block: undefined behaviour. */
  datatype Fault = OutOfBounds

  /** The invariant a correct array keeps: the block holds exactly
      `capacity` elements and at most that many are in use. */
  predicate Valid(a: Array)
  {
    a.size <= a.capacity == |a.buf|
  }

  /** The elements in use. */
  function Elements(a: Array): (s: seq<int>)
    requires a.size <= |a.buf|
    ensures |s| == a.size
  {
    a.buf[..a.size]
  }

  function Zeros(n: nat): (z: seq<int>)
    ensures |z| == n
  {
    seq(n, _ => 0)
  }

  /** `createDynamicArray(initial_capacity)`: `structOk` and `dataOk` are the
      two `malloc` outcomes. */
  function Create(initialCapacity: nat, structOk: bool, dataOk: bool): (r: Option<Array>)
    ensures r.Some? <==> structOk && dataOk
    ensures r.Some? ==> Valid(r.value) && Elements(r.value) == [] && r.value.capacity == initialCapacity
  {
    if !structOk || !dataOk then None
    else Some(Array(Zeros(initialCapacity), 0, initialCapacity))
  }

  /** `realloc(data, n)`: a block of `n` elements that keeps the old
      contents up to the shorter length. */
  function Realloc(buf: seq<int>, n: nat): (r: seq<int>)
    ensures |r| == n
    ensures n <= |buf| ==> r == buf[..n]
    ensures n >= |buf| ==> r[..|buf|] == buf
  {
    if n <= |buf| then buf[..n] else buf + Zeros(n - |buf|)
  }

  /** `data[size] = value; size++`. */
  function Store(a: Array, v: int): (r: Result<Array, Fault>)
    ensures r.Err? <==> a.size >= |a.buf|
    ensures r.Ok? ==> r.value.size == a.size + 1 && r.value.capacity == a.capacity && |r.value.buf| == |a.buf|
    ensures r.Ok? ==> Elements(r.value) == Elements(a) + [v]
  {
    if a.size < |a.buf| then
      var b := a.buf[a.size := v];
      assert b[..a.size + 1] == a.buf[..a.size] + [v];
      Ok(Array(b, a.size + 1, a.capacity))
    else Err(OutOfBounds)
  }

  /** `push_back` as written: when full, the capacity field is doubled
      first and `realloc` asked for the doubled size; if that fails the
      function returns with the doubled capacity kept and nothing stored. */
  function PushBack(a: Array, v: int, reallocOk: bool): (r: Result<Array, Fault>)
  {
    if a.size == a.capacity then
      var capacity := a.capacity * 2;
      if !reallocOk then Ok(a.(capacity := capacity))
      else Store(Array(Realloc(a.buf, capacity), a.size, capacity), v)
    else Store(a, v)
  }

  /** With room to spare, `push_back` stores at `size` and leaves the
      capacity alone; when full and `realloc` succeeds it doubles the
      capacity, keeps the elements and appends. Either way a valid array
      with positive capacity stays valid. */
  lemma PushBackGrows(a: Array, v: int, reallocOk: bool)
    requires Valid(a) && a.capacity > 0
    requires a.size < a.capacity || reallocOk
    ensures PushBack(a, v, reallocOk).Ok?
    ensures Valid(PushBack(a, v, reallocOk).value)
    ensures Elements(PushBack(a, v, reallocOk).value) == Elements(a) + [v]
    ensures PushBack(a, v, reallocOk).value.capacity ==
            if a.size < a.capacity then a.capacity else 2 * a.capacity
  {
    if a.size == a.capacity {
      var b := Realloc(a.buf, 2 * a.capacity);
      assert b[..a.size] == a.buf[..a.size];
    }
  }

  /** A failed `realloc` leaves the elements as they were but the capacity
      doubled: the array no longer describes its block. */
  lemma FailedGrowBreaksInvariant(a: Array, v: int)
    requires Valid(a) && a.size == a.capacity && a.capacity > 0
    ensures PushBack(a, v, false).Ok?
    ensures Elements(PushBack(a, v, false).value) == Elements(a)
    ensures PushBack(a, v, false).value.capacity == 2 * |a.buf|
    ensures !Valid(PushBack(a, v, false).value)
  {
  }

  /** ... so the next `push_back` sees room that is not there and writes one
      element past the end of the block, whatever `realloc` would do. */
  lemma PushAfterFailedGrowFaults(a: Array, v: int, w: int, reallocOk: bool)
    requires Valid(a) && a.size == a.capacity && a.capacity > 0
    ensures PushBack(PushBack(a, v, false).value, w, reallocOk) == Err(OutOfBounds)
  {
  }

  /** A zero initial capacity stays zero when doubled, so unless
      `realloc(data, 0)` reports failure the very first `push_back` writes
      past an empty block; if it does report failure, nothing ever gets
      stored. */
  lemma ZeroCapacityFaults(v: int)
    ensures PushBack(Create(0, true, true).value, v, true) == Err(OutOfBounds)
    ensures PushBack(Create(0, true, true).value, v, false) == Ok(Create(0, true, true).value)
  {
  }

  /** The outcome of the corrected `push_back`: the array and whether the
      value was stored. */
  datatype Pushed = Pushed(grown: Array, ok: bool)

  /** `push_back` as evidently intended: grow to twice the capacity (at least
      one), and commit the new capacity only once `realloc` has succeeded. */
  function PushBackFixed(a: Array, v: int, reallocOk: bool): (r: Pushed)
    requires Valid(a)
    ensures Valid(r.grown)
    ensures r.ok <==> a.size < a.capacity || reallocOk
    ensures r.ok ==> Elements(r.grown) == Elements(a) + [v]
    ensures !r.ok ==> r.grown == a
    ensures r.grown.capacity == if a.size == a.capacity && reallocOk then
                                  (if a.capacity == 0 then 1 else 2 * a.capacity)
                                else a.capacity
  {
    if a.size == a.capacity then
      var capacity := if a.capacity == 0 then 1 else a.capacity * 2;
      if !reallocOk then Pushed(a, false)
      else
        var b := Realloc(a.buf, capacity);
        assert b[..a.size] == a.buf[..a.size];
        var grown := Array(b, a.size, capacity);
        var s := Store(grown, v);
        Pushed(s.value, true)
    else Pushed(Store(a, v).value, true)
  }

  /** The corrected `push_back` agrees with the written one whenever the
      written one keeps its invariant: room to spare, or a successful
      `realloc` on a non-empty capacity. */
  lemma FixedAgreesWhenGrowthSucceeds(a: Array, v: int, reallocOk: bool)
    requires Valid(a) && a.capacity > 0 && (a.size < a.capacity || reallocOk)
    ensures PushBack(a, v, reallocOk) == Ok(PushBackFixed(a, v, reallocOk).grown)
  {
  }
}
