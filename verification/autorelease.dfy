/** The arena that also runs destructors: creating an object whose type is
    not trivially destructible records a destructor node at the head of a
    chain, and `reset` (also run by the arena's destructor) calls the
    recorded destructors newest first before rewinding the cursor.

    Bump allocation is the `Arena` model's. Running a destructor is an event
    in the returned log; what the destructor does is not modelled. */
module AutoRelease {
  import opened Wrappers
  import Arena

  /** A recorded destruction: which type's destructor, on which object. */
  datatype DtorNode = DtorNode(dtor: nat, obj: nat)

  /** A type as `create<T>` sees it: `sizeof(T)`, `alignof(T)`, whether it is
      trivially destructible, and which destructor it has. */
  datatype Type = Type(size: nat, align: nat, trivial: bool, dtor: nat)

  /** The arena's block and cursor, and the destructor chain, head first. */
  datatype AutoArena = AutoArena(heap: Arena.Heap, chain: seq<DtorNode>)

  /** The size and alignment of a `DestructorNode`. */
  datatype NodeLayout = NodeLayout(size: nat, align: nat)

  /** C++ object sizes are at least one byte and alignments are positive. */
  predicate WellFormed(t: Type, node: NodeLayout)
  {
    t.size > 0 && t.align > 0 && node.size > 0 && node.align > 0
  }

  /** The invariant: the cursor lies inside the block, every recorded object
      lies below the cursor, and the chain is newest first, so recorded
      addresses strictly decrease along it. */
  predicate Valid(ar: AutoArena)
  {
    && Arena.Valid(ar.heap)
    && (forall k :: 0 <= k < |ar.chain| ==> ar.heap.begin <= ar.chain[k].obj < ar.heap.current)
    && (forall i, j :: 0 <= i < j < |ar.chain| ==> ar.chain[j].obj < ar.chain[i].obj)
  }

  function New(size: nat, block: Option<nat>): (r: Result<AutoArena, Arena.Error>)
    requires block.Some? ==> block.value != 0
    ensures r.Err? <==> block.None?
    ensures r.Ok? ==> Valid(r.value) && r.value.chain == [] && Arena.Used(r.value.heap) == 0
  {
    match Arena.New(size, block)
    case Err(e) => Err(e)
    case Ok(h) => Ok(AutoArena(h, []))
  }

  /** The outcome of `create<T>`: the arena after it, the object's address
      (`None` when `bad_alloc` was thrown) and the destructors run on the
      way out. */
  datatype Created = Created(arena: AutoArena, obj: Option<nat>, destroyed: seq<DtorNode>)

  function Create(ar: AutoArena, t: Type, node: NodeLayout): (r: Created)
    requires WellFormed(t, node)
  {
    var first := Arena.Allocate(ar.heap, t.size, t.align);
    if first.addr.None? then Created(ar, None, [])
    else
      var obj := first.addr.value;
      if t.trivial then Created(ar.(heap := first.heap), Some(obj), [])
      else
        var second := Arena.Allocate(first.heap, node.size, node.align);
        if second.addr.None? then
          // The object is destroyed and `bad_alloc` thrown; the cursor
          // keeps the object's bytes.
          Created(ar.(heap := first.heap), None, [DtorNode(t.dtor, obj)])
        else
          Created(AutoArena(second.heap, [DtorNode(t.dtor, obj)] + ar.chain), Some(obj), [])
  }

  /** What `create<T>` does to the chain: a trivially destructible type
      pushes nothing, any other type pushes exactly one node, for the new
      object, at the head; a failed creation leaves the chain alone and
      never runs a recorded destructor. */
  lemma CreateChain(ar: AutoArena, t: Type, node: NodeLayout)
    requires WellFormed(t, node)
    ensures var r := Create(ar, t, node);
      && (r.obj.Some? && t.trivial ==> r.arena.chain == ar.chain)
      && (r.obj.Some? && !t.trivial ==> r.arena.chain == [DtorNode(t.dtor, r.obj.value)] + ar.chain)
      && (r.obj.None? ==> r.arena.chain == ar.chain)
      && (r.obj.Some? ==> r.destroyed == [])
  {
  }

  /** When the object fits but its destructor node does not, the object is
      destroyed right away and `bad_alloc` thrown, and the object's bytes
      stay allocated: the cursor is not rolled back. */
  lemma CreateNodeFailure(ar: AutoArena, t: Type, node: NodeLayout)
    requires WellFormed(t, node) && !t.trivial
    requires Arena.Allocate(ar.heap, t.size, t.align).addr.Some?
    requires Arena.Allocate(Arena.Allocate(ar.heap, t.size, t.align).heap, node.size, node.align).addr.None?
    ensures var r := Create(ar, t, node);
      && r.obj.None?
      && r.destroyed == [DtorNode(t.dtor, Arena.Allocate(ar.heap, t.size, t.align).addr.value)]
      && r.arena.heap.current > ar.heap.current
  {
  }

  /** Creation keeps the invariant. */
  lemma CreateValid(ar: AutoArena, t: Type, node: NodeLayout)
    requires WellFormed(t, node) && Valid(ar)
    ensures Valid(Create(ar, t, node).arena)
  {
    var r := Create(ar, t, node);
    Arena.AllocateValid(ar.heap, t.size, t.align);
    var first := Arena.Allocate(ar.heap, t.size, t.align);
    if first.addr.Some? && !t.trivial {
      Arena.AllocateValid(first.heap, node.size, node.align);
      var second := Arena.Allocate(first.heap, node.size, node.align);
      if second.addr.Some? {
        var obj := first.addr.value;
        var c := r.arena.chain;
        assert c == [DtorNode(t.dtor, obj)] + ar.chain;
        forall i, j | 0 <= i < j < |c|
          ensures c[j].obj < c[i].obj
        {
          if i == 0 {
            assert c[j] == ar.chain[j - 1];
          } else {
            assert c[i] == ar.chain[i - 1] && c[j] == ar.chain[j - 1];
          }
        }
      }
    }
  }

  /** The outcome of `reset`: the arena after it and the destructor calls, in
      the order made. */
  datatype Released = Released(arena: AutoArena, ran: seq<DtorNode>)

  /** `reset`: walk the chain from its head, calling each destructor, then
      drop the chain and rewind the cursor. */
  method Reset(ar: AutoArena) returns (r: Released)
    ensures r.ran == ar.chain
    ensures r.arena.chain == []
    ensures r.arena.heap == Arena.Reset(ar.heap)
  {
    var ran := [];
    var node := ar.chain;
    while node != []
      invariant ran + node == ar.chain
      decreases |node|
    {
      ran := ran + [node[0]];
      node := node[1..];
    }
    r := Released(AutoArena(Arena.Reset(ar.heap), []), ran);
  }

  /** Every recorded destructor runs exactly once, newest object first. */
  lemma ResetRunsEachOnce(ar: AutoArena, ran: seq<DtorNode>)
    requires Valid(ar) && ran == ar.chain
    ensures forall i, j :: 0 <= i < j < |ran| ==> ran[i] != ran[j]
    ensures forall i, j :: 0 <= i < j < |ran| ==> ran[j].obj < ran[i].obj
  {
  }

  /** A second `reset` runs no destructor and changes nothing. */
  method ResetIdempotent(ar: AutoArena) returns (first: Released, second: Released)
    ensures second.ran == []
    ensures second.arena == first.arena
    ensures first.ran == ar.chain
  {
    first := Reset(ar);
    second := Reset(first.arena);
  }

  /** The arena's destructor: `reset`, then the block is freed (not
      modelled); the destructor calls are those of `reset`. */
  method Destroy(ar: AutoArena) returns (ran: seq<DtorNode>)
    ensures ran == ar.chain
  {
    var r := Reset(ar);
    ran := r.ran;
  }
}
