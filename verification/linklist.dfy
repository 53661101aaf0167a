/** A singly linked list with a header node and 1-based positions.

    The heap is a store of nodes indexed by address; a node that is deleted
    stays in the store, unreachable. Next to the store the model keeps the
    chain's addresses in link order (`spine`, with the header first): it is
    what `Valid` ties the links to, and `Values` reads the list's contents
    off it. Every operation walks and relinks the store as the source does
    and updates the spine to match. */
module LinkList {
  import opened Wrappers

  datatype Ptr = Null | At(addr: nat)

  datatype Node<T> = Node(value: T, next: Ptr)

  datatype List<T> = List(store: seq<Node<T>>, header: nat, length: int, spine: seq<nat>)

  /** The chain starts at the header, has `length + 1` nodes each linking to
      the next, ends in a null link, and visits no node twice. */
  predicate Valid<T>(l: List<T>)
  {
    && l.length >= 0
    && |l.spine| == l.length + 1
    && l.spine[0] == l.header
    && (forall k :: 0 <= k < |l.spine| ==> l.spine[k] < |l.store|)
    && (forall k :: 0 <= k < l.length ==> l.store[l.spine[k]].next == At(l.spine[k + 1]))
    && l.store[l.spine[l.length]].next == Null
    && (forall i, j :: 0 <= i < j < |l.spine| ==> l.spine[i] != l.spine[j])
  }

  /** The elements, position 1 first. */
  function Values<T>(l: List<T>): (s: seq<T>)
    requires Valid(l)
    ensures |s| == l.length
  {
    seq(l.length, k requires 0 <= k < l.length => l.store[l.spine[k + 1]].value)
  }

  /** `position(k)`: follow `k` links from node `p`; `None` where the source
      would dereference a null or dangling pointer. */
  function Position<T>(store: seq<Node<T>>, p: nat, k: nat): Option<nat>
    decreases k
  {
    if k == 0 then Some(p)
    else if p < |store| && store[p].next.At? then Position(store, store[p].next.addr, k - 1)
    else None
  }

  /** Following `k` links from the `j`-th chain node reaches the `j + k`-th. */
  lemma {:induction false} PositionFrom<T>(l: List<T>, j: nat, k: nat)
    requires Valid(l) && j + k <= l.length
    ensures Position(l.store, l.spine[j], k) == Some(l.spine[j + k])
    decreases k
  {
    if k > 0 {
      PositionFrom(l, j + 1, k - 1);
    }
  }

  /** On a valid list `position(k)` is the `k`-th chain node, the header
      being the 0th. */
  lemma PositionIsSpine<T>(l: List<T>, k: nat)
    requires Valid(l) && k <= l.length
    ensures Position(l.store, l.header, k) == Some(l.spine[k])
  {
    PositionFrom(l, 0, k);
  }

  /** A new list: just the header, holding `zero`. */
  function Empty<T>(zero: T): (l: List<T>)
    ensures Valid(l) && Values(l) == [] && l.length == 0
  {
    List([Node(zero, Null)], 0, 0, [0])
  }

  /** Relink node `p` to `next`. */
  function Link<T>(store: seq<Node<T>>, p: nat, next: Ptr): (r: seq<Node<T>>)
    requires p < |store|
    ensures |r| == |store| && r[p].next == next
    ensures forall q :: 0 <= q < |r| ==> r[q].value == store[q].value
    ensures forall q :: 0 <= q < |r| && q != p ==> r[q] == store[q]
  {
    store[p := store[p].(next := next)]
  }

  /** `insert(elem)`: append after the last node. */
  function Append<T>(l: List<T>, e: T): (r: List<T>)
    requires Valid(l)
    ensures Valid(r) && Values(r) == Values(l) + [e]
  {
    PositionIsSpine(l, l.length);
    var p := Position(l.store, l.header, l.length).value;
    var n := |l.store|;
    var r := List(Link(l.store, p, At(n)) + [Node(e, Null)], l.header, l.length + 1, l.spine + [n]);
    AppendValid(l, e, r);
    r
  }

  lemma AppendValid<T>(l: List<T>, e: T, r: List<T>)
    requires Valid(l)
    requires r == List(Link(l.store, l.spine[l.length], At(|l.store|)) + [Node(e, Null)],
                       l.header, l.length + 1, l.spine + [|l.store|])
    ensures Valid(r) && Values(r) == Values(l) + [e]
  {
    AppendLinks(l, e, r);
    AppendValues(l, e, r);
  }

  lemma AppendLinks<T>(l: List<T>, e: T, r: List<T>)
    requires Valid(l)
    requires r == List(Link(l.store, l.spine[l.length], At(|l.store|)) + [Node(e, Null)],
                       l.header, l.length + 1, l.spine + [|l.store|])
    ensures forall k :: 0 <= k < r.length ==> r.store[r.spine[k]].next == At(r.spine[k + 1])
  {
    forall k | 0 <= k < r.length
      ensures r.store[r.spine[k]].next == At(r.spine[k + 1])
    {
      if k < l.length {
        assert l.spine[k] != l.spine[l.length];
      }
    }
  }

  lemma AppendValues<T>(l: List<T>, e: T, r: List<T>)
    requires Valid(l) && Valid(r)
    requires r == List(Link(l.store, l.spine[l.length], At(|l.store|)) + [Node(e, Null)],
                       l.header, l.length + 1, l.spine + [|l.store|])
    ensures Values(r) == Values(l) + [e]
  {
    forall k | 0 <= k < l.length
      ensures Values(r)[k] == Values(l)[k]
    {
      assert r.spine[k + 1] == l.spine[k + 1] < |l.store|;
    }
  }

  /** The outcome of an operation that reports success. */
  datatype Outcome<T> = Outcome(list: List<T>, ok: bool)

  /** Put `e` at position `idx` of a valid list, `1 <= idx <= length`: after
      node `idx - 1`, before the old node `idx`. */
  function Splice<T>(l: List<T>, idx: int, e: T): (r: List<T>)
    requires Valid(l) && 1 <= idx <= l.length
    ensures Valid(r) && r.length == l.length + 1
    ensures Values(r) == Values(l)[..idx - 1] + [e] + Values(l)[idx - 1..]
  {
    PositionIsSpine(l, idx - 1);
    var p := Position(l.store, l.header, idx - 1).value;
    var n := |l.store|;
    var store := Link(l.store, p, At(n)) + [Node(e, l.store[p].next)];
    var r := List(store, l.header, l.length + 1, l.spine[..idx] + [n] + l.spine[idx..]);
    assert Spliced(l, idx, e, r);
    SpliceValid(l, idx, e, r);
    r
  }

  /** The list `Splice` builds, spelled out on the chain addresses. */
  ghost predicate Spliced<T>(l: List<T>, idx: int, e: T, r: List<T>)
    requires Valid(l) && 1 <= idx <= l.length
  {
    r == List(Link(l.store, l.spine[idx - 1], At(|l.store|)) + [Node(e, l.store[l.spine[idx - 1]].next)],
              l.header, l.length + 1, l.spine[..idx] + [|l.store|] + l.spine[idx..])
  }

  /** Where the spliced chain's addresses come from. */
  lemma SplicedSpine<T>(l: List<T>, idx: int, e: T, r: List<T>)
    requires Valid(l) && 1 <= idx <= l.length && Spliced(l, idx, e, r)
    ensures |r.spine| == |l.spine| + 1 && r.length == l.length + 1
    ensures forall k :: 0 <= k < idx ==> r.spine[k] == l.spine[k]
    ensures r.spine[idx] == |l.store|
    ensures forall k :: idx < k < |r.spine| ==> r.spine[k] == l.spine[k - 1]
    ensures |r.store| == |l.store| + 1 && r.store[|l.store|] == Node(e, At(l.spine[idx]))
    ensures r.store[l.spine[idx - 1]].next == At(|l.store|)
    ensures forall q :: 0 <= q < |l.store| && q != l.spine[idx - 1] ==> r.store[q] == l.store[q]
    ensures forall q :: 0 <= q < |l.store| ==> r.store[q].value == l.store[q].value
  {
  }

  lemma SpliceLinks<T>(l: List<T>, idx: int, e: T, r: List<T>)
    requires Valid(l) && 1 <= idx <= l.length && Spliced(l, idx, e, r)
    ensures forall k :: 0 <= k < r.length ==> r.store[r.spine[k]].next == At(r.spine[k + 1])
    ensures r.store[r.spine[r.length]].next == Null
  {
    SplicedSpine(l, idx, e, r);
    var sp := r.spine;
    forall k | 0 <= k < r.length
      ensures r.store[sp[k]].next == At(sp[k + 1])
    {
      if k < idx - 1 {
        assert l.spine[k] != l.spine[idx - 1];
      } else if idx < k {
        assert l.spine[k - 1] != l.spine[idx - 1];
      }
    }
    assert sp[r.length] == l.spine[l.length];
    assert l.spine[l.length] != l.spine[idx - 1];
  }

  lemma SpliceAcyclic<T>(l: List<T>, idx: int, e: T, r: List<T>)
    requires Valid(l) && 1 <= idx <= l.length && Spliced(l, idx, e, r)
    ensures forall k :: 0 <= k < |r.spine| ==> r.spine[k] < |r.store|
    ensures forall i, j :: 0 <= i < j < |r.spine| ==> r.spine[i] != r.spine[j]
  {
    SplicedSpine(l, idx, e, r);
    var sp := r.spine;
    forall i, j | 0 <= i < j < |sp|
      ensures sp[i] != sp[j]
    {
      if i != idx && j != idx {
        var i' := if i < idx then i else i - 1;
        var j' := if j < idx then j else j - 1;
        assert sp[i] == l.spine[i'] && sp[j] == l.spine[j'];
      }
    }
  }

  lemma SpliceValid<T>(l: List<T>, idx: int, e: T, r: List<T>)
    requires Valid(l) && 1 <= idx <= l.length && Spliced(l, idx, e, r)
    ensures Valid(r)
    ensures Values(r) == Values(l)[..idx - 1] + [e] + Values(l)[idx - 1..]
  {
    SplicedSpine(l, idx, e, r);
    SpliceLinks(l, idx, e, r);
    SpliceAcyclic(l, idx, e, r);
    assert Valid(r);
    var want := Values(l)[..idx - 1] + [e] + Values(l)[idx - 1..];
    forall k | 0 <= k < r.length
      ensures Values(r)[k] == want[k]
    {
    }
  }

  /** `insert(idx, elem)` as written: the guard `0 < idx < length + 1`
      admits `1 <= idx <= length` only, so the source's inner branch for
      `idx == length + 1` (append through `insert(elem)`) can never be
      taken; it is left out here, and every admitted position splices. */
  function InsertAt<T>(l: List<T>, idx: int, e: T): (r: Outcome<T>)
    requires Valid(l)
    ensures Valid(r.list)
  {
    var ok := 0 < idx < l.length + 1;
    if !ok then Outcome(l, false)
    else Outcome(Splice(l, idx, e), true)
  }

  /** Positional insertion succeeds exactly for `1 <= idx <= length`; the new
      element is at position `idx` and the later ones move one right. In
      particular it never appends, and on an empty list it always fails. */
  lemma InsertAtSpec<T>(l: List<T>, idx: int, e: T)
    requires Valid(l)
    ensures InsertAt(l, idx, e).ok <==> 1 <= idx <= l.length
    ensures InsertAt(l, idx, e).ok ==>
      Values(InsertAt(l, idx, e).list) == Values(l)[..idx - 1] + [e] + Values(l)[idx - 1..]
    ensures !InsertAt(l, idx, e).ok ==> InsertAt(l, idx, e).list == l
    ensures !InsertAt(l, l.length + 1, e).ok
  {
  }

  /** Positional insertion as its dead branch shows it was meant: the guard
      `0 < idx <= length + 1`, with `idx == length + 1` appending. */
  function InsertAtIntended<T>(l: List<T>, idx: int, e: T): (r: Outcome<T>)
    requires Valid(l)
    ensures Valid(r.list)
    ensures r.ok <==> 1 <= idx <= l.length + 1
    ensures r.ok ==> Values(r.list) == Values(l)[..idx - 1] + [e] + Values(l)[idx - 1..]
    ensures !r.ok ==> r.list == l
  {
    var ok := 0 < idx <= l.length + 1;
    if !ok then Outcome(l, false)
    else if idx == l.length + 1 then Outcome(Append(l, e), true)
    else Outcome(Splice(l, idx, e), true)
  }

  /** The intended insertion at `length + 1` is `insert(elem)`, and on
      positions the written guard admits the two agree. */
  lemma InsertAtIntendedExtends<T>(l: List<T>, idx: int, e: T)
    requires Valid(l)
    ensures InsertAtIntended(l, l.length + 1, e).ok
    ensures Values(InsertAtIntended(l, l.length + 1, e).list) == Values(Append(l, e))
    ensures 1 <= idx <= l.length ==> InsertAtIntended(l, idx, e) == InsertAt(l, idx, e)
  {
  }

  /** `remove(idx)`: unlink node `idx`; the last node is cut off with a
      null link, any other is bypassed. */
  function Remove<T>(l: List<T>, idx: int): (r: Outcome<T>)
    requires Valid(l)
    ensures Valid(r.list)
    ensures r.ok <==> 1 <= idx <= l.length
    ensures r.ok ==> Values(r.list) == Values(l)[..idx - 1] + Values(l)[idx..]
    ensures !r.ok ==> r.list == l
  {
    var ok := 0 < idx <= l.length;
    if !ok then Outcome(l, false)
    else
      PositionIsSpine(l, idx - 1);
      var p := Position(l.store, l.header, idx - 1).value;
      assert idx < l.length ==> l.store[p].next == At(l.spine[idx]);
      var store :=
        if idx == l.length then Link(l.store, p, Null)
        else Link(l.store, p, l.store[l.store[p].next.addr].next);
      var r := List(store, l.header, l.length - 1, l.spine[..idx] + l.spine[idx + 1..]);
      assert Removed(l, idx, r);
      RemoveValid(l, idx, r);
      Outcome(r, true)
  }

  /** The list `Remove` builds on success, spelled out on the chain
      addresses. */
  ghost predicate Removed<T>(l: List<T>, idx: int, r: List<T>)
    requires Valid(l) && 1 <= idx <= l.length
  {
    && r.header == l.header && r.length == l.length - 1
    && r.spine == l.spine[..idx] + l.spine[idx + 1..]
    && (idx == l.length ==> r.store == Link(l.store, l.spine[idx - 1], Null))
    && (idx < l.length ==> r.store == Link(l.store, l.spine[idx - 1], l.store[l.spine[idx]].next))
  }

  lemma RemovedSpine<T>(l: List<T>, idx: int, r: List<T>)
    requires Valid(l) && 1 <= idx <= l.length && Removed(l, idx, r)
    ensures |r.spine| == |l.spine| - 1
    ensures forall k :: 0 <= k < idx ==> r.spine[k] == l.spine[k]
    ensures forall k :: idx <= k < |r.spine| ==> r.spine[k] == l.spine[k + 1]
    ensures |r.store| == |l.store|
    ensures r.store[l.spine[idx - 1]].next == if idx == l.length then Null else At(l.spine[idx + 1])
    ensures forall q :: 0 <= q < |l.store| && q != l.spine[idx - 1] ==> r.store[q] == l.store[q]
    ensures forall q :: 0 <= q < |l.store| ==> r.store[q].value == l.store[q].value
  {
  }

  lemma RemoveLinks<T>(l: List<T>, idx: int, r: List<T>)
    requires Valid(l) && 1 <= idx <= l.length && Removed(l, idx, r)
    ensures forall k :: 0 <= k < r.length ==> r.store[r.spine[k]].next == At(r.spine[k + 1])
    ensures r.store[r.spine[r.length]].next == Null
  {
    RemovedSpine(l, idx, r);
    var sp := r.spine;
    forall k | 0 <= k < r.length
      ensures r.store[sp[k]].next == At(sp[k + 1])
    {
      if k != idx - 1 {
        var k' := if k < idx then k else k + 1;
        assert sp[k] == l.spine[k'] && sp[k + 1] == l.spine[k' + 1];
        assert l.spine[k'] != l.spine[idx - 1];
      }
    }
    if idx < l.length {
      assert sp[r.length] == l.spine[l.length];
      assert l.spine[l.length] != l.spine[idx - 1];
    }
  }

  lemma RemoveAcyclic<T>(l: List<T>, idx: int, r: List<T>)
    requires Valid(l) && 1 <= idx <= l.length && Removed(l, idx, r)
    ensures forall k :: 0 <= k < |r.spine| ==> r.spine[k] < |r.store|
    ensures forall i, j :: 0 <= i < j < |r.spine| ==> r.spine[i] != r.spine[j]
  {
    RemovedSpine(l, idx, r);
    var sp := r.spine;
    forall i, j | 0 <= i < j < |sp|
      ensures sp[i] != sp[j]
    {
      var i' := if i < idx then i else i + 1;
      var j' := if j < idx then j else j + 1;
      assert sp[i] == l.spine[i'] && sp[j] == l.spine[j'];
    }
  }

  lemma RemoveValid<T>(l: List<T>, idx: int, r: List<T>)
    requires Valid(l) && 1 <= idx <= l.length && Removed(l, idx, r)
    ensures Valid(r)
    ensures Values(r) == Values(l)[..idx - 1] + Values(l)[idx..]
  {
    RemovedSpine(l, idx, r);
    RemoveLinks(l, idx, r);
    RemoveAcyclic(l, idx, r);
    assert Valid(r);
    var want := Values(l)[..idx - 1] + Values(l)[idx..];
    forall k | 0 <= k < r.length
      ensures Values(r)[k] == want[k]
    {
      var k' := if k + 1 < idx then k + 1 else k + 2;
      assert r.spine[k + 1] == l.spine[k'];
    }
  }

  /** `set(idx, elem)`: overwrite position `idx` in place. */
  function Set<T>(l: List<T>, idx: int, e: T): (r: Outcome<T>)
    requires Valid(l)
    ensures Valid(r.list)
    ensures r.ok <==> 1 <= idx <= l.length
    ensures r.ok ==> Values(r.list) == Values(l)[idx - 1 := e]
    ensures !r.ok ==> r.list == l
  {
    var ok := 0 < idx <= l.length;
    if !ok then Outcome(l, false)
    else
      PositionIsSpine(l, idx);
      var p := Position(l.store, l.header, idx).value;
      var r := l.(store := l.store[p := l.store[p].(value := e)]);
      SetValid(l, idx, e, r);
      Outcome(r, true)
  }

  lemma SetValid<T>(l: List<T>, idx: int, e: T, r: List<T>)
    requires Valid(l) && 1 <= idx <= l.length
    requires r == l.(store := l.store[l.spine[idx] := l.store[l.spine[idx]].(value := e)])
    ensures Valid(r)
    ensures Values(r) == Values(l)[idx - 1 := e]
  {
    forall k | 0 <= k < l.length
      ensures Values(r)[k] == Values(l)[idx - 1 := e][k]
    {
      if k + 1 != idx {
        assert l.spine[k + 1] != l.spine[idx];
      }
    }
  }

  /** `get(idx, e)`: the element at position `idx`, or nothing (and `e`
      untouched) out of range. */
  function Get<T>(l: List<T>, idx: int): (r: Option<T>)
    requires Valid(l)
    ensures r.Some? <==> 1 <= idx <= l.length
    ensures r.Some? ==> r.value == Values(l)[idx - 1]
  {
    if 0 < idx <= l.length then
      PositionIsSpine(l, idx);
      Some(l.store[Position(l.store, l.header, idx).value].value)
    else None
  }

  /** Reading back a position just written gives the written element, and
      every other position is untouched. */
  lemma GetAfterSet<T>(l: List<T>, idx: int, e: T, other: int)
    requires Valid(l) && 1 <= idx <= l.length
    ensures Get(Set(l, idx, e).list, idx) == Some(e)
    ensures other != idx ==> Get(Set(l, idx, e).list, other) == Get(l, other)
  {
  }

  /** Inserting at a position and removing that position gives the list
      back. */
  lemma RemoveUndoesInsert<T>(l: List<T>, idx: int, e: T)
    requires Valid(l) && 1 <= idx <= l.length + 1
    ensures Values(Remove(InsertAtIntended(l, idx, e).list, idx).list) == Values(l)
  {
    hide *;
    var s := Values(l);
    var l1 := InsertAtIntended(l, idx, e).list;
    var t := Values(l1);
    assert t == s[..idx - 1] + [e] + s[idx - 1..];
    assert t[..idx - 1] == s[..idx - 1] && t[idx..] == s[idx - 1..];
    assert Values(Remove(l1, idx).list) == t[..idx - 1] + t[idx..];
    assert s[..idx - 1] + s[idx - 1..] == s;
  }

  /** `clear`: `length` times, unlink the node after the header. */
  method Clear<T>(l: List<T>) returns (r: List<T>)
    requires Valid(l)
    ensures Valid(r) && Values(r) == [] && r.header == l.header
    ensures |r.store| == |l.store|
  {
    var store := l.store;
    var pos := 1;
    while pos <= l.length
      invariant 1 <= pos <= l.length + 1
      invariant |store| == |l.store|
      invariant store[l.header] == l.store[l.header].(next := l.store[l.spine[pos - 1]].next)
      invariant forall k :: pos <= k <= l.length ==> store[l.spine[k]] == l.store[l.spine[k]]
    {
      assert l.store[l.spine[pos - 1]].next == At(l.spine[pos]);
      var toDel := store[l.header].next.addr;
      assert toDel == l.spine[pos];
      store := store[l.header := store[l.header].(next := store[toDel].next)];
      forall k | pos + 1 <= k <= l.length
        ensures store[l.spine[k]] == l.store[l.spine[k]]
      {
        assert l.spine[k] != l.spine[0];
      }
      pos := pos + 1;
    }
    r := List(store, l.header, 0, [l.header]);
  }
}
