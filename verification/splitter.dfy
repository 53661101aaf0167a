/** Balanced static work partition: thread `tid` of a team of `team`
    threads gets the half-open range `[start, end)` of `[0, n)`.

    The first `T1` threads take `ceil(n / team)` items and the rest one item
    fewer. Quantities are unbounded naturals: the source's unsigned
    arithmetic does not wrap for any count a team can share. */
module Splitter {

  datatype Range = Range(start: nat, end: nat)

  /** `ceil(n / team)` and the bounds that characterise it. */
  function BigChunk(n: nat, team: nat): (n1: nat)
    requires team > 1 && n > 0
    ensures 1 <= n1
    ensures (n1 - 1) * team < n <= n1 * team
  {
    var n1 := (n + team - 1) / team;
    assert n1 * team + (n + team - 1) % team == n + team - 1;
    n1
  }

  /** How many threads take the larger chunk. */
  function BigCount(n: nat, team: nat): (t1: nat)
    requires team > 1 && n > 0
    ensures 1 <= t1 <= team
    ensures t1 * BigChunk(n, team) + (team - t1) * (BigChunk(n, team) - 1) == n
  {
    var n1 := BigChunk(n, team);
    var t1 := n - (n1 - 1) * team;
    assert t1 * n1 + (team - t1) * (n1 - 1) == t1 + team * (n1 - 1);
    t1
  }

  /** The range of thread `tid`. A team of at most one thread, or an empty
      range, gives every thread the whole of `[0, n)`. */
  function Split(n: nat, team: nat, tid: nat): (r: Range)
  {
    if team <= 1 || n == 0 then Range(0, n)
    else
      var n1 := BigChunk(n, team);
      var n2 := n1 - 1;
      var t1 := BigCount(n, team);
      var count := if tid < t1 then n1 else n2;
      var start := if tid <= t1 then tid * n1 else t1 * n1 + (tid - t1) * n2;
      Range(start, start + count)
  }

  /** Without a real team, or with nothing to share, the range is `[0, n)`. */
  lemma SplitTrivial(n: nat, team: nat, tid: nat)
    requires team <= 1 || n == 0
    ensures Split(n, team, tid) == Range(0, n)
  {
  }

  /** Each thread's share is `ceil(n / team)` for the first `T1` threads and
      one fewer for the others, so any two shares differ by at most one. */
  lemma ChunkSizes(n: nat, team: nat, tid: nat, other: nat)
    requires team > 1 && n > 0
    ensures Split(n, team, tid).start <= Split(n, team, tid).end
    ensures Split(n, team, tid).end - Split(n, team, tid).start ==
            if tid < BigCount(n, team) then BigChunk(n, team) else BigChunk(n, team) - 1
    ensures n <= BigChunk(n, team) * team < n + team
    ensures Split(n, team, tid).end - Split(n, team, tid).start <=
            Split(n, team, other).end - Split(n, team, other).start + 1
  {
    var n1 := BigChunk(n, team);
    assert (n1 - 1) * team == n1 * team - team;
    SplitLength(n, team, tid);
    SplitLength(n, team, other);
  }

  lemma SplitLength(n: nat, team: nat, tid: nat)
    requires team > 1 && n > 0
    ensures Split(n, team, tid).start <= Split(n, team, tid).end
    ensures Split(n, team, tid).end - Split(n, team, tid).start ==
            if tid < BigCount(n, team) then BigChunk(n, team) else BigChunk(n, team) - 1
  {
    hide BigChunk, BigCount;
  }

  /** The first thread starts at 0 and each thread ends where the next one
      starts. */
  lemma {:induction false} Contiguous(n: nat, team: nat, tid: nat)
    requires team > 1 && n > 0
    ensures Split(n, team, 0).start == 0
    ensures Split(n, team, tid).end == Split(n, team, tid + 1).start
  {
    var n1 := BigChunk(n, team);
    var t1 := BigCount(n, team);
    if tid < t1 {
      assert Split(n, team, tid + 1).start == (tid + 1) * n1;
    } else if tid == t1 {
      assert Split(n, team, tid + 1).start == t1 * n1 + (n1 - 1);
    } else {
      assert Split(n, team, tid + 1).start == t1 * n1 + (tid - t1) * (n1 - 1) + (n1 - 1);
    }
  }

  /** The last thread ends at `n`. */
  lemma LastEndsAtN(n: nat, team: nat)
    requires team > 1 && n > 0
    ensures Split(n, team, team - 1).end == n
  {
    var n1 := BigChunk(n, team);
    var t1 := BigCount(n, team);
    hide BigChunk, BigCount;
    if t1 == team {
      assert (team - 1) * n1 + n1 == team * n1;
      assert Split(n, team, team - 1).end == (team - 1) * n1 + n1;
    } else {
      assert (team - 1 - t1) * (n1 - 1) + (n1 - 1) == (team - t1) * (n1 - 1);
      assert Split(n, team, team - 1).end == t1 * n1 + (team - 1 - t1) * (n1 - 1) + (n1 - 1);
    }
  }

  /** Ranges never go backwards: a later thread starts no earlier than an
      earlier thread ends. */
  lemma {:induction false} Ordered(n: nat, team: nat, tid: nat, later: nat)
    requires team > 1 && n > 0 && tid < later
    ensures Split(n, team, tid).end <= Split(n, team, later).start
    decreases later - tid
  {
    Contiguous(n, team, tid);
    if tid + 1 < later {
      ChunkSizes(n, team, tid + 1, tid + 1);
      Ordered(n, team, tid + 1, later);
    }
  }

  /** Every index below `Split(n, team, k).end` is owned by one of the
      threads `0 .. k`. */
  lemma {:induction false} CoveredUpTo(n: nat, team: nat, k: nat, i: nat)
    requires team > 1 && n > 0 && i < Split(n, team, k).end
    ensures exists t :: 0 <= t <= k && Split(n, team, t).start <= i < Split(n, team, t).end
  {
    if i < Split(n, team, k).start {
      assert k > 0 by {
        Contiguous(n, team, 0);
      }
      Contiguous(n, team, k - 1);
      CoveredUpTo(n, team, k - 1, i);
    }
  }

  /** The team's ranges partition `[0, n)`: every index belongs to exactly
      one thread, and no thread's range leaves `[0, n)`. */
  lemma Partition(n: nat, team: nat, i: nat)
    requires team > 1 && i < n
    ensures exists t :: 0 <= t < team && Split(n, team, t).start <= i < Split(n, team, t).end
    ensures forall t, u ::
      (0 <= t < team && 0 <= u < team &&
       Split(n, team, t).start <= i < Split(n, team, t).end &&
       Split(n, team, u).start <= i < Split(n, team, u).end) ==> t == u
    ensures forall t :: 0 <= t < team ==> Split(n, team, t).end <= n
  {
    LastEndsAtN(n, team);
    CoveredUpTo(n, team, team - 1, i);
    forall t, u | 0 <= t < team && 0 <= u < team &&
      Split(n, team, t).start <= i < Split(n, team, t).end &&
      Split(n, team, u).start <= i < Split(n, team, u).end
      ensures t == u
    {
      if t < u {
        Ordered(n, team, t, u);
      } else if u < t {
        Ordered(n, team, u, t);
      }
    }
    forall t | 0 <= t < team
      ensures Split(n, team, t).end <= n
    {
      if t < team - 1 {
        Ordered(n, team, t, team - 1);
        ChunkSizes(n, team, team - 1, team - 1);
      }
    }
  }
}
