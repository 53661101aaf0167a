/** A dismissable scope guard: it holds a callback and runs it when it is
    destroyed, unless it has been dismissed. Moving a guard hands the
    callback and its armed state to the new guard and dismisses the old
    one.

    Running the callback is an event: destruction returns the callbacks it
    ran, in order. */
module ScopeGuard {

  datatype Guard<F> = Guard(func: F, dismissed: bool)

  /** Construction from a callback, by copy or by move: armed, so a guard
      destroyed untouched runs its callback exactly once. */
  function Make<F>(f: F): (g: Guard<F>)
    ensures !g.dismissed && g.func == f
    ensures Destroy(g) == [f]
  {
    Guard(f, false)
  }

  /** `Dismiss()`: the guard keeps its callback but will not run it. */
  function Dismiss<F>(g: Guard<F>): (r: Guard<F>)
    ensures r.dismissed && r.func == g.func
    ensures Destroy(r) == []
  {
    g.(dismissed := true)
  }

  /** The destructor: the callbacks run, at most one. */
  function Destroy<F>(g: Guard<F>): (ran: seq<F>)
    ensures |ran| <= 1
  {
    if g.dismissed then [] else [g.func]
  }

  /** Dismissing twice is dismissing once, and a dismissed guard runs
      nothing. */
  lemma DismissIdempotent<F>(g: Guard<F>)
    ensures Dismiss(Dismiss(g)) == Dismiss(g)
    ensures Destroy(Dismiss(g)) == []
  {
  }

  /** The move constructor: the new guard takes the callback and the armed
      state; the source is dismissed. Together the pair runs what the source
      alone would have run: the moved-from guard runs nothing, so the
      callback fires at most once, and only if the source was armed. */
  function Move<F>(src: Guard<F>): (r: (Guard<F>, Guard<F>))
    ensures r.0.func == src.func && r.0.dismissed == src.dismissed
    ensures r.1.dismissed
    ensures Destroy(r.1) == [] && Destroy(r.0) == Destroy(src)
    ensures Destroy(r.0) + Destroy(r.1) == Destroy(src)
  {
    (Guard(src.func, src.dismissed), Dismiss(src))
  }

  /** `MakeGuard(f)`: a guard for `f`, armed. */
  function MakeGuard<F>(f: F): (g: Guard<F>)
    ensures Destroy(g) == [f]
  {
    Make(f)
  }
}
