/** Runs of a transition system: any finite sequence of steps, each possible where it is taken. */
module Runs {
  import opened Bytes

  /** Where the steps lead from `s`; None if one of them is not possible. */
  ghost function Run<S, A>(next: (S, A) -> Option<S>, s: S, steps: seq<A>): (end: Option<S>) {
    if steps == [] then Some(s)
    else
      var before := Run(next, s, steps[..|steps| - 1]);
      if before.None? then None else next(before.value, steps[|steps| - 1])
  }

  lemma RunSnoc<S, A>(next: (S, A) -> Option<S>, s: S, steps: seq<A>, step: A)
    requires Run(next, s, steps).Some?
    ensures Run(next, s, steps + [step]) == next(Run(next, s, steps).value, step)
  {
    assert (steps + [step])[..|steps|] == steps;
  }

  /** `inv` survives every possible step that `ok` allows. */
  ghost predicate Keeps<S(!new), A(!new)>(next: (S, A) -> Option<S>, ok: A -> bool, inv: S -> bool) {
    forall s, a :: inv(s) && ok(a) && next(s, a).Some? ==> inv(next(s, a).value)
  }

  ghost predicate All<A>(ok: A -> bool, steps: seq<A>) {
    forall i :: 0 <= i < |steps| ==> ok(steps[i])
  }

  lemma {:induction false} RunsKeep<S(!new), A(!new)>(
      next: (S, A) -> Option<S>, ok: A -> bool, inv: S -> bool, s: S, steps: seq<A>)
    requires Keeps(next, ok, inv) && inv(s) && All(ok, steps) && Run(next, s, steps).Some?
    ensures inv(Run(next, s, steps).value)
  {
    if steps != [] {
      RunsKeep(next, ok, inv, s, steps[..|steps| - 1]);
    }
  }

  /** Every allowed step lowers the measure. */
  ghost predicate Lowers<S(!new), A(!new)>(
      next: (S, A) -> Option<S>, ok: A -> bool, inv: S -> bool, measure: S -> nat)
  {
    forall s, a :: inv(s) && ok(a) && next(s, a).Some? ==> measure(next(s, a).value) < measure(s)
  }

  /** A run of such steps is no longer than the measure allows. */
  lemma {:induction false} RunsDescend<S(!new), A(!new)>(
      next: (S, A) -> Option<S>, ok: A -> bool, inv: S -> bool, measure: S -> nat, s: S, steps: seq<A>)
    requires Keeps(next, ok, inv) && Lowers(next, ok, inv, measure)
    requires inv(s) && All(ok, steps) && Run(next, s, steps).Some?
    ensures |steps| + measure(Run(next, s, steps).value) <= measure(s)
  {
    if steps != [] {
      var before := steps[..|steps| - 1];
      RunsDescend(next, ok, inv, measure, s, before);
      RunsKeep(next, ok, inv, s, before);
    }
  }

  /** How many steps of a run are moves. */
  ghost function Moves<S, A>(next: (S, A) -> Option<S>, moves: (S, A) -> bool, s: S, steps: seq<A>): (n: nat)
    requires Run(next, s, steps).Some?
  {
    if steps == [] then 0
    else
      var before := steps[..|steps| - 1];
      Moves(next, moves, s, before) + if moves(Run(next, s, before).value, steps[|steps| - 1]) then 1 else 0
  }

  /** No step raises the measure, and every move lowers it. */
  ghost predicate MovesLower<S(!new), A(!new)>(
      next: (S, A) -> Option<S>, inv: S -> bool, moves: (S, A) -> bool, measure: S -> nat)
  {
    forall s, a :: inv(s) && next(s, a).Some? ==>
      measure(next(s, a).value) + (if moves(s, a) then 1 else 0) <= measure(s)
  }

  /** However many other steps a run has, its moves are no more than the measure allows. */
  lemma {:induction false} MovesDescend<S(!new), A(!new)>(
      next: (S, A) -> Option<S>, inv: S -> bool, moves: (S, A) -> bool, measure: S -> nat, s: S, steps: seq<A>)
    requires Keeps(next, _ => true, inv) && MovesLower(next, inv, moves, measure)
    requires inv(s) && Run(next, s, steps).Some?
    ensures Moves(next, moves, s, steps) + measure(Run(next, s, steps).value) <= measure(s)
  {
    if steps != [] {
      var before := steps[..|steps| - 1];
      MovesDescend(next, inv, moves, measure, s, before);
      RunsKeep(next, _ => true, inv, s, before);
    }
  }
}
