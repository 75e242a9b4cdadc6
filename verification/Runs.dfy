/** Runs of one table: transactions one after another, from any kept state. */
module Runs {
  import opened RefTable
  import opened Invariants

  ghost predicate Next(c: Schema, s: State, a: Action, s': State)
  {
    PositionsDistinct(s.dim) && Step(c, s, a, s')
  }

  ghost predicate Run(c: Schema, states: seq<State>, actions: seq<Action>)
  {
    && |states| == |actions| + 1
    && forall i | 0 <= i < |actions| :: Next(c, states[i], actions[i], states[i + 1])
  }

  /** A run can go on from any of its states. */
  lemma RunBranches(c: Schema, states: seq<State>, actions: seq<Action>, n: nat, more: seq<State>, steps: seq<Action>)
    requires Run(c, states, actions) && n <= |actions| && Run(c, [states[n]] + more, steps)
    ensures Run(c, states[..n + 1] + more, actions[..n] + steps)
  {
    hide Next;
    var all, acts := states[..n + 1] + more, actions[..n] + steps;
    forall i | 0 <= i < |acts|
      ensures Next(c, all[i], acts[i], all[i + 1])
    {
      if i < n {
        assert Next(c, states[i], actions[i], states[i + 1]);
      } else {
        var tail := [states[n]] + more;
        assert Next(c, tail[i - n], steps[i - n], tail[i - n + 1]);
        assert all[i] == tail[i - n] && all[i + 1] == tail[i - n + 1];
      }
    }
  }

  lemma EmptyTableKept(c: Schema)
    ensures Kept(c, EMPTY)
  {
  }

  /** Row shapes, the unique index, dense versions, the clock and the stamp
      columns hold in every state of every run. */
  lemma {:induction false} RunKeeps(c: Schema, states: seq<State>, actions: seq<Action>, i: nat)
    requires Run(c, states, actions) && Kept(c, states[0]) && i < |states|
    ensures Kept(c, states[i])
  {
    hide Step, Kept;
    if i > 0 {
      RunKeeps(c, states, actions, i - 1);
      NextKeeps(c, states[i - 1], actions[i - 1], states[i]);
    }
  }

  lemma NextKeeps(c: Schema, s: State, a: Action, s': State)
    requires Kept(c, s) && Next(c, s, a, s')
    ensures Kept(c, s')
  {
    StepKeeps(c, s, a, s');
  }
}
