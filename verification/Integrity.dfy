/** Referential integrity between mappings, records, record_version and the
    stored snapshots. */
module Integrity {
  import opened Prelude
  import opened RefTable
  import opened Invariants
  import opened Runs

  /** Every mapping targets a record. */
  ghost predicate MappingsResolve(mapping: map<Raw, Key>, dim: map<Key, Row>)
  {
    forall r | r in mapping :: mapping[r] in dim
  }

  /** Every live version row belongs to a record. */
  ghost predicate LiveHaveRows(s: State)
  {
    forall k | IsLive(s.stamps, k) :: k in s.dim
  }

  ghost predicate SnapshotsResolve(s: State)
  {
    forall x | x in s.snaps :: MappingsResolve(x.mappings, x.records)
  }

  ghost predicate Sound(s: State)
  {
    MappingsResolve(s.mapping, s.dim) && LiveHaveRows(s) && SnapshotsResolve(s)
  }

  lemma SingleRecordSound(c: Schema, s: State, a: Action, s': State)
    requires Kept(c, s) && Sound(s) && KeyOf(a).Some? && Step(c, s, a, s')
    ensures Sound(s')
  {
    hide Step;
    SingleRecord(c, s, a, s');
    SingleOwn(c, s, a, s');
  }

  lemma MergeSound(s: State, survivor: Key, losers: seq<Key>, versions: map<Key, int>)
    requires Sound(s)
    ensures Sound(After(s, MergeRecords(s, survivor, losers, versions)))
  {
  }

  /** The fold adds records and never changes one. */
  lemma FoldedRecords(c: Schema, s: State, q: Request, after: map<Key, Row>)
    requires PositionsDistinct(s.dim) && exists order :: FoldedDim(c, s, q, order, after)
    ensures forall k | k in s.dim :: k in after && after[k] == s.dim[k]
    ensures forall id | id in Eligible(s, q) :: Target(s, id) in after
    ensures after.Keys == s.dim.Keys + NewKeys(s, q)
  {
  }

  /** Every mapping after the fold is an old one or some eligible draft's target. */
  lemma FoldedTargets(c: Schema, s: State, q: Request, after: map<Raw, Key>, r: Raw)
    requires FoldedMapping(c, s, q, after) && r in after
    ensures (r in s.mapping && after[r] == s.mapping[r])
            || exists id | id in Eligible(s, q) :: after[r] == Target(s, id)
  {
    if r in s.mapping && after[r] != s.mapping[r] {
      var id :| id in Group(c, s, q, c.lower(r)) && Target(s, id) == after[r];
      assert id in Eligible(s, q);
    }
  }

  lemma CommitSound(c: Schema, s: State, q: Request, s': State)
    requires PositionsDistinct(s.dim) && Sound(s) && Committed(c, s, q, s')
    ensures Sound(s')
  {
    FoldedRecords(c, s, q, s'.dim);
    forall r | r in s'.mapping
      ensures s'.mapping[r] in s'.dim
    {
      FoldedTargets(c, s, q, s'.mapping, r);
    }
    SnapshotSound(c, s, q, s');
  }

  lemma SnapshotSound(c: Schema, s: State, q: Request, s': State)
    requires SnapshotsResolve(s) && MappingsResolve(s'.mapping, s'.dim)
    requires s'.snaps == s.snaps + [TakeSnapshot(c, q, NextVersion(s), s'.dim, s'.mapping)]
    ensures SnapshotsResolve(s')
  {
  }

  /** A restore yields a sound table from any working copy, damaged or not, as
      long as the stored snapshots are sound; and its live version rows are
      exactly the restored records. */
  lemma RestoreRepairs(c: Schema, s: State, v: int, s': State)
    requires Restore(c, s, v) == Ok(s') && SnapshotsResolve(s)
    ensures Sound(s')
    ensures forall k :: IsLive(s'.stamps, k) <==> k in s'.dim
  {
    var snap := SnapshotOf(s.snaps, v);
    assert MappingsResolve(snap.mappings, snap.records);
  }

  /** Revert does not look at the mappings: they still resolve afterwards exactly
      when every mapping onto a reverted key targets a published record. */
  lemma RevertIntegrity(c: Schema, s: State, s': State)
    requires Sound(s) && ChangedKeys(c, s) != {} && Revert(c, s) == Ok(s')
    ensures MappingsResolve(s'.mapping, s'.dim) <==>
            forall r | r in s.mapping && s.mapping[r] in ChangedKeys(c, s) :: s.mapping[r] in HeadRecords(s)
    ensures LiveHaveRows(s') <==>
            forall k | IsLive(s.stamps, k) && k in ChangedKeys(c, s) :: k in HeadRecords(s)
  {
    var changed := ChangedKeys(c, s);
    assert s'.dim == RevertedDim(c, s);
    forall k | k in s.dim
      ensures k in s'.dim <==> (k in changed ==> k in HeadRecords(s))
    {
    }
    forall k
      ensures IsLive(s'.stamps, k) && k !in s'.dim <==> IsLive(s.stamps, k) && k in changed && k !in HeadRecords(s)
    {
    }
  }

  /** A revert that takes away a record while a mapping or a live version row still
      points at it. */
  predicate Dangles(c: Schema, s: State, a: Action)
  {
    && a.ARevert? && Revert(c, s).Ok?
    && ((exists r | r in s.mapping :: s.mapping[r] in ChangedKeys(c, s) && s.mapping[r] !in HeadRecords(s))
        || (exists k | k in ChangedKeys(c, s) :: IsLive(s.stamps, k) && k !in HeadRecords(s)))
  }

  lemma RevertSoundIff(c: Schema, s: State, s': State)
    requires Sound(s) && s' == After(s, Revert(c, s))
    ensures Sound(s') <==> !Dangles(c, s, ARevert)
  {
    if Revert(c, s).Ok? && ChangedKeys(c, s) != {} {
      RevertIntegrity(c, s, s');
    }
  }

  /** Every transaction keeps a table sound, exactly when it is not such a revert. */
  lemma StepSoundIff(c: Schema, s: State, a: Action, s': State)
    requires Kept(c, s) && Sound(s) && Step(c, s, a, s')
    ensures Sound(s') <==> !Dangles(c, s, a)
  {
    if KeyOf(a).Some? {
      SingleRecordSound(c, s, a, s');
    } else {
      match a
      case AMerge(survivor, losers, versions) => MergeSound(s, survivor, losers, versions);
      case APublish(q) => if s' != s { CommitSound(c, s, q, s'); }
      case ARestore(v) => if s' != s { RestoreRepairs(c, s, v, s'); }
      case ARevert => RevertSoundIff(c, s, s');
      case _ => DraftStep(c, s, a, s');
    }
  }

  /** Over every run in which no revert leaves something dangling, mappings resolve,
      live version rows have records, and every stored snapshot is itself sound. */
  lemma {:induction false} IntegrityOverRuns(c: Schema, states: seq<State>, actions: seq<Action>, i: nat)
    requires Run(c, states, actions) && Kept(c, states[0]) && Sound(states[0]) && i < |states|
    requires forall j | 0 <= j < |actions| :: !Dangles(c, states[j], actions[j])
    ensures Sound(states[i])
  {
    hide Next, Kept, Sound, Dangles;
    if i > 0 {
      IntegrityOverRuns(c, states, actions, i - 1);
      RunKeeps(c, states, actions, i - 1);
      NextSound(c, states[i - 1], actions[i - 1], states[i]);
    }
  }

  lemma NextSound(c: Schema, s: State, a: Action, s': State)
    requires Kept(c, s) && Sound(s) && !Dangles(c, s, a) && Next(c, s, a, s')
    ensures Sound(s')
  {
    StepSoundIff(c, s, a, s');
  }

  /** In particular from the empty table on. */
  lemma IntegrityFromEmpty(c: Schema, states: seq<State>, actions: seq<Action>, i: nat)
    requires Run(c, states, actions) && states[0] == EMPTY && i < |states|
    requires forall j | 0 <= j < |actions| :: !Dangles(c, states[j], actions[j])
    ensures Sound(states[i])
  {
    EmptyTableKept(c);
    IntegrityOverRuns(c, states, actions, i);
  }
}
