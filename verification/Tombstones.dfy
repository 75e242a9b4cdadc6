/** Merging: resolution of raw values, and the retired_into links it leaves. */
module Tombstones {
  import opened Prelude
  import opened RefTable
  import opened Invariants
  import opened Runs
  import Links

  /** Where each tombstone points. */
  function Into(stamps: map<Key, Stamp>): map<Key, Key>
  {
    map k | k in stamps && stamps[k].retiredInto.Some? :: stamps[k].retiredInto.value
  }

  /** A merge that goes through keeps every mapping row.  A value that resolved to one
      of the named losers resolves to the survivor, which is also the key that the
      loser's tombstone names; every other value resolves as before. */
  lemma MergeResolution(s: State, survivor: Key, losers: seq<Key>, versions: map<Key, int>, s': State, raw: Raw)
    requires MergeRecords(s, survivor, losers, versions) == Ok(s')
    ensures s'.mapping.Keys == s.mapping.Keys && |s'.mapping| == |s.mapping|
    ensures raw in s.mapping ==>
              s'.mapping[raw] == if s.mapping[raw] in losers && s.mapping[raw] != "" then survivor else s.mapping[raw]
    ensures raw in s.mapping && s.mapping[raw] in losers && s.mapping[raw] != "" && s.mapping[raw] != survivor ==>
              Links.Follow(Into(s'.stamps), s.mapping[raw], 1) == Some(survivor)
  {
    var gone := RealLosers(survivor, losers);
    SameSize(s'.mapping, s.mapping);
    if raw in s.mapping && s.mapping[raw] in gone {
      assert Links.Follow(Into(s'.stamps), survivor, 0) == Some(survivor);
    }
  }

  /** What it does to key k.  Each named loser other than the survivor leaves the table
      and becomes a tombstone of this moment that names the survivor, and no mapping
      targets it.  The survivor is bumped if anything was merged.  Every other key keeps
      its record and its version row. */
  lemma MergeRetires(s: State, survivor: Key, losers: seq<Key>, versions: map<Key, int>, s': State, k: Key)
    requires MergeRecords(s, survivor, losers, versions) == Ok(s')
    ensures k in losers && k != "" && k != survivor ==>
              && k !in s'.dim && (forall r | r in s'.mapping :: s'.mapping[r] != k)
              && k in s.stamps && s.stamps[k].retiredAt.None?
              && s'.stamps[k] == Stamp(s.stamps[k].version + 1, s.clock + 1, Some(s.clock + 1), Some(survivor))
    ensures !(k in losers && k != "" && k != survivor) ==>
              && (k in s'.dim <==> k in s.dim) && (k in s.dim ==> s'.dim[k] == s.dim[k])
              && (k in s'.stamps <==> k in s.stamps)
              && (k in s.stamps && k != survivor ==> s'.stamps[k] == s.stamps[k])
    ensures (exists l | l in losers :: l != "" && l != survivor) ==>
              && survivor in s.stamps && s.stamps[survivor].retiredAt.None?
              && s'.stamps[survivor] == Stamp(s.stamps[survivor].version + 1, s.clock + 1, None,
                                              s.stamps[survivor].retiredInto)
    ensures s'.drafts == s.drafts && s'.snaps == s.snaps && s'.events == s.events
  {
    if l :| l in losers && l != "" && l != survivor {
      assert l in RealLosers(survivor, losers);
    }
  }

  /** It goes through exactly when there is nothing to merge, or every key that it is
      about has a live version row at the version presented. */
  lemma MergeGoesThroughIff(s: State, survivor: Key, losers: seq<Key>, versions: map<Key, int>)
    ensures MergeRecords(s, survivor, losers, versions).Ok? <==>
              (forall l | l in losers :: l == "" || l == survivor)
              || forall k | k == survivor || (k in losers && k != "") ::
                   k in s.stamps && s.stamps[k].retiredAt.None? && k in versions && s.stamps[k].version == versions[k]
    ensures MergeRecords(s, survivor, losers, versions).Err? ==>
              MergeRecords(s, survivor, losers, versions) == Err(Conflict)
    ensures (forall l | l in losers :: l == "" || l == survivor) ==>
              MergeRecords(s, survivor, losers, versions) == Ok(s)
  {
    var gone := RealLosers(survivor, losers);
    if forall l | l in losers :: l == "" || l == survivor {
      assert gone == {};
    } else {
      var l :| l in losers && l != "" && l != survivor;
      assert l in gone;
      assert forall k :: k in gone + {survivor} <==> k == survivor || (k in losers && k != "");
    }
  }

  lemma SameSize(a: map<Raw, Key>, b: map<Raw, Key>)
    requires a.Keys == b.Keys
    ensures |a| == |b|
  {
    assert |a| == |a.Keys| && |b| == |b.Keys|;
  }

  lemma {:induction false} FollowIntoSink(next: map<Key, Key>, gone: set<Key>, sink: Key, a: Key, n: nat)
    requires sink !in next && sink !in gone
    ensures var linked := map k | k in next.Keys + gone :: if k in gone then sink else next[k];
            Links.Follow(linked, a, n) in {Links.Follow(next, a, n), None, Some(sink)}
    decreases n
  {
    if n > 0 && a !in gone && a in next {
      FollowIntoSink(next, gone, sink, next[a], n - 1);
    }
  }

  /** Pointing any keys at a key that points nowhere closes no loop. */
  lemma SinkAcyclic(next: map<Key, Key>, gone: set<Key>, sink: Key)
    requires Links.Acyclic(next) && sink !in next && sink !in gone
    ensures Links.Acyclic(map k | k in next.Keys + gone :: if k in gone then sink else next[k])
  {
    var linked := map k | k in next.Keys + gone :: if k in gone then sink else next[k];
    forall a: string, n: nat | n > 0
      ensures Links.Follow(linked, a, n) != Some(a)
    {
      FollowIntoSink(next, gone, sink, a, n);
    }
  }

  lemma MergedInto(stamps: map<Key, Stamp>, gone: set<Key>, survivor: Key, now: int)
    requires gone <= stamps.Keys && (survivor in stamps ==> stamps[survivor].retiredInto.None?)
    ensures Into(MergedStamps(stamps, gone, survivor, now))
            == map k | k in Into(stamps).Keys + gone :: if k in gone then survivor else Into(stamps)[k]
  {
  }

  lemma MergeLinks(s: State, survivor: Key, losers: seq<Key>, versions: map<Key, int>)
    requires StampsOk(s) && Links.Acyclic(Into(s.stamps))
    ensures Links.Acyclic(Into(After(s, MergeRecords(s, survivor, losers, versions)).stamps))
  {
    var s' := After(s, MergeRecords(s, survivor, losers, versions));
    var gone := RealLosers(survivor, losers);
    if MergeRecords(s, survivor, losers, versions).Ok? && gone != {} {
      assert IsLive(s.stamps, survivor);
      SinkAcyclic(Into(s.stamps), gone, survivor);
      MergedInto(s.stamps, gone, survivor, s.Now());
    }
  }

  /** Apart from merges, a step only ever removes links. */
  ghost predicate NoNewLinks(s: State, s': State)
  {
    forall k | k in s'.stamps && s'.stamps[k].retiredInto.Some? ::
      k in s.stamps && s.stamps[k].retiredInto == s'.stamps[k].retiredInto
  }

  lemma SingleRecordLinks(c: Schema, s: State, a: Action, s': State)
    requires Kept(c, s) && KeyOf(a).Some? && Step(c, s, a, s')
    ensures NoNewLinks(s, s')
  {
    hide Step;
    SingleRecord(c, s, a, s');
    SingleOwn(c, s, a, s');
  }

  lemma RestoreLinks(c: Schema, s: State, v: int)
    ensures NoNewLinks(s, After(s, Restore(c, s, v)))
  {
  }

  lemma RevertLinks(c: Schema, s: State)
    ensures NoNewLinks(s, After(s, Revert(c, s)))
  {
  }

  lemma OtherLinks(c: Schema, s: State, a: Action, s': State)
    requires Kept(c, s) && !a.AMerge? && Step(c, s, a, s')
    ensures NoNewLinks(s, s')
  {
    hide Restore, Revert, MergeRecords, CommitStep;
    if KeyOf(a).Some? {
      SingleRecordLinks(c, s, a, s');
    } else {
      match a
      case ARestore(v) => RestoreLinks(c, s, v);
      case ARevert => RevertLinks(c, s);
      case APublish(q) => PublishStep(c, s, q, s');
      case _ => DraftStep(c, s, a, s');
    }
  }

  lemma StepLinks(c: Schema, s: State, a: Action, s': State)
    requires Kept(c, s) && Links.Acyclic(Into(s.stamps)) && Step(c, s, a, s')
    ensures Links.Acyclic(Into(s'.stamps))
  {
    if a.AMerge? {
      MergeLinks(s, a.survivor, a.losers, a.versions);
    } else {
      OtherLinks(c, s, a, s');
      Links.SubmapAcyclic(Into(s'.stamps), Into(s.stamps));
    }
  }

  lemma NextLinks(c: Schema, s: State, a: Action, s': State)
    requires Kept(c, s) && Links.Acyclic(Into(s.stamps)) && Next(c, s, a, s')
    ensures Links.Acyclic(Into(s'.stamps))
  {
    StepLinks(c, s, a, s');
  }

  lemma {:induction false} LinksThroughout(c: Schema, states: seq<State>, actions: seq<Action>, i: nat)
    requires Run(c, states, actions) && Kept(c, states[0]) && Links.Acyclic(Into(states[0].stamps))
    requires i < |states|
    ensures Links.Acyclic(Into(states[i].stamps))
  {
    hide Next, Kept, Into;
    if i > 0 {
      LinksThroughout(c, states, actions, i - 1);
      RunKeeps(c, states, actions, i - 1);
      NextLinks(c, states[i - 1], actions[i - 1], states[i]);
    }
  }

  /** Over every run the retired_into links are acyclic, so following them from
      any tombstone ends. */
  lemma TombstonesOverRuns(c: Schema, states: seq<State>, actions: seq<Action>, i: nat)
    requires Run(c, states, actions) && Kept(c, states[0]) && Links.Acyclic(Into(states[0].stamps))
    requires i < |states|
    ensures Links.Acyclic(Into(states[i].stamps))
    ensures forall k :: Links.WalkStops(Into(states[i].stamps), k)
  {
    hide Next, Kept, Into;
    LinksThroughout(c, states, actions, i);
    Links.TerminationIffAcyclic(Into(states[i].stamps));
  }

  /** In particular from the empty table on. */
  lemma TombstonesFromEmpty(c: Schema, states: seq<State>, actions: seq<Action>, i: nat, k: Key)
    requires Run(c, states, actions) && states[0] == EMPTY && i < |states|
    ensures Links.WalkStops(Into(states[i].stamps), k)
  {
    EmptyTableKept(c);
    assert Links.Acyclic(Into(EMPTY.stamps)) by {
      assert forall a: string, n: nat | n > 0 :: Links.Follow(Into(EMPTY.stamps), a, n).None?;
    }
    TombstonesOverRuns(c, states, actions, i);
  }
}
