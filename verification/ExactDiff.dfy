/** The stamp-driven change set against the full comparison with the head
    snapshot, and the revert that relies on it. */
module ExactDiff {
  import opened Prelude
  import opened RefTable
  import opened Invariants
  import opened Runs

  /** Every record that differs from the head snapshot has been stamped since the
      last publish. */
  ghost predicate AllStamped(c: Schema, s: State)
  {
    |s.events| > 0 ==>
      forall k | k in FullDiff(c, s) :: k in s.stamps && StampedSince(s.stamps, k, LastPublish(s.events))
  }

  /** The stamp-driven change set is the full key-by-key difference exactly when
      no difference escaped stamping. */
  lemma ChangedIsFullDiff(c: Schema, s: State)
    requires VersionsDense(s)
    ensures ChangedKeys(c, s) <= FullDiff(c, s)
    ensures ChangedKeys(c, s) == FullDiff(c, s) <==> AllStamped(c, s)
  {
    if |s.events| > 0 {
      var since := LastPublish(s.events);
      forall k | k in ChangedKeys(c, s)
        ensures k in FullDiff(c, s) && StampedSince(s.stamps, k, since)
      {
      }
      if AllStamped(c, s) {
        assert forall k | k in FullDiff(c, s) :: k in ChangedKeys(c, s);
      }
    } else {
      assert FullDiff(c, s) == s.dim.Keys;
    }
  }

  lemma CanonFixed(c: Schema, row: Row)
    requires row.cells.Keys == c.fields
    ensures Canon(c, row) == row
  {
  }

  lemma CanonTwice(c: Schema, row: Row)
    ensures Canon(c, Canon(c, row)) == Canon(c, row)
  {
  }

  /** Formula results do not count as changes. */
  lemma CanonDropsComputed(c: Schema, computed: map<(Key, Field), Value>, k: Key, row: Row)
    requires c.WellFormed() && row.cells.Keys == c.fields
    ensures Canon(c, WithComputed(c, computed, k, row)) == row
  {
  }

  lemma HeadUnchanged(c: Schema, s: State, s': State, k: Key)
    requires s'.snaps == s.snaps && s'.events == s.events
    requires k in s.dim <==> k in s'.dim
    requires k in s.dim ==> s'.dim[k] == s.dim[k]
    ensures k in FullDiff(c, s') <==> k in FullDiff(c, s)
  {
  }

  lemma SingleRecordStamps(c: Schema, s: State, a: Action, s': State)
    requires Kept(c, s) && AllStamped(c, s) && KeyOf(a).Some? && Step(c, s, a, s')
    ensures AllStamped(c, s')
  {
    hide Step;
    SingleRecord(c, s, a, s');
    var k := KeyOf(a).value;
    if s' != s && |s.events| > 0 {
      forall j | j in FullDiff(c, s')
        ensures j in s'.stamps && StampedSince(s'.stamps, j, LastPublish(s'.events))
      {
        if j != k {
          HeadUnchanged(c, s, s', j);
        }
      }
    }
  }

  lemma MergeStamps(c: Schema, s: State, survivor: Key, losers: seq<Key>, versions: map<Key, int>)
    requires Kept(c, s) && AllStamped(c, s)
    ensures AllStamped(c, After(s, MergeRecords(s, survivor, losers, versions)))
  {
    var s' := After(s, MergeRecords(s, survivor, losers, versions));
    var gone := RealLosers(survivor, losers);
    if s' != s && |s.events| > 0 {
      forall j | j in FullDiff(c, s')
        ensures j in s'.stamps && StampedSince(s'.stamps, j, LastPublish(s'.events))
      {
        if j !in gone {
          HeadUnchanged(c, s, s', j);
        } else {
          assert IsLive(s.stamps, j);
        }
      }
    }
  }

  lemma SnapshotIsDim(c: Schema, q: Request, v: int, dim: map<Key, Row>, mapping: map<Raw, Key>)
    requires c.WellFormed() && forall k | k in dim :: dim[k].cells.Keys == c.fields
    ensures CanonAll(c, TakeSnapshot(c, q, v, dim, mapping).records) == dim
  {
    var records := TakeSnapshot(c, q, v, dim, mapping).records;
    forall k | k in dim
      ensures Canon(c, records[k]) == dim[k]
    {
      CanonDropsComputed(c, q.computed, k, dim[k]);
    }
  }

  /** Right after a publish the working copy is the head snapshot: same records on
      physical columns, same mappings, nothing pending. */
  lemma CommitIsClean(c: Schema, s: State, q: Request, s': State)
    requires c.WellFormed() && Kept(c, s) && Committed(c, s, q, s')
    ensures s'.dim == CanonAll(c, HeadRecords(s')) && s'.mapping == HeadMappings(s')
    ensures FullDiff(c, s') == {} && ChangedKeys(c, s') == {}
  {
    CommitRows(c, s, q, s');
    CommitVersions(c, s, q, s');
    DenseHead(s'.snaps);
    SnapshotIsDim(c, q, NextVersion(s), s'.dim, s'.mapping);
    CanonAllClean(c, s');
    ChangedIsFullDiff(c, s');
  }

  /** On live rows, "differs" means missing on one side or unequal to the published row. */
  lemma DiffersMeans(c: Schema, s: State, k: Key)
    requires RowsOk(c, s)
    ensures k in FullDiff(c, s) <==>
            if k in s.dim then k !in HeadRecords(s) || s.dim[k] != Canon(c, HeadRecords(s)[k])
            else k in HeadRecords(s)
  {
    if k in s.dim {
      CanonFixed(c, s.dim[k]);
    }
  }

  lemma CanonAllClean(c: Schema, s: State)
    requires s.dim == CanonAll(c, HeadRecords(s))
    ensures FullDiff(c, s) == {}
  {
    forall k | k in HeadRecords(s)
      ensures !Differs(c, HeadRecords(s), s.dim, k)
    {
      CanonTwice(c, HeadRecords(s)[k]);
    }
  }

  lemma RevertedRows(c: Schema, s: State, k: Key)
    ensures k in RevertedDim(c, s) <==> if k in ChangedKeys(c, s) then k in HeadRecords(s) else k in s.dim
    ensures k in RevertedDim(c, s) ==>
              RevertedDim(c, s)[k] == if k in ChangedKeys(c, s) then Canon(c, HeadRecords(s)[k]) else s.dim[k]
  {
    hide Canon, StampedSince, Differs;
  }

  lemma RevertResult(c: Schema, s: State, s': State)
    requires Revert(c, s) == Ok(s')
    ensures s'.dim == RevertedDim(c, s) && s'.snaps == s.snaps && s'.events == s.events
    ensures |s.events| > 0
  {
    if ChangedKeys(c, s) == {} {
      assert s.dim == RevertedDim(c, s);
    }
  }

  lemma ExactRevert(c: Schema, s: State)
    requires Kept(c, s) && AllStamped(c, s)
    ensures RevertedDim(c, s) == CanonAll(c, HeadRecords(s))
  {
    hide RevertedDim, ChangedKeys, FullDiff, Canon;
    var dim := RevertedDim(c, s);
    var want := CanonAll(c, HeadRecords(s));
    ChangedIsFullDiff(c, s);
    forall k
      ensures k in dim <==> k in want
      ensures k in dim && k in want ==> dim[k] == want[k]
    {
      DiffersMeans(c, s, k);
      RevertedRows(c, s, k);
    }
  }

  lemma UnstampedStays(c: Schema, s: State, k: Key)
    requires RowsOk(c, s) && k in FullDiff(c, s) && k !in ChangedKeys(c, s)
    ensures RevertedDim(c, s) != CanonAll(c, HeadRecords(s))
  {
    hide RevertedDim, ChangedKeys, FullDiff, Canon;
    DiffersMeans(c, s, k);
    RevertedRows(c, s, k);
    assert k in CanonAll(c, HeadRecords(s)) <==> k in HeadRecords(s);
  }

  /** A revert clears the difference: the records become the head snapshot exactly
      when every difference had been stamped. */
  lemma RevertRestoresHead(c: Schema, s: State, s': State)
    requires Kept(c, s) && Revert(c, s) == Ok(s')
    ensures s'.dim == CanonAll(c, HeadRecords(s)) <==> AllStamped(c, s)
    ensures AllStamped(c, s) ==> FullDiff(c, s') == {} && ChangedKeys(c, s') == {}
  {
    hide RevertedDim, CanonAll, FullDiff, ChangedKeys, Revert;
    RevertResult(c, s, s');
    ChangedIsFullDiff(c, s);
    if AllStamped(c, s) {
      ExactRevert(c, s);
      CanonAllClean(c, s');
      ChangedIsFullDiff(c, s');
    } else {
      var k :| k in FullDiff(c, s) && k !in ChangedKeys(c, s);
      UnstampedStays(c, s, k);
    }
  }

  /** Under exact stamping a revert is never refused, and a second one does nothing. */
  lemma RevertIsIdempotent(c: Schema, s: State)
    requires Kept(c, s) && AllStamped(c, s) && |s.events| > 0
    ensures Revert(c, s).Ok?
    ensures var s' := Revert(c, s).value;
            Revert(c, s') == Ok(s')
  {
    ExactRevert(c, s);
    assert Head(s.snaps) in s.snaps;
    SubtableDistinct(RevertedDim(c, s), HeadRecords(s));
    RevertRestoresHead(c, s, Revert(c, s).value);
  }

  lemma RevertStamps(c: Schema, s: State)
    requires Kept(c, s) && AllStamped(c, s)
    ensures AllStamped(c, After(s, Revert(c, s)))
  {
    if Revert(c, s).Ok? {
      RevertRestoresHead(c, s, Revert(c, s).value);
    }
  }

  lemma RestoredStampOf(stamps: map<Key, Stamp>, keys: set<Key>, now: int, since: int, k: Key)
    requires since < now
    ensures k in keys ==> StampedSince(RestoredStamps(stamps, keys, now), k, since)
    ensures k !in keys ==> (StampedSince(RestoredStamps(stamps, keys, now), k, since)
                            <==> IsLive(stamps, k) || StampedSince(stamps, k, since))
  {
  }

  lemma RestoreResult(c: Schema, s: State, v: int, s': State)
    requires Restore(c, s, v) == Ok(s')
    ensures HasVersion(s, v)
    ensures var snap := SnapshotOf(s.snaps, v);
            && s'.dim == CanonAll(c, snap.records) && s'.mapping == snap.mappings
            && s'.stamps == RestoredStamps(s.stamps, snap.records.Keys, s.Now())
            && s'.snaps == s.snaps && s'.events == s.events && s'.drafts == s.drafts && s'.clock == s.Now()
  {
  }

  lemma RestoredDiff(c: Schema, s: State, s': State, keys: set<Key>)
    requires Kept(c, s) && |s.events| > 0
    requires s'.dim.Keys == keys && s'.stamps == RestoredStamps(s.stamps, keys, s.Now())
    requires s'.snaps == s.snaps && s'.events == s.events
    ensures AllStamped(c, s') <==>
            forall k | k in HeadRecords(s) && k !in keys ::
              IsLive(s.stamps, k) || StampedSince(s.stamps, k, LastPublish(s.events))
  {
    var since := LastPublish(s.events);
    forall k
      ensures k in keys ==> StampedSince(s'.stamps, k, since)
      ensures k !in keys ==> (StampedSince(s'.stamps, k, since)
                              <==> IsLive(s.stamps, k) || StampedSince(s.stamps, k, since))
      ensures k !in keys ==> (k in FullDiff(c, s') <==> k in HeadRecords(s))
    {
      RestoredStampOf(s.stamps, keys, s.Now(), since, k);
    }
  }

  /** Which differences a restore leaves unstamped: records of the head snapshot
      that the restored version lacks and that have no usable version row, such as
      records created by folding a draft. */
  lemma RestoreStamps(c: Schema, s: State, v: int, s': State)
    requires Kept(c, s) && Restore(c, s, v) == Ok(s')
    ensures |s.events| > 0
    ensures AllStamped(c, s') <==>
            forall k | k in HeadRecords(s) && k !in SnapshotOf(s.snaps, v).records ::
              IsLive(s.stamps, k) || StampedSince(s.stamps, k, LastPublish(s.events))
  {
    RestoreResult(c, s, v, s');
    DenseSnapshot(s.snaps, 1, v);
    RestoredDiff(c, s, s', SnapshotOf(s.snaps, v).records.Keys);
  }

  /** A restore that takes away a published record without leaving a stamp. */
  predicate LosesTrace(c: Schema, s: State, a: Action)
  {
    && a.ARestore? && Restore(c, s, a.version).Ok? && |s.events| > 0
    && exists k | k in HeadRecords(s) :: k !in SnapshotOf(s.snaps, a.version).records
         && !IsLive(s.stamps, k) && !StampedSince(s.stamps, k, LastPublish(s.events))
  }

  lemma RestoreStampsIff(c: Schema, s: State, v: int, s': State)
    requires Kept(c, s) && AllStamped(c, s) && s' == After(s, Restore(c, s, v))
    ensures AllStamped(c, s') <==> !LosesTrace(c, s, ARestore(v))
  {
    if Restore(c, s, v).Ok? {
      RestoreStamps(c, s, v, s');
    }
  }

  /** Every transaction keeps all differences stamped, exactly when it is not such a
      restore. */
  lemma StepStampsIff(c: Schema, s: State, a: Action, s': State)
    requires c.WellFormed() && Kept(c, s) && AllStamped(c, s) && Step(c, s, a, s')
    ensures AllStamped(c, s') <==> !LosesTrace(c, s, a)
  {
    hide Restore, Revert, MergeRecords, CommitStep, AllStamped, PositionsDistinct;
    if KeyOf(a).Some? {
      SingleRecordStamps(c, s, a, s');
    } else {
      match a
      case AMerge(survivor, losers, versions) => MergeStamps(c, s, survivor, losers, versions);
      case APublish(q) => CommitStamps(c, s, q, s');
      case ARevert => RevertStamps(c, s);
      case ARestore(v) => RestoreStampsIff(c, s, v, s');
      case _ => DraftStepStamps(c, s, a, s');
    }
  }

  lemma CommitStamps(c: Schema, s: State, q: Request, s': State)
    requires c.WellFormed() && Kept(c, s) && AllStamped(c, s) && CommitStep(c, s, q, s')
    ensures AllStamped(c, s')
  {
    hide FoldedDim, FoldedMapping;
    if s' != s {
      CommitIsClean(c, s, q, s');
    }
  }

  lemma DraftStepStamps(c: Schema, s: State, a: Action, s': State)
    requires Kept(c, s) && AllStamped(c, s) && (a.ASave? || a.ADiscard? || a.AReject?) && Step(c, s, a, s')
    ensures AllStamped(c, s')
  {
    DraftStep(c, s, a, s');
  }

  lemma {:induction false} StampedThroughout(c: Schema, states: seq<State>, actions: seq<Action>, i: nat)
    requires c.WellFormed() && Run(c, states, actions) && Kept(c, states[0]) && AllStamped(c, states[0])
    requires forall j | 0 <= j < |actions| :: !LosesTrace(c, states[j], actions[j])
    requires i < |states|
    ensures AllStamped(c, states[i])
  {
    hide Next, Kept, AllStamped, LosesTrace;
    if i > 0 {
      StampedThroughout(c, states, actions, i - 1);
      RunKeeps(c, states, actions, i - 1);
      NextStamps(c, states[i - 1], actions[i - 1], states[i]);
    }
  }

  /** Over every run, as long as no restore loses the trace of a record, the
      stamp-driven change set is the full difference, in every state. */
  lemma ExactOverRuns(c: Schema, states: seq<State>, actions: seq<Action>, i: nat)
    requires c.WellFormed() && Run(c, states, actions) && Kept(c, states[0]) && AllStamped(c, states[0])
    requires forall j | 0 <= j < |actions| :: !LosesTrace(c, states[j], actions[j])
    requires i < |states|
    ensures ChangedKeys(c, states[i]) == FullDiff(c, states[i])
  {
    hide Next, Kept, AllStamped, LosesTrace, FullDiff, ChangedKeys;
    StampedThroughout(c, states, actions, i);
    RunKeeps(c, states, actions, i);
    KeptIsExact(c, states[i]);
  }

  lemma KeptIsExact(c: Schema, s: State)
    requires Kept(c, s) && AllStamped(c, s)
    ensures ChangedKeys(c, s) == FullDiff(c, s)
  {
    ChangedIsFullDiff(c, s);
  }

  /** The time of the last publish reaches the change set through a clock of
      milliseconds, so it may be a little early: that changes nothing where the
      change set is exact. */
  lemma EarlierSinceIsExact(c: Schema, s: State, since: int)
    requires Kept(c, s) && AllStamped(c, s) && |s.events| > 0 && since <= LastPublish(s.events)
    ensures (set k | k in s.stamps && StampedSince(s.stamps, k, since) && Differs(c, HeadRecords(s), s.dim, k))
            == FullDiff(c, s)
  {
    KeptIsExact(c, s);
    forall k | k in FullDiff(c, s)
      ensures StampedSince(s.stamps, k, since)
    {
      assert k in ChangedKeys(c, s);
    }
  }

  lemma NextStamps(c: Schema, s: State, a: Action, s': State)
    requires c.WellFormed() && Kept(c, s) && AllStamped(c, s) && !LosesTrace(c, s, a) && Next(c, s, a, s')
    ensures AllStamped(c, s')
  {
    StepStampsIff(c, s, a, s');
  }

  // ------------------------------------------------------------- with restores

  /** Every record of the working copy that differs from the head snapshot has
      been stamped; only a missing record can differ without a trace. */
  ghost predicate PresentStamped(c: Schema, s: State)
  {
    |s.events| > 0 ==>
      forall k | k in FullDiff(c, s) && k in s.dim :: StampedSince(s.stamps, k, LastPublish(s.events))
  }

  lemma SingleRecordPresent(c: Schema, s: State, a: Action, s': State)
    requires Kept(c, s) && PresentStamped(c, s) && KeyOf(a).Some? && Step(c, s, a, s')
    ensures PresentStamped(c, s')
  {
    hide Step, Differs, HeadRecords, PositionsDistinct;
    SingleRecord(c, s, a, s');
    var k := KeyOf(a).value;
    if s' != s && |s.events| > 0 {
      forall j | j in FullDiff(c, s') && j in s'.dim
        ensures StampedSince(s'.stamps, j, LastPublish(s'.events))
      {
        if j != k {
          HeadUnchanged(c, s, s', j);
        }
      }
    }
  }

  lemma MergePresent(c: Schema, s: State, survivor: Key, losers: seq<Key>, versions: map<Key, int>)
    requires Kept(c, s) && PresentStamped(c, s)
    ensures PresentStamped(c, After(s, MergeRecords(s, survivor, losers, versions)))
  {
    var s' := After(s, MergeRecords(s, survivor, losers, versions));
    if s' != s && |s.events| > 0 {
      forall j | j in FullDiff(c, s') && j in s'.dim
        ensures StampedSince(s'.stamps, j, LastPublish(s'.events))
      {
        HeadUnchanged(c, s, s', j);
      }
    }
  }

  lemma RestorePresent(c: Schema, s: State, v: int, s': State)
    requires Kept(c, s) && Restore(c, s, v) == Ok(s')
    ensures PresentStamped(c, s')
  {
    RestoreResult(c, s, v, s');
    var keys := SnapshotOf(s.snaps, v).records.Keys;
    if |s.events| > 0 {
      forall k | k in s'.dim
        ensures StampedSince(s'.stamps, k, LastPublish(s.events))
      {
        RestoredStampOf(s.stamps, keys, s.Now(), LastPublish(s.events), k);
      }
    }
  }

  /** Without lost traces of present records, a revert leaves part of the head
      snapshot: no record keeps an unpublished value. */
  lemma RevertIsPublished(c: Schema, s: State, s': State)
    requires Kept(c, s) && PresentStamped(c, s) && Revert(c, s) == Ok(s')
    ensures forall k | k in s'.dim :: k in HeadRecords(s) && s'.dim[k] == Canon(c, HeadRecords(s)[k])
    ensures PresentStamped(c, s')
  {
    RevertResult(c, s, s');
    forall k | k in s'.dim
      ensures k in HeadRecords(s) && s'.dim[k] == Canon(c, HeadRecords(s)[k])
      ensures k !in FullDiff(c, s')
    {
      DiffersMeans(c, s, k);
      RevertedRows(c, s, k);
      if k in HeadRecords(s) {
        CanonTwice(c, HeadRecords(s)[k]);
      }
    }
  }

  lemma StepPresent(c: Schema, s: State, a: Action, s': State)
    requires c.WellFormed() && Kept(c, s) && PresentStamped(c, s) && Step(c, s, a, s')
    ensures PresentStamped(c, s')
  {
    hide Restore, Revert, MergeRecords, Committed;
    if KeyOf(a).Some? {
      SingleRecordPresent(c, s, a, s');
    } else {
      match a
      case AMerge(survivor, losers, versions) => MergePresent(c, s, survivor, losers, versions);
      case APublish(q) => if s' != s { CommitIsClean(c, s, q, s'); }
      case ARestore(v) => if s' != s { RestorePresent(c, s, v, s'); }
      case ARevert => if s' != s { RevertIsPublished(c, s, s'); }
      case _ => DraftStep(c, s, a, s');
    }
  }
}
