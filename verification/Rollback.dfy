/** Rollback: restore a stored version into the working copy, then publish it
    with an empty draft selection. */
module Rollback {
  import opened Prelude
  import opened RefTable
  import opened Invariants
  import opened Runs
  import opened Integrity
  import opened ExactDiff

  /** The publish request of a rollback: fold no drafts, record the origin. */
  predicate IsRollbackRequest(q: Request, v: int)
  {
    q.scope == Some([]) && q.onlyAuthor.None? && q.kind.Rollback? && q.restores == Some(v)
  }

  /** The two transactions of a rollback, with nothing in between. */
  ghost predicate RolledBack(c: Schema, s: State, v: int, q: Request, mid: State, s': State)
  {
    && IsRollbackRequest(q, v)
    && Restore(c, s, v) == Ok(mid)
    && Next(c, mid, APublish(q), s')
  }

  /** A new version appears: one snapshot and one event at the end. */
  ghost predicate AppendsVersion(s: State, s': State)
  {
    && |s'.snaps| == |s.snaps| + 1 && s'.snaps[..|s.snaps|] == s.snaps
    && |s'.events| == |s.events| + 1 && s'.events[..|s.events|] == s.events
  }

  lemma EmptySelection(c: Schema, s: State, q: Request)
    requires q.scope == Some([])
    ensures Eligible(s, q) == {} && NewKeys(s, q) == {}
    ensures forall id :: !InScope(s, q, id)
    ensures CommitError(c, s, q) == Some(UniqueViolation) ==> VersionTaken(s.snaps, NextVersion(s))
    ensures q.kind.Rollback? && !VersionTaken(s.snaps, NextVersion(s)) ==> CommitError(c, s, q).None?
  {
  }

  /** Publishing with an empty selection leaves records, mappings and drafts alone. */
  lemma EmptyFold(c: Schema, s: State, q: Request, s': State)
    requires PositionsDistinct(s.dim) && q.scope == Some([]) && Committed(c, s, q, s')
    ensures s'.dim == s.dim && s'.mapping == s.mapping && s'.drafts == s.drafts
  {
    hide FoldedDim, CommitError, Group;
    EmptySelection(c, s, q);
    FoldedRecords(c, s, q, s'.dim);
    assert s'.dim == s.dim;
    forall r | r in s'.mapping
      ensures r in s.mapping && s'.mapping[r] == s.mapping[r]
    {
      FoldedTargets(c, s, q, s'.mapping, r);
    }
    assert s'.mapping == s.mapping;
    assert s'.drafts == s.drafts;
  }

  lemma PublishOfNext(c: Schema, s: State, q: Request, s': State)
    requires Next(c, s, APublish(q), s')
    ensures PositionsDistinct(s.dim) && CommitStep(c, s, q, s')
  {
    hide CommitStep;
  }

  lemma NextVersionFree(s: State)
    requires VersionsDense(s)
    ensures !VersionTaken(s.snaps, NextVersion(s))
  {
  }

  /** The version that a rollback appends: next number, marked as a rollback, with
      exactly these records (on physical columns) and mappings. */
  ghost predicate PublishesAgain(c: Schema, s: State, v: int, records: map<Key, Row>,
                                 mappings: map<Raw, Key>, s': State)
  {
    && AppendsVersion(s, s')
    && var made := s'.snaps[|s'.snaps| - 1];
       && made.version == |s.snaps| + 1 && made.kind.Rollback? && made.restores == Some(v)
       && CanonAll(c, made.records) == records && made.mappings == mappings
       && s'.events[|s'.events| - 1].version == made.version
  }

  /** The publish half of a rollback. */
  lemma PublishHalf(c: Schema, mid: State, v: int, q: Request, s': State)
    requires c.WellFormed() && Kept(c, mid) && IsRollbackRequest(q, v) && Next(c, mid, APublish(q), s')
    ensures s'.dim == mid.dim && s'.mapping == mid.mapping && s'.drafts == mid.drafts && s'.stamps == mid.stamps
    ensures ChangedKeys(c, mid) != {} ==>
              PublishesAgain(c, mid, v, mid.dim, mid.mapping, s') && ChangedKeys(c, s') == {}
    ensures ChangedKeys(c, mid) == {} ==> s' == mid
  {
    hide Next, Committed, ChangedKeys;
    PublishOfNext(c, mid, q, s');
    NextVersionFree(mid);
    EmptySelection(c, mid, q);
    if ChangedKeys(c, mid) != {} {
      EmptyCommit(c, mid, v, q, s');
    }
  }

  lemma EmptyCommit(c: Schema, mid: State, v: int, q: Request, s': State)
    requires c.WellFormed() && Kept(c, mid) && IsRollbackRequest(q, v) && Committed(c, mid, q, s')
    ensures s'.dim == mid.dim && s'.mapping == mid.mapping && s'.drafts == mid.drafts && s'.stamps == mid.stamps
    ensures PublishesAgain(c, mid, v, mid.dim, mid.mapping, s') && ChangedKeys(c, s') == {}
  {
    hide FoldedDim, FoldedMapping, CanonAll;
    EmptyFold(c, mid, q, s');
    CommitIsClean(c, mid, q, s');
    SnapshotIsDim(c, q, NextVersion(mid), s'.dim, s'.mapping);
  }

  lemma RestoreHalf(c: Schema, s: State, v: int, mid: State)
    requires Kept(c, s) && Restore(c, s, v) == Ok(mid)
    ensures Kept(c, mid)
    ensures forall k :: IsLive(mid.stamps, k) <==> k in mid.dim
  {
    hide Restore, Kept;
    RestoreResult(c, s, v, mid);
    StepKeeps(c, s, ARestore(v), mid);
  }

  /** A rollback to v: the records and mappings are exactly those of version v,
      the drafts are untouched, the live version rows are exactly the records, and
      either one version is appended, whose content is version v's, or (only when
      the change set of the restored copy is empty) no version at all. */
  lemma RollbackResult(c: Schema, s: State, v: int, q: Request, mid: State, s': State)
    requires c.WellFormed() && Kept(c, s) && RolledBack(c, s, v, q, mid, s')
    ensures HasVersion(s, v)
    ensures s'.dim == CanonAll(c, SnapshotOf(s.snaps, v).records)
    ensures s'.mapping == SnapshotOf(s.snaps, v).mappings
    ensures s'.drafts == s.drafts
    ensures forall k :: IsLive(s'.stamps, k) <==> k in s'.dim
    ensures ChangedKeys(c, mid) != {} ==>
              PublishesAgain(c, s, v, s'.dim, s'.mapping, s') && ChangedKeys(c, s') == {}
    ensures ChangedKeys(c, mid) == {} ==> s'.snaps == s.snaps && s'.events == s.events
    ensures Kept(c, s')
  {
    hide Restore, Kept, IsLive, CanonAll, ChangedKeys;
    RestoreResult(c, s, v, mid);
    RestoreHalf(c, s, v, mid);
    PublishHalf(c, mid, v, q, s');
    StepKeeps(c, mid, APublish(q), s');
  }

  /** The records by which version v differs from the head, and of which the
      restore leaves a trace: they are in version v, or they have a version row
      that is live or was stamped since the last publish. */
  ghost predicate Traced(c: Schema, s: State, v: int, k: Key)
    requires HasVersion(s, v) && |s.events| > 0
  {
    var records := SnapshotOf(s.snaps, v).records;
    && Differs(c, HeadRecords(s), records, k)
    && (k in records || IsLive(s.stamps, k) || StampedSince(s.stamps, k, LastPublish(s.events)))
  }

  lemma CanonDiffers(c: Schema, a: map<Key, Row>, b: map<Key, Row>, k: Key)
    ensures Differs(c, a, CanonAll(c, b), k) <==> Differs(c, a, b, k)
  {
    if k in b {
      CanonTwice(c, b[k]);
    }
  }

  /** Exactly when a rollback publishes: some record differs between the head and
      version v and the restore leaves a trace of it. */
  lemma RollbackPublishesIff(c: Schema, s: State, v: int, mid: State)
    requires Kept(c, s) && Restore(c, s, v) == Ok(mid)
    ensures |s.events| > 0
    ensures ChangedKeys(c, mid) != {} <==> exists k :: Traced(c, s, v, k)
  {
    RestoreResult(c, s, v, mid);
    DenseSnapshot(s.snaps, 1, v);
    RestoredChange(c, s, mid, SnapshotOf(s.snaps, v).records);
    assert forall k :: Traced(c, s, v, k) <==> k in ChangedKeys(c, mid);
  }

  lemma RestoredChange(c: Schema, s: State, mid: State, records: map<Key, Row>)
    requires Kept(c, s) && |s.events| > 0
    requires mid.dim == CanonAll(c, records) && mid.stamps == RestoredStamps(s.stamps, records.Keys, s.Now())
    requires mid.snaps == s.snaps && mid.events == s.events
    ensures forall k :: k in ChangedKeys(c, mid) <==>
              && Differs(c, HeadRecords(s), records, k)
              && (k in records || IsLive(s.stamps, k) || StampedSince(s.stamps, k, LastPublish(s.events)))
  {
    forall k
      ensures k in ChangedKeys(c, mid) <==>
              && Differs(c, HeadRecords(s), records, k)
              && (k in records || IsLive(s.stamps, k) || StampedSince(s.stamps, k, LastPublish(s.events)))
    {
      RestoredStampOf(s.stamps, records.Keys, s.Now(), LastPublish(s.events), k);
      CanonDiffers(c, HeadRecords(s), records, k);
    }
  }

  /** When every published record has a live version row, a rollback publishes
      exactly when version v differs from the head in some record. */
  lemma RollbackPublishesWhenVersioned(c: Schema, s: State, v: int, mid: State)
    requires Kept(c, s) && Restore(c, s, v) == Ok(mid)
    requires forall k | k in HeadRecords(s) :: IsLive(s.stamps, k)
    ensures ChangedKeys(c, mid) != {} <==>
            exists k :: Differs(c, HeadRecords(s), SnapshotOf(s.snaps, v).records, k)
  {
    hide Restore, ChangedKeys, CanonAll, Canon, HeadRecords;
    RestoreResult(c, s, v, mid);
    RollbackPublishesIff(c, s, v, mid);
    if k :| Differs(c, HeadRecords(s), SnapshotOf(s.snaps, v).records, k) {
      assert Traced(c, s, v, k);
    }
  }

  /** The restore and the publish of a rollback are two transactions.  When others
      come in between, the appended version still says that it restores v, but holds
      what the table holds by then: it is version v exactly when they left the
      restored records and mappings alone; and when one of them has published
      everything, nothing is appended. */
  lemma RollbackInterleaved(c: Schema, s: State, v: int, q: Request,
                            states: seq<State>, actions: seq<Action>, s': State)
    requires c.WellFormed() && Kept(c, s) && IsRollbackRequest(q, v)
    requires Run(c, states, actions) && Restore(c, s, v) == Ok(states[0])
    requires Next(c, states[|actions|], APublish(q), s')
    ensures HasVersion(s, v)
    ensures var last := states[|actions|];
            if ChangedKeys(c, last) == {} then s' == last
            else
              && PublishesAgain(c, last, v, last.dim, last.mapping, s')
              && var made := s'.snaps[|s'.snaps| - 1];
                 CanonAll(c, made.records) == CanonAll(c, SnapshotOf(s.snaps, v).records)
                 && made.mappings == SnapshotOf(s.snaps, v).mappings
                 <==> last.dim == states[0].dim && last.mapping == states[0].mapping
  {
    hide Next, Kept, Restore, ChangedKeys, FullDiff;
    RestoreHalf(c, s, v, states[0]);
    RestoreResult(c, s, v, states[0]);
    RunKeeps(c, states, actions, |actions|);
    PublishHalf(c, states[|actions|], v, q, s');
  }

  /** Rolling back to v and then back to the old head undoes the first rollback,
      when nothing was pending before it. */
  lemma RollbackUndone(c: Schema, s: State, v: int, q1: Request, mid1: State, s1: State,
                       q2: Request, mid2: State, s2: State)
    requires c.WellFormed() && Kept(c, s) && |s.snaps| > 0
    requires s.dim == CanonAll(c, HeadRecords(s)) && s.mapping == HeadMappings(s)
    requires RolledBack(c, s, v, q1, mid1, s1)
    requires RolledBack(c, s1, Head(s.snaps).version, q2, mid2, s2)
    ensures s2.dim == s.dim && s2.mapping == s.mapping && s2.drafts == s.drafts
  {
    RollbackResult(c, s, v, q1, mid1, s1);
    RollbackResult(c, s1, Head(s.snaps).version, q2, mid2, s2);
    HeadSurvives(c, s, s1);
  }

  /** The old head can still be looked up after a version was appended. */
  lemma HeadSurvives(c: Schema, s: State, s': State)
    requires VersionsDense(s) && VersionsDense(s') && |s.snaps| > 0
    requires s'.snaps == s.snaps || AppendsVersion(s, s')
    ensures VersionTaken(s'.snaps, Head(s.snaps).version)
    ensures SnapshotOf(s'.snaps, Head(s.snaps).version) == Head(s.snaps)
  {
    hide SnapshotOf, Head;
    DenseHead(s.snaps);
    DenseSnapshot(s'.snaps, 1, Head(s.snaps).version);
    assert s'.snaps[|s.snaps| - 1] == s'.snaps[..|s.snaps|][|s.snaps| - 1];
  }
}
