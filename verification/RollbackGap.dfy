/** A run from the empty table after which a rollback changes the working copy but
    publishes nothing.  Version 1 holds record "a"; version 2 adds record "b" by
    folding a draft, which gives "b" no version row; rolling back to version 1
    removes "b" without leaving a stamp, so the change set is empty.  When another
    user adds "d" before the rollback publishes, it appends a version that says it
    restores version 1 and holds "d". */
module RollbackGap {
  import opened Prelude
  import opened RefTable
  import opened Runs
  import opened Rollback

  const PLAIN := Schema({"note"}, {}, {}, false, false, (r: string) => r)

  const BLANK: map<Field, Value> := map["note" := Null]
  const ROW_A := Row(Some("A"), None, BLANK)
  const ROW_B := Row(Some("B"), None, BLANK)

  const ALL := Request("u", None, None, Publish, None, false, false, map[])
  const BACK := Request("u", Some([]), None, RefTable.Rollback, Some(1), false, false, map[])

  const SNAP1 := Snapshot(1, Publish, None, map["a" := ROW_A], map[])
  const SNAP2 := Snapshot(2, Publish, None, map["a" := ROW_A, "b" := ROW_B], map["x" := "b"])

  const STAMP_A := map["a" := Stamp(1, 2, None, None)]
  const LATER := Draft(Skipped, None, None, 1, None)
  const X_TO_B := Draft(Mapped, Some("b"), Some("B"), 4, None)

  const S0 := EMPTY
  const S1 := State(map[], map[], map[("y", "u") := LATER], map[], [], [], 1)
  const S2 := State(map["a" := ROW_A], map[], map[("y", "u") := LATER], STAMP_A, [], [], 2)
  const S3 := State(map["a" := ROW_A], map[], map[("y", "u") := LATER], STAMP_A, [SNAP1], [Event(1, 3)], 3)
  const S4 := State(map["a" := ROW_A], map[], map[("y", "u") := LATER, ("x", "u") := X_TO_B], STAMP_A,
                    [SNAP1], [Event(1, 3)], 4)
  const S5 := State(map["a" := ROW_A, "b" := ROW_B], map["x" := "b"], map[("y", "u") := LATER], STAMP_A,
                    [SNAP1, SNAP2], [Event(1, 3), Event(2, 5)], 5)
  const S6 := State(map["a" := ROW_A], map[], map[("y", "u") := LATER], map["a" := Stamp(2, 6, None, None)],
                    [SNAP1, SNAP2], [Event(1, 3), Event(2, 5)], 6)

  lemma BlankIsBlank()
    ensures BlankCells(PLAIN) == BLANK
    ensures Canon(PLAIN, ROW_A) == ROW_A
    ensures WithComputed(PLAIN, map[], "a", ROW_A) == ROW_A
    ensures WithComputed(PLAIN, map[], "b", ROW_B) == ROW_B
  {
  }

  lemma AddsA()
    ensures Next(PLAIN, S1, AAdd("a", "A"), S2)
  {
    BlankIsBlank();
  }

  /** The part of a publish that does not fold: drafts in scope go, one snapshot and
      one event are appended. */
  ghost predicate Appends(c: Schema, s: State, q: Request, s': State)
  {
    && (forall id :: id in s'.drafts <==> id in s.drafts && !InScope(s, q, id))
    && (forall id | id in s'.drafts :: s'.drafts[id] == s.drafts[id])
    && s'.stamps == s.stamps && s'.clock == s.Now()
    && s'.snaps == s.snaps + [TakeSnapshot(c, q, NextVersion(s), s'.dim, s'.mapping)]
    && s'.events == s.events + [Event(NextVersion(s), s.Now())]
  }

  /** A publish step put together from its parts. */
  lemma PublishParts(c: Schema, s: State, q: Request, order: seq<Key>, s': State)
    requires PositionsDistinct(s.dim) && CommitError(c, s, q).None? && !NothingToCommit(c, s, q)
    requires FoldedDim(c, s, q, order, s'.dim) && FoldedMapping(c, s, q, s'.mapping) && Appends(c, s, q, s')
    ensures Committed(c, s, q, s') && Next(c, s, APublish(q), s')
  {
    hide FoldedDim, FoldedMapping, TakeSnapshot;
    assert s'.drafts == (map id | id in s.drafts && !InScope(s, q, id) :: s.drafts[id]);
  }

  /** The fold of a table without manual order, put together from its parts. */
  lemma FoldParts(c: Schema, s: State, q: Request, order: seq<Key>, after: map<Key, Row>)
    requires PositionsDistinct(s.dim) && !c.manual && NewKeyOrder(s, q, order)
    requires after.Keys == s.dim.Keys + NewKeys(s, q) && forall k | k in s.dim :: after[k] == s.dim[k]
    requires forall id | id in Eligible(s, q) && Target(s, id) !in s.dim ::
               after[Target(s, id)] == Row(s.drafts[id].name, None, BlankCells(c))
    ensures FoldedDim(c, s, q, order, after)
  {
    hide Eligible, BlankCells, PositionsDistinct;
    forall i | 0 <= i < |order|
      ensures order[i] in after && after[order[i]].position.None?
    {
      assert order[i] in NewKeys(s, q);
    }
  }

  /** A snapshot of rows without formula columns. */
  lemma PlainSnapshot(q: Request, v: int, dim: map<Key, Row>, mapping: map<Raw, Key>)
    requires q.computed == map[] && forall k | k in dim :: dim[k].cells == BLANK
    ensures TakeSnapshot(PLAIN, q, v, dim, mapping) == Snapshot(v, q.kind, q.restores, dim, mapping)
  {
    forall k | k in dim
      ensures WithComputed(PLAIN, map[], k, dim[k]) == dim[k]
    {
      assert WithComputed(PLAIN, map[], k, dim[k]).cells == dim[k].cells;
    }
  }

  /** What a revert leaves, record by record. */
  lemma RevertedIs(c: Schema, s: State, changed: set<Key>, records: map<Key, Row>, dim: map<Key, Row>)
    requires ChangedKeys(c, s) == changed && HeadRecords(s) == records
    requires forall k :: k in dim <==> if k in changed then k in records else k in s.dim
    requires forall k | k in dim :: dim[k] == if k in changed then Canon(c, records[k]) else s.dim[k]
    ensures RevertedDim(c, s) == dim
  {
    hide ChangedKeys, HeadRecords, Canon;
  }

  /** A revert step put together from its parts. */
  lemma RevertParts(c: Schema, s: State, changed: set<Key>, s': State)
    requires PositionsDistinct(s.dim) && |s.events| > 0 && |s.snaps| > 0
    requires ChangedKeys(c, s) == changed != {} && RevertedDim(c, s) == s'.dim && PositionsDistinct(s'.dim)
    requires RevertedStamps(s.stamps, changed, s'.dim, s.Now()) == s'.stamps
    requires s' == s.(dim := s'.dim, stamps := s'.stamps, clock := s.Now())
    ensures Revert(c, s) == Ok(s') && Next(c, s, ARevert, s')
  {
    hide ChangedKeys, RevertedDim, RevertedStamps, PositionsDistinct;
  }

  lemma FoldsNothing()
    ensures FoldedDim(PLAIN, S2, ALL, [], S3.dim) && FoldedMapping(PLAIN, S2, ALL, S3.mapping)
    ensures CommitError(PLAIN, S2, ALL).None? && !NothingToCommit(PLAIN, S2, ALL)
    ensures !InScope(S2, ALL, ("y", "u"))
  {
    assert Eligible(S2, ALL) == {};
    assert NewKeys(S2, ALL) == {};
    assert "a" in ChangedKeys(PLAIN, S2);
    assert NewKeyOrder(S2, ALL, []);
  }

  lemma AppendsA()
    ensures PositionsDistinct(S2.dim) && Appends(PLAIN, S2, ALL, S3)
  {
    hide InScope, TakeSnapshot;
    FoldsNothing();
    SnapshotsA();
  }

  lemma SnapshotsA()
    ensures TakeSnapshot(PLAIN, ALL, 1, S3.dim, S3.mapping) == SNAP1
  {
    PlainSnapshot(ALL, 1, S3.dim, S3.mapping);
  }

  lemma PublishesA()
    ensures Next(PLAIN, S2, APublish(ALL), S3)
  {
    hide *;
    FoldsNothing();
    AppendsA();
    PublishParts(PLAIN, S2, ALL, [], S3);
  }

  lemma SelectsB()
    ensures Eligible(S4, ALL) == {("x", "u")}
    ensures NewKeys(S4, ALL) == {"b"}
    ensures InScope(S4, ALL, ("x", "u")) && !InScope(S4, ALL, ("y", "u"))
  {
    assert IsEligible(S4, ALL, ("x", "u"));
    assert Target(S4, ("x", "u")) == "b";
  }

  lemma FoldsB()
    ensures FoldedDim(PLAIN, S4, ALL, ["b"], S5.dim)
  {
    SelectsB();
    BlankIsBlank();
    assert FirstSeen(S4, ALL, "b", 4);
  }

  lemma MapsX()
    ensures FoldedMapping(PLAIN, S4, ALL, S5.mapping)
  {
    SelectsB();
    assert IsNewest(PLAIN, S4, ALL, ("x", "u"));
    assert "x" in S5.mapping && PLAIN.lower("x") == "x";
  }

  lemma SnapshotsB()
    ensures TakeSnapshot(PLAIN, ALL, 2, S5.dim, S5.mapping) == SNAP2
  {
    PlainSnapshot(ALL, 2, S5.dim, S5.mapping);
  }

  lemma AllowsB()
    ensures CommitError(PLAIN, S4, ALL).None? && !NothingToCommit(PLAIN, S4, ALL)
  {
    SelectsB();
    assert ("x", "u") in Eligible(S4, ALL);
    assert !VersionTaken(S4.snaps, 2);
  }

  lemma AppendsB()
    ensures PositionsDistinct(S4.dim) && Appends(PLAIN, S4, ALL, S5)
  {
    hide InScope, TakeSnapshot;
    SelectsB();
    SnapshotsB();
  }

  lemma PublishesB()
    ensures Next(PLAIN, S4, APublish(ALL), S5)
  {
    hide *;
    FoldsB();
    MapsX();
    AllowsB();
    AppendsB();
    PublishParts(PLAIN, S4, ALL, ["b"], S5);
  }

  lemma RestoredRows()
    ensures CanonAll(PLAIN, SNAP1.records) == S6.dim && PositionsDistinct(S6.dim)
    ensures RestoredStamps(S5.stamps, SNAP1.records.Keys, 6) == S6.stamps
  {
    BlankIsBlank();
  }

  lemma FindsFirst()
    ensures HasVersion(S5, 1) && SnapshotOf(S5.snaps, 1) == SNAP1
  {
    assert S5.snaps[0] == SNAP1;
  }

  lemma RestoresA()
    ensures Restore(PLAIN, S5, 1) == Ok(S6)
  {
    hide HasVersion, SnapshotOf, CanonAll, RestoredStamps, PositionsDistinct;
    FindsFirst();
    RestoredRows();
  }

  lemma HeadIsSecond()
    ensures HeadRecords(S6) == SNAP2.records
  {
    assert S6.snaps[..1] == [SNAP1];
    assert Head(S6.snaps) == SNAP2;
  }

  lemma NothingChanged()
    ensures ChangedKeys(PLAIN, S6) == {}
  {
    BlankIsBlank();
    HeadIsSecond();
  }

  lemma PublishesNothing()
    ensures Next(PLAIN, S6, APublish(BACK), S6)
  {
    NothingChanged();
    EmptySelection(PLAIN, S6, BACK);
  }

  const STATES := [S0, S1, S2, S3, S4, S5, S6]
  const ACTIONS := [ASave("y", Skipped, None, None, "u"), AAdd("a", "A"), APublish(ALL),
                    ASave("x", Mapped, Some("b"), Some("B"), "u"), APublish(ALL), ARestore(1)]

  lemma SixSteps(c: Schema, s: seq<State>, a: seq<Action>)
    requires |s| == 7 && |a| == 6
    requires Next(c, s[0], a[0], s[1]) && Next(c, s[1], a[1], s[2]) && Next(c, s[2], a[2], s[3])
    requires Next(c, s[3], a[3], s[4]) && Next(c, s[4], a[4], s[5]) && Next(c, s[5], a[5], s[6])
    ensures Run(c, s, a)
  {
  }

  lemma Drafts()
    ensures Next(PLAIN, S0, ASave("y", Skipped, None, None, "u"), S1)
    ensures Next(PLAIN, S3, ASave("x", Mapped, Some("b"), Some("B"), "u"), S4)
  {
  }

  lemma Restores()
    ensures Next(PLAIN, S5, ARestore(1), S6)
  {
    RestoresA();
  }

  lemma Reachable()
    ensures Run(PLAIN, STATES, ACTIONS)
  {
    hide Next;
    Drafts();
    AddsA();
    PublishesA();
    PublishesB();
    Restores();
    SixSteps(PLAIN, STATES, ACTIONS);
  }

  /** The rollback to version 1 succeeds: "b" and its mapping are gone from the
      working copy although the head version still has them; and the table ends
      with two versions and nothing pending. */
  lemma RollbackWithoutVersion()
    ensures Run(PLAIN, STATES, ACTIONS) && STATES[0] == EMPTY && STATES[|ACTIONS|] == S6
    ensures RolledBack(PLAIN, S5, 1, BACK, S6, S6)
    ensures "b" in HeadRecords(S6) && "b" !in S6.dim && |S6.snaps| == 2 && ChangedKeys(PLAIN, S6) == {}
  {
    hide Next, Restore, ChangedKeys;
    Reachable();
    RestoresA();
    HeadIsSecond();
    NothingChanged();
    PublishesNothing();
  }
  const ROW_D := Row(Some("D"), None, BLANK)
  const SNAP3 := Snapshot(3, RefTable.Rollback, Some(1), map["a" := ROW_A, "d" := ROW_D], map[])

  const S7 := S6.(dim := map["a" := ROW_A, "d" := ROW_D],
                  stamps := map["a" := Stamp(2, 6, None, None), "d" := Stamp(1, 7, None, None)], clock := 7)
  const S8 := S7.(snaps := [SNAP1, SNAP2, SNAP3], events := [Event(1, 3), Event(2, 5), Event(3, 8)], clock := 8)

  /** Rows without positions never clash. */
  lemma Unordered(dim: map<Key, Row>)
    requires forall k | k in dim :: dim[k].position.None?
    ensures PositionsDistinct(dim)
  {
  }

  /** Adding a record to a table without manual order. */
  lemma AddParts(c: Schema, s: State, key: Key, title: string, s': State)
    requires !c.manual && key != "" && key !in s.dim && forall k | k in s.dim :: s.dim[k].position.None?
    requires s' == s.(dim := s.dim[key := Row(Some(title), None, BlankCells(c))],
                      stamps := s.stamps[key := Seeded(s.stamps, key, s.Now())], clock := s.Now())
    ensures Next(c, s, AAdd(key, title), s')
  {
    hide PositionsDistinct, BlankCells, Seeded;
    Unordered(s.dim);
  }

  lemma AddsD()
    ensures Next(PLAIN, S6, AAdd("d", "D"), S7)
  {
    hide Next;
    BlankIsBlank();
    assert S6.dim["d" := ROW_D] == S7.dim && S6.stamps["d" := Stamp(1, 7, None, None)] == S7.stamps;
    AddParts(PLAIN, S6, "d", "D", S7);
  }

  lemma SelectsNone()
    ensures Eligible(S7, BACK) == {} && NewKeys(S7, BACK) == {} && NewKeyOrder(S7, BACK, [])
    ensures forall id :: !InScope(S7, BACK, id)
  {
  }

  lemma OnlyDChanged()
    ensures "d" in ChangedKeys(PLAIN, S7)
  {
    assert Head(S7.snaps) == SNAP2;
    assert LastPublish(S7.events) == 5;
    assert StampedSince(S7.stamps, "d", 5);
  }

  lemma AllowsBack()
    ensures CommitError(PLAIN, S7, BACK).None? && !NothingToCommit(PLAIN, S7, BACK)
  {
    hide ChangedKeys;
    SelectsNone();
    OnlyDChanged();
    assert !VersionTaken(S7.snaps, 3);
  }

  lemma SnapshotsD()
    ensures TakeSnapshot(PLAIN, BACK, 3, S8.dim, S8.mapping) == SNAP3
  {
    PlainSnapshot(BACK, 3, S8.dim, S8.mapping);
  }

  lemma AppendsD()
    ensures PositionsDistinct(S7.dim) && Appends(PLAIN, S7, BACK, S8)
  {
    hide InScope, TakeSnapshot;
    SelectsNone();
    SnapshotsD();
  }

  lemma FoldsNone()
    ensures FoldedDim(PLAIN, S7, BACK, [], S8.dim) && FoldedMapping(PLAIN, S7, BACK, S8.mapping)
  {
    hide InScope, Eligible, NewKeys, NewKeyOrder;
    SelectsNone();
  }

  lemma PublishesD()
    ensures Next(PLAIN, S7, APublish(BACK), S8)
  {
    hide *;
    FoldsNone();
    AllowsBack();
    AppendsD();
    PublishParts(PLAIN, S7, BACK, [], S8);
  }

  /** The run goes on: "d" is added between the two transactions of the rollback to
      version 1, and the version that it appends says that it restores version 1. */
  lemma RollbackOvertaken()
    ensures Run(PLAIN, STATES + [S7, S8], ACTIONS + [AAdd("d", "D"), APublish(BACK)])
    ensures Restore(PLAIN, S5, 1) == Ok(S6) && IsRollbackRequest(BACK, 1) && Run(PLAIN, [S6, S7], [AAdd("d", "D")])
    ensures S8.snaps[2].restores == Some(1) && "d" in S8.snaps[2].records && "d" !in SnapshotOf(S5.snaps, 1).records
  {
    hide Next, Restore;
    Reachable();
    RestoresA();
    AddsD();
    PublishesD();
    RunBranches(PLAIN, STATES, ACTIONS, 6, [S7, S8], [AAdd("d", "D"), APublish(BACK)]);
    assert STATES[..7] == STATES && ACTIONS[..6] == ACTIONS;
    assert SnapshotOf(S5.snaps, 1) == SNAP1;
  }
}
