/** Runs in which an incremental pull goes wrong.  Record "b" is added and reverted,
    which leaves its version row live: a consumer that had read "b" never hears that
    it is gone.  A draft then creates "b" again, and the record comes into the feed
    with the stamp of the revert: a consumer misses it.  And when "b" is retired
    instead, the draft creates it under its tombstone: it never comes back. */
module PullGap {
  import opened Prelude
  import opened RefTable
  import opened Runs
  import opened Keyset
  import opened Pull
  import Gap = RollbackGap

  const STAMP_A := Stamp(1, 2, None, None)
  const LIVE_B := Stamp(2, 5, None, None)
  const DEAD_B := Stamp(2, 5, Some(5), None)
  const X_TO_B := Draft(Mapped, Some("b"), Some("B"), 6, None)

  const T4 := Gap.S3.(dim := map["a" := Gap.ROW_A, "b" := Gap.ROW_B],
                      stamps := map["a" := STAMP_A, "b" := Stamp(1, 4, None, None)], clock := 4)

  /** "b" has gone and left version row `b`. */
  function Without(b: Stamp): State
  {
    Gap.S3.(stamps := map["a" := STAMP_A, "b" := b], clock := 5)
  }

  /** A draft maps "x" to "b". */
  function Drafted(b: Stamp): State
  {
    Without(b).(drafts := map[("y", "u") := Gap.LATER, ("x", "u") := X_TO_B], clock := 6)
  }

  /** The draft is published. */
  function Recreated(b: Stamp): State
  {
    State(T4.dim, map["x" := "b"], Gap.S3.drafts, Without(b).stamps, [Gap.SNAP1, Gap.SNAP2],
          [Event(1, 3), Event(2, 7)], 7)
  }

  const T5 := Without(LIVE_B)
  const T6 := Drafted(LIVE_B)
  const T7 := Recreated(LIVE_B)

  lemma AddsB()
    ensures Next(Gap.PLAIN, Gap.S3, AAdd("b", "B"), T4)
  {
    hide Next;
    Gap.BlankIsBlank();
    assert Gap.S3.dim["b" := Gap.ROW_B] == T4.dim;
    assert Gap.S3.stamps["b" := Stamp(1, 4, None, None)] == T4.stamps;
    Gap.AddParts(Gap.PLAIN, Gap.S3, "b", "B", T4);
  }

  lemma OnlyBChanged()
    ensures ChangedKeys(Gap.PLAIN, T4) == {"b"} && HeadRecords(T4) == Gap.SNAP1.records
  {
    Gap.BlankIsBlank();
    assert Head(T4.snaps) == Gap.SNAP1;
    assert LastPublish(T4.events) == 3;
    assert StampedSince(T4.stamps, "b", 3) && !StampedSince(T4.stamps, "a", 3);
  }

  lemma RevertsB()
    ensures Next(Gap.PLAIN, T4, ARevert, T5)
  {
    hide Next, ChangedKeys, RevertedDim, RevertedStamps;
    OnlyBChanged();
    RevertedRows();
    RevertedStampsB();
    Gap.RevertParts(Gap.PLAIN, T4, {"b"}, T5);
  }

  lemma RevertedRows()
    ensures RevertedDim(Gap.PLAIN, T4) == T5.dim
  {
    hide ChangedKeys, HeadRecords, Canon, RevertedDim;
    OnlyBChanged();
    Gap.RevertedIs(Gap.PLAIN, T4, {"b"}, Gap.SNAP1.records, T5.dim);
  }

  lemma RevertedStampsB()
    ensures RevertedStamps(T4.stamps, {"b"}, T5.dim, 5) == T5.stamps
  {
  }

  lemma RetiresB()
    ensures Next(Gap.PLAIN, T4, ARetire("b", 1), Without(DEAD_B))
  {
    hide Bumped;
    BumpsB();
    assert forall r | r in T4.mapping :: T4.mapping[r] != "b";
    assert T4.dim - {"b"} == Gap.S3.dim;
    assert RetireRecord(T4, "b", 1) == Ok(Without(DEAD_B));
  }

  lemma BumpsB()
    ensures Bumped(T4, "b", 1).Ok?
    ensures var stamps := Bumped(T4, "b", 1).value;
            "b" in stamps && stamps["b" := DEAD_B] == Without(DEAD_B).stamps
            && stamps["b"].(retiredAt := Some(5), retiredInto := None) == DEAD_B
  {
  }

  lemma SavesDraft(b: Stamp)
    ensures Next(Gap.PLAIN, Without(b), SAVE, Drafted(b))
  {
  }

  lemma SelectsB(b: Stamp)
    ensures Eligible(Drafted(b), Gap.ALL) == {("x", "u")} && NewKeys(Drafted(b), Gap.ALL) == {"b"}
    ensures InScope(Drafted(b), Gap.ALL, ("x", "u")) && !InScope(Drafted(b), Gap.ALL, ("y", "u"))
  {
    var s := Drafted(b);
    assert IsEligible(s, Gap.ALL, ("x", "u"));
    assert Target(s, ("x", "u")) == "b";
    assert ("x", "u") in Eligible(s, Gap.ALL);
  }

  lemma AllowsB(b: Stamp)
    ensures CommitError(Gap.PLAIN, Drafted(b), Gap.ALL).None? && !NothingToCommit(Gap.PLAIN, Drafted(b), Gap.ALL)
  {
    hide ChangedKeys;
    SelectsB(b);
    assert !VersionTaken(Drafted(b).snaps, 2);
  }

  lemma FoldsB(b: Stamp)
    ensures FoldedDim(Gap.PLAIN, Drafted(b), Gap.ALL, ["b"], Recreated(b).dim)
  {
    SelectsB(b);
    Gap.BlankIsBlank();
    assert FirstSeen(Drafted(b), Gap.ALL, "b", 6);
  }

  lemma MapsX(b: Stamp)
    ensures FoldedMapping(Gap.PLAIN, Drafted(b), Gap.ALL, Recreated(b).mapping)
  {
    SelectsB(b);
    assert IsNewest(Gap.PLAIN, Drafted(b), Gap.ALL, ("x", "u"));
    var after: map<Raw, Key> := map["x" := "b"];
    assert "x" in after && Gap.PLAIN.lower("x") == "x";
  }

  lemma AppendsB(b: Stamp)
    ensures PositionsDistinct(Drafted(b).dim) && Gap.Appends(Gap.PLAIN, Drafted(b), Gap.ALL, Recreated(b))
  {
    hide InScope, TakeSnapshot;
    SelectsB(b);
    Gap.SnapshotsB();
  }

  lemma PublishesB(b: Stamp)
    ensures Next(Gap.PLAIN, Drafted(b), APublish(Gap.ALL), Recreated(b))
  {
    hide *;
    AllowsB(b);
    FoldsB(b);
    MapsX(b);
    AppendsB(b);
    Gap.PublishParts(Gap.PLAIN, Drafted(b), Gap.ALL, ["b"], Recreated(b));
  }

  const SAVE := ASave("x", Mapped, Some("b"), Some("B"), "u")
  const ACTIONS := Gap.ACTIONS[..3] + [AAdd("b", "B"), ARevert, SAVE, APublish(Gap.ALL)]
  const STATES := Gap.STATES[..4] + [T4, T5, T6, T7]
  const RETIRING := Gap.ACTIONS[..3] + [AAdd("b", "B"), ARetire("b", 1), SAVE, APublish(Gap.ALL)]
  const HIDING := Gap.STATES[..4] + [T4, Without(DEAD_B), Drafted(DEAD_B), Recreated(DEAD_B)]

  /** However "b" goes, the run from the empty table goes on to create it again. */
  lemma Continues(a: Action, b: Stamp)
    requires Next(Gap.PLAIN, T4, a, Without(b))
    ensures Run(Gap.PLAIN, Gap.STATES[..4] + [T4, Without(b), Drafted(b), Recreated(b)],
                Gap.ACTIONS[..3] + [AAdd("b", "B"), a, SAVE, APublish(Gap.ALL)])
  {
    hide Next;
    Gap.Reachable();
    AddsB();
    SavesDraft(b);
    PublishesB(b);
    RunBranches(Gap.PLAIN, Gap.STATES, Gap.ACTIONS, 3, [T4, Without(b), Drafted(b), Recreated(b)],
                [AAdd("b", "B"), a, SAVE, APublish(Gap.ALL)]);
  }

  lemma Reachable()
    ensures Run(Gap.PLAIN, STATES, ACTIONS)
  {
    hide Next;
    RevertsB();
    Continues(ARevert, LIVE_B);
  }

  /** "b" is retired and then created by a publish: from then on it is a record of
      the table that the list of removals names and the feed does not show. */
  lemma RecreatedRecordIsHidden()
    ensures Run(Gap.PLAIN, HIDING, RETIRING) && HIDING[0] == EMPTY && HIDING[|RETIRING|] == Recreated(DEAD_B)
    ensures Hides(Gap.PLAIN, Drafted(DEAD_B), APublish(Gap.ALL), "b") && IsHidden(Recreated(DEAD_B), "b")
    ensures RetiredAfter(Recreated(DEAD_B).stamps, "b", 4) && "b" !in Feed(Recreated(DEAD_B))
  {
    hide Next, ChangedKeys;
    RetiresB();
    Continues(ARetire("b", 1), DEAD_B);
    SelectsB(DEAD_B);
    AllowsB(DEAD_B);
  }

  /** The record is in the table and in the feed, has just been published, and is
      behind every cursor that reached the time before the publish. */
  lemma ReaddedRecordIsMissed(mark: Mark)
    requires mark.Past? && mark.row.0 >= T6.clock
    ensures Run(Gap.PLAIN, STATES, ACTIONS) && STATES[0] == EMPTY && STATES[|ACTIONS|] == T7
    ensures "b" !in Feed(T6) && "b" in Feed(T7) && !Beyond(mark, RowOf(T7, "b"))
  {
    hide Next;
    Reachable();
  }

  const READ_ALL := Consumer(Start, Feed(T4))

  const PAGE: seq<RowKey> := [(2, "a"), (4, "b")]

  lemma FeedIsAB()
    ensures Feed(T4).Keys == {"a", "b"} && RowOf(T4, "a") == PAGE[0] && RowOf(T4, "b") == PAGE[1]
  {
  }

  lemma RowsAreAB()
    ensures forall r :: r in FeedRows(T4) <==> r in PAGE
  {
    FeedIsAB();
    assert RowOf(T4, "a") in FeedRows(T4) && RowOf(T4, "b") in FeedRows(T4);
    assert PAGE[0] in PAGE && PAGE[1] in PAGE;
  }

  lemma PageIsPage(rows: set<RowKey>)
    requires forall r :: r in rows <==> r in PAGE
    ensures IsPage(rows, Start, 10, PAGE, None)
  {
  }

  lemma PageIsFeed()
    ensures (forall r | r in PAGE :: r.1 in Feed(T4)) && Received(T4, map[], PAGE) == Feed(T4)
  {
    hide Feed, RowOf;
    FeedIsAB();
    assert PAGE[0] in PAGE && PAGE[1] in PAGE;
  }

  lemma FirstPage()
    ensures Reads(T4, 10, Consumer(Start, map[]), READ_ALL, true)
  {
    hide Feed, FeedRows, Received, IsPage;
    RowsAreAB();
    PageIsPage(FeedRows(T4));
    PageIsFeed();
  }

  /** The consumer reads the whole feed, "b" is reverted, and from then on "b" is in
      the consumer's copy, but neither in the feed nor among the tombstones. */
  lemma RevertedRecordLingers() returns (worlds: seq<World>, turns: seq<Turn>)
    ensures Run(Gap.PLAIN, STATES, ACTIONS) && STATES[0] == EMPTY && STATES[4] == T4
    ensures PullRun(Gap.PLAIN, worlds, turns) && worlds[0] == World(T4, Consumer(Start, map[]))
    ensures turns == [Page(10, true), Edit(ARevert)] && worlds[2].table == T5
    ensures "b" in worlds[2].reader.copy && "b" !in Feed(T5) && !RetiredAfter(T5.stamps, "b", 0)
  {
    hide Step, Reads;
    Reachable();
    FirstPage();
    RevertsB();
    worlds := [World(T4, Consumer(Start, map[])), World(T4, READ_ALL), World(T5, READ_ALL)];
    turns := [Page(10, true), Edit(ARevert)];
    assert "b" in Feed(T4);
  }
}
