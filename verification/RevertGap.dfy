/** A run in which a revert leaves a mapping that targets nothing.  Record "a" is
    published with "x" mapped to it; "b" is added and "a" merged into it, which
    repoints "x"; the revert brings "a" back and takes "b" away, but "x" still
    targets "b". */
module RevertGap {
  import opened Prelude
  import opened RefTable
  import opened Runs
  import opened Integrity
  import Gap = RollbackGap

  const X_TO_A := Draft(Mapped, Some("a"), Some("A"), 3, None)
  const SNAP := Snapshot(1, Publish, None, map["a" := Gap.ROW_A], map["x" := "a"])
  const MERGED := map["a" := Stamp(2, 6, Some(6), Some("b")), "b" := Stamp(2, 6, None, None)]
  const REVERTED := map["a" := Stamp(3, 7, None, None), "b" := Stamp(3, 7, None, None)]

  const V3 := Gap.S2.(drafts := map[("y", "u") := Gap.LATER, ("x", "u") := X_TO_A], clock := 3)
  const V4 := State(Gap.S2.dim, map["x" := "a"], Gap.S2.drafts, Gap.S2.stamps, [SNAP], [Event(1, 4)], 4)
  const V5 := V4.(dim := map["a" := Gap.ROW_A, "b" := Gap.ROW_B],
                  stamps := map["a" := Stamp(1, 2, None, None), "b" := Stamp(1, 5, None, None)], clock := 5)
  const V6 := V5.(dim := map["b" := Gap.ROW_B], mapping := map["x" := "b"], stamps := MERGED, clock := 6)
  const V7 := V6.(dim := map["a" := Gap.ROW_A], stamps := REVERTED, clock := 7)

  lemma SelectsX()
    ensures Eligible(V3, Gap.ALL) == {("x", "u")} && NewKeys(V3, Gap.ALL) == {}
    ensures InScope(V3, Gap.ALL, ("x", "u")) && !InScope(V3, Gap.ALL, ("y", "u"))
    ensures CommitError(Gap.PLAIN, V3, Gap.ALL).None? && !NothingToCommit(Gap.PLAIN, V3, Gap.ALL)
  {
    assert IsEligible(V3, Gap.ALL, ("x", "u"));
    assert Target(V3, ("x", "u")) == "a";
    assert ("x", "u") in Eligible(V3, Gap.ALL);
  }

  lemma MapsX()
    ensures FoldedDim(Gap.PLAIN, V3, Gap.ALL, [], V4.dim)
    ensures FoldedMapping(Gap.PLAIN, V3, Gap.ALL, V4.mapping)
  {
    SelectsX();
    assert IsNewest(Gap.PLAIN, V3, Gap.ALL, ("x", "u"));
    assert "x" in V4.mapping && Gap.PLAIN.lower("x") == "x";
  }

  lemma SnapshotsA()
    ensures TakeSnapshot(Gap.PLAIN, Gap.ALL, 1, V4.dim, V4.mapping) == SNAP
  {
    Gap.PlainSnapshot(Gap.ALL, 1, V4.dim, V4.mapping);
  }

  lemma AppendsX()
    ensures PositionsDistinct(V3.dim) && Gap.Appends(Gap.PLAIN, V3, Gap.ALL, V4)
  {
    hide InScope, TakeSnapshot;
    SelectsX();
    SnapshotsA();
  }

  lemma PublishesX()
    ensures Next(Gap.PLAIN, V3, APublish(Gap.ALL), V4)
  {
    hide *;
    SelectsX();
    MapsX();
    AppendsX();
    Gap.PublishParts(Gap.PLAIN, V3, Gap.ALL, [], V4);
  }

  lemma AddsB()
    ensures Next(Gap.PLAIN, V4, AAdd("b", "B"), V5)
  {
    hide Next;
    Gap.BlankIsBlank();
    assert V4.dim["b" := Gap.ROW_B] == V5.dim && V4.stamps["b" := Stamp(1, 5, None, None)] == V5.stamps;
    Gap.AddParts(Gap.PLAIN, V4, "b", "B", V5);
  }

  const VERSIONS := map["a" := 1, "b" := 1]

  lemma OneLoser()
    ensures RealLosers("b", ["a"]) == {"a"} && {"a"} + {"b"} == {"a", "b"}
  {
  }

  lemma BothMatch()
    ensures VersionsMatch(V5.stamps, {"a", "b"}, VERSIONS)
  {
  }

  lemma Repoints()
    ensures Repointed(V5.mapping, {"a"}, "b") == V6.mapping
  {
  }

  lemma DropsA()
    ensures V5.dim - {"a"} == V6.dim
  {
  }

  lemma MergedAB()
    ensures MergedStamps(V5.stamps, {"a"}, "b", 6) == MERGED
  {
  }

  lemma MergesA()
    ensures Next(Gap.PLAIN, V5, AMerge("b", ["a"], VERSIONS), V6)
  {
    hide RealLosers, VersionsMatch, Repointed, MergedStamps;
    OneLoser();
    BothMatch();
    Repoints();
    DropsA();
    MergedAB();
    assert MergeRecords(V5, "b", ["a"], VERSIONS) == Ok(V6);
  }

  lemma BothChanged()
    ensures ChangedKeys(Gap.PLAIN, V6) == {"a", "b"} && HeadRecords(V6) == SNAP.records
  {
    Gap.BlankIsBlank();
    assert Head(V6.snaps) == SNAP;
    assert LastPublish(V6.events) == 4;
    assert StampedSince(V6.stamps, "a", 4) && StampedSince(V6.stamps, "b", 4);
  }

  lemma RevertedRows()
    ensures RevertedDim(Gap.PLAIN, V6) == V7.dim
  {
    hide ChangedKeys, HeadRecords, Canon, RevertedDim;
    BothChanged();
    Gap.BlankIsBlank();
    Gap.RevertedIs(Gap.PLAIN, V6, {"a", "b"}, SNAP.records, V7.dim);
  }

  lemma RevertedAB()
    ensures RevertedStamps(V6.stamps, {"a", "b"}, V7.dim, 7) == REVERTED
  {
  }

  lemma Reverts()
    ensures Next(Gap.PLAIN, V6, ARevert, V7)
  {
    hide Next, ChangedKeys, RevertedDim, RevertedStamps;
    BothChanged();
    RevertedRows();
    RevertedAB();
    Gap.RevertParts(Gap.PLAIN, V6, {"a", "b"}, V7);
  }

  lemma SavesX()
    ensures Next(Gap.PLAIN, Gap.S2, ASave("x", Mapped, Some("a"), Some("A"), "u"), V3)
  {
  }

  const STEPS := [ASave("x", Mapped, Some("a"), Some("A"), "u"), APublish(Gap.ALL), AAdd("b", "B"),
                  AMerge("b", ["a"], VERSIONS), ARevert]
  const ACTIONS := Gap.ACTIONS[..2] + STEPS
  const STATES := Gap.STATES[..3] + [V3, V4, V5, V6, V7]

  lemma Reachable()
    ensures Run(Gap.PLAIN, STATES, ACTIONS)
  {
    hide Next;
    Gap.Reachable();
    SavesX();
    PublishesX();
    AddsB();
    MergesA();
    Reverts();
    RunBranches(Gap.PLAIN, Gap.STATES, Gap.ACTIONS, 2, [V3, V4, V5, V6, V7], STEPS);
  }

  /** Sound before the revert, not after it: "x" targets a record that is gone. */
  lemma RevertLeavesMappingDangling()
    ensures Run(Gap.PLAIN, STATES, ACTIONS) && STATES[0] == EMPTY && STATES[6] == V6 && STATES[7] == V7
    ensures Sound(V6) && !MappingsResolve(V7.mapping, V7.dim)
    ensures "x" in V7.mapping && V7.mapping["x"] == "b" && "b" !in V7.dim
  {
    hide Next;
    Reachable();
    assert "x" in V7.mapping;
  }
}
