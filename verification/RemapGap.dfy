/** A run in which publishing applies an older draft.  "x" is mapped to "a"; ann
    drafts "b" for it and bob, later, "c".  Both drafts join the mapping row of "x",
    and the database may apply ann's. */
module RemapGap {
  import opened Prelude
  import opened RefTable
  import opened Runs
  import Gap = RollbackGap
  import Before = RevertGap

  const ANN: DraftId := ("x", "ann")
  const BOB: DraftId := ("x", "bob")
  const TO_B := Draft(Mapped, Some("b"), Some("B"), 5, None)
  const TO_C := Draft(Mapped, Some("c"), Some("C"), 6, None)
  const ROW_C := Row(Some("C"), None, Gap.BLANK)
  const ROWS := map["a" := Gap.ROW_A, "b" := Gap.ROW_B, "c" := ROW_C]
  const SNAP2 := Snapshot(2, Publish, None, ROWS, map["x" := "b"])

  const W5 := Before.V4.(drafts := map[("y", "u") := Gap.LATER, ANN := TO_B], clock := 5)
  const W6 := W5.(drafts := map[("y", "u") := Gap.LATER, ANN := TO_B, BOB := TO_C], clock := 6)
  const W7 := State(ROWS, map["x" := "b"], Before.V4.drafts, Before.V4.stamps, [Before.SNAP, SNAP2],
                    [Event(1, 4), Event(2, 7)], 7)

  lemma Selects()
    ensures Eligible(W6, Gap.ALL) == {ANN, BOB}
    ensures InScope(W6, Gap.ALL, ANN) && InScope(W6, Gap.ALL, BOB) && !InScope(W6, Gap.ALL, ("y", "u"))
  {
    assert IsEligible(W6, Gap.ALL, ANN) && IsEligible(W6, Gap.ALL, BOB);
  }

  lemma NewRows()
    ensures NewKeys(W6, Gap.ALL) == {"b", "c"}
  {
    Selects();
    assert Target(W6, ANN) == "b" && Target(W6, BOB) == "c";
  }

  lemma Allows()
    ensures CommitError(Gap.PLAIN, W6, Gap.ALL).None? && !NothingToCommit(Gap.PLAIN, W6, Gap.ALL)
  {
    Selects();
    assert ANN in Eligible(W6, Gap.ALL);
    assert !VersionTaken(W6.snaps, 2);
    assert !LabelsClash(W6, Gap.ALL);
  }

  lemma InOrder()
    ensures NewKeyOrder(W6, Gap.ALL, ["b", "c"])
  {
    Selects();
    NewRows();
    assert FirstSeen(W6, Gap.ALL, "b", 5) && FirstSeen(W6, Gap.ALL, "c", 6);
    assert SeenBefore(W6, Gap.ALL, "b", "c");
  }

  lemma RowsOfDrafts()
    ensures forall id | id in Eligible(W6, Gap.ALL) ::
              && Target(W6, id) in W7.dim
              && W7.dim[Target(W6, id)] == Row(W6.drafts[id].name, None, BlankCells(Gap.PLAIN))
  {
    Selects();
    Gap.BlankIsBlank();
  }

  lemma FoldsRows()
    ensures FoldedDim(Gap.PLAIN, W6, Gap.ALL, ["b", "c"], W7.dim)
  {
    hide InScope, Eligible, NewKeyOrder, NewKeys, PositionsDistinct, BlankCells, FoldedDim;
    NewRows();
    InOrder();
    RowsOfDrafts();
    Gap.Unordered(W6.dim);
    Gap.FoldParts(Gap.PLAIN, W6, Gap.ALL, ["b", "c"], W7.dim);
  }

  lemma JoinsBoth()
    ensures Group(Gap.PLAIN, W6, Gap.ALL, "x") == {ANN, BOB} && Gap.PLAIN.lower("x") == "x"
  {
    Selects();
  }

  lemma AppliesAnn()
    ensures FoldedMapping(Gap.PLAIN, W6, Gap.ALL, W7.mapping)
  {
    Selects();
    JoinsBoth();
    assert ANN in Group(Gap.PLAIN, W6, Gap.ALL, "x") && Target(W6, ANN) == "b";
    assert Remaps(Gap.PLAIN, W6, Gap.ALL, "x", "b");
    assert HasFold(Gap.PLAIN, W6.mapping, "x") by {
      assert "x" in W6.mapping;
    }
  }

  lemma Snapshots()
    ensures TakeSnapshot(Gap.PLAIN, Gap.ALL, 2, W7.dim, W7.mapping) == SNAP2
  {
    Gap.PlainSnapshot(Gap.ALL, 2, W7.dim, W7.mapping);
  }

  lemma AppendsTwo()
    ensures PositionsDistinct(W6.dim) && Gap.Appends(Gap.PLAIN, W6, Gap.ALL, W7)
  {
    hide InScope, TakeSnapshot, PositionsDistinct;
    ClearsTwo();
    Gap.Unordered(W6.dim);
    Snapshots();
  }

  lemma ClearsTwo()
    ensures forall id :: id in W7.drafts <==> id in W6.drafts && !InScope(W6, Gap.ALL, id)
    ensures forall id | id in W7.drafts :: W7.drafts[id] == W6.drafts[id]
  {
    hide InScope;
    Selects();
  }

  lemma Publishes()
    ensures Committed(Gap.PLAIN, W6, Gap.ALL, W7) && Next(Gap.PLAIN, W6, APublish(Gap.ALL), W7)
  {
    hide *;
    Allows();
    FoldsRows();
    AppliesAnn();
    AppendsTwo();
    Gap.PublishParts(Gap.PLAIN, W6, Gap.ALL, ["b", "c"], W7);
  }

  lemma Saves()
    ensures Next(Gap.PLAIN, Before.V4, ASave("x", Mapped, Some("b"), Some("B"), "ann"), W5)
    ensures Next(Gap.PLAIN, W5, ASave("x", Mapped, Some("c"), Some("C"), "bob"), W6)
  {
  }

  const STEPS := [ASave("x", Mapped, Some("b"), Some("B"), "ann"), ASave("x", Mapped, Some("c"), Some("C"), "bob"),
                  APublish(Gap.ALL)]
  const ACTIONS := Before.ACTIONS[..4] + STEPS
  const STATES := Before.STATES[..5] + [W5, W6, W7]

  lemma GoesOn()
    ensures Run(Gap.PLAIN, [Before.V4] + [W5, W6, W7], STEPS)
  {
    hide Next;
    Saves();
    Publishes();
  }

  lemma Reachable()
    ensures Run(Gap.PLAIN, STATES, ACTIONS)
  {
    hide Run, W5, W6, W7, Before.V4, Before.V5, Before.V6, Before.V7;
    Before.Reachable();
    GoesOn();
    assert Before.STATES[4] == Before.V4;
    RunBranches(Gap.PLAIN, Before.STATES, Before.ACTIONS, 4, [W5, W6, W7], STEPS);
  }

  lemma BobIsNewest()
    ensures IsNewest(Gap.PLAIN, W6, Gap.ALL, BOB) && Target(W6, BOB) == "c"
  {
    Selects();
    JoinsBoth();
  }

  /** bob's draft is the newest, and "x" is published with ann's. */
  lemma OlderDraftWins()
    ensures Run(Gap.PLAIN, STATES, ACTIONS) && STATES[0] == EMPTY && STATES[6] == W6 && STATES[7] == W7
    ensures IsNewest(Gap.PLAIN, W6, Gap.ALL, BOB) && Target(W6, BOB) == "c"
    ensures Committed(Gap.PLAIN, W6, Gap.ALL, W7) && W7.mapping["x"] == "b"
  {
    hide Next, Committed;
    Reachable();
    BobIsNewest();
    Publishes();
  }
}
