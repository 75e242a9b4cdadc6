/** What a publish does to the value mappings, stated per lower-cased value. */
module CommitFold {
  import opened Prelude
  import opened RefTable
  import opened Invariants
  import opened Runs

  /** One mapping row per lower-cased value. */
  ghost predicate OneRowPerValue(c: Schema, mapping: map<Raw, Key>)
  {
    forall a, b | a in mapping && b in mapping && c.lower(a) == c.lower(b) :: a == b
  }

  /** Value `folded` resolves to `to`, through some row, and through no other target. */
  ghost predicate Resolves(c: Schema, mapping: map<Raw, Key>, folded: Raw, to: Key)
  {
    HasFold(c, mapping, folded) && forall r | r in mapping && c.lower(r) == folded :: mapping[r] == to
  }

  lemma BeatsIsOrder(s: State, a: DraftId, b: DraftId, d: DraftId)
    requires a in s.drafts && b in s.drafts && d in s.drafts
    ensures !Beats(s, a, a)
    ensures Beats(s, a, b) && Beats(s, b, d) ==> Beats(s, a, d)
    ensures Beats(s, a, b) ==> !Beats(s, b, a)
  {
    LexIrreflexive(a.1);
    if LexLess(a.1, b.1) && LexLess(b.1, d.1) {
      LexTransitive(a.1, b.1, d.1);
    }
    if LexLess(a.1, b.1) {
      LexAsymmetric(a.1, b.1);
    }
  }

  /** Two drafts are only tied when one author drafted two spellings of a value at
      the same instant. */
  lemma TiesAreSameAuthor(s: State, a: DraftId, b: DraftId)
    requires a in s.drafts && b in s.drafts && !Beats(s, a, b) && !Beats(s, b, a)
    ensures a.1 == b.1 && s.drafts[a].createdAt == s.drafts[b].createdAt
    ensures a.0 == b.0 ==> a == b
  {
    LexTotal(a.1, b.1);
  }

  lemma {:induction false} LeaderExists(s: State, ids: set<DraftId>) returns (id: DraftId)
    requires ids != {} && forall x | x in ids :: x in s.drafts
    ensures id in ids && forall x | x in ids :: !Beats(s, x, id)
    decreases ids
  {
    var first :| first in ids;
    var rest := ids - {first};
    if rest == {} {
      id := first;
      assert ids == {first};
      BeatsIsOrder(s, first, first, first);
    } else {
      var best := LeaderExists(s, rest);
      id := if Beats(s, first, best) then first else best;
      forall x | x in ids
        ensures !Beats(s, x, id)
      {
        BeatsIsOrder(s, x, first, best);
        BeatsIsOrder(s, first, best, x);
      }
    }
  }

  /** Every value with an eligible draft has a newest one. */
  lemma NewestExists(c: Schema, s: State, q: Request, folded: Raw) returns (id: DraftId)
    requires Group(c, s, q, folded) != {}
    ensures id in Group(c, s, q, folded) && IsNewest(c, s, q, id)
  {
    id := LeaderExists(s, Group(c, s, q, folded));
  }

  /** No two eligible drafts of the value are tied. */
  ghost predicate NoTies(c: Schema, s: State, q: Request, folded: Raw)
  {
    forall a, b | a in Group(c, s, q, folded) && b in Group(c, s, q, folded) && a != b ::
      Beats(s, a, b) || Beats(s, b, a)
  }

  lemma NewestUnique(c: Schema, s: State, q: Request, a: DraftId, b: DraftId)
    requires IsNewest(c, s, q, a) && IsNewest(c, s, q, b) && c.lower(a.0) == c.lower(b.0)
    requires NoTies(c, s, q, c.lower(a.0))
    ensures a == b
  {
    assert a in Group(c, s, q, c.lower(a.0)) && b in Group(c, s, q, c.lower(a.0));
  }

  /** Publishing keeps one row per value. */
  lemma FoldKeepsOneRow(c: Schema, s: State, q: Request, after: map<Raw, Key>)
    requires FoldedMapping(c, s, q, after) && OneRowPerValue(c, s.mapping)
    ensures OneRowPerValue(c, after)
  {
    forall a, b | a in after && b in after && c.lower(a) == c.lower(b)
      ensures a == b
    {
      assert a in s.mapping ==> HasFold(c, s.mapping, c.lower(a));
      assert b in s.mapping ==> HasFold(c, s.mapping, c.lower(b));
    }
  }

  lemma NewRowDrafted(c: Schema, s: State, q: Request, after: map<Raw, Key>, r: Raw)
    requires FoldedMapping(c, s, q, after) && r in after && r !in s.mapping
    ensures Group(c, s, q, c.lower(r)) != {}
  {
    var id :| id in Eligible(s, q) && id.0 == r;
    assert id in Group(c, s, q, c.lower(r));
  }

  /** Values without an eligible draft keep exactly their rows. */
  lemma UndraftedUnchanged(c: Schema, s: State, q: Request, after: map<Raw, Key>, r: Raw)
    requires FoldedMapping(c, s, q, after) && Group(c, s, q, c.lower(r)) == {}
    ensures r in after <==> r in s.mapping
    ensures r in after ==> after[r] == s.mapping[r]
  {
    if r in after && r !in s.mapping {
      NewRowDrafted(c, s, q, after, r);
    }
  }

  /** A value that had no row gets the target of its newest eligible draft. */
  lemma UnmappedGetsNewest(c: Schema, s: State, q: Request, after: map<Raw, Key>, id: DraftId)
    requires FoldedMapping(c, s, q, after) && IsNewest(c, s, q, id)
    requires !HasFold(c, s.mapping, c.lower(id.0)) && NoTies(c, s, q, c.lower(id.0))
    ensures Resolves(c, after, c.lower(id.0), Target(s, id))
    ensures id.0 in after
  {
    var folded := c.lower(id.0);
    assert HasFold(c, after, folded);
    forall r | r in after && c.lower(r) == folded
      ensures r == id.0 && after[r] == Target(s, id)
    {
      assert r !in s.mapping;
      var won :| won in Eligible(s, q) && won.0 == r && IsNewest(c, s, q, won) && after[r] == Target(s, won);
      NewestUnique(c, s, q, won, id);
    }
  }

  /** A mapped value with one eligible draft gets that draft's target. */
  lemma MappedGetsOnly(c: Schema, s: State, q: Request, after: map<Raw, Key>, folded: Raw, id: DraftId)
    requires FoldedMapping(c, s, q, after) && HasFold(c, s.mapping, folded)
    requires Group(c, s, q, folded) == {id}
    ensures Resolves(c, after, folded, Target(s, id))
  {
    var row :| row in s.mapping && c.lower(row) == folded;
    assert row in after;
    forall r | r in after && c.lower(r) == folded
      ensures after[r] == Target(s, id)
    {
      assert r in s.mapping;
      assert id in Group(c, s, q, folded);
    }
  }

  /** The fold, put together, whether or not values had one row each: each drafted
      value ends with a row; all its rows have the newest eligible draft's target if
      the value had none or has a single eligible draft; other values keep their
      rows; one row per value stays one row per value; and exactly the selected
      mapped drafts are gone. */
  lemma CommitRefinesFold(c: Schema, s: State, q: Request, s': State, folded: Raw)
    requires PositionsDistinct(s.dim) && Committed(c, s, q, s')
    requires NoTies(c, s, q, folded)
    ensures OneRowPerValue(c, s.mapping) ==> OneRowPerValue(c, s'.mapping)
    ensures Group(c, s, q, folded) != {} ==> HasFold(c, s'.mapping, folded)
    ensures forall id | id in Group(c, s, q, folded) && IsNewest(c, s, q, id)
                        && (!HasFold(c, s.mapping, folded) || Group(c, s, q, folded) == {id}) ::
              Resolves(c, s'.mapping, folded, Target(s, id))
    ensures Group(c, s, q, folded) == {} ==>
              forall r | c.lower(r) == folded ::
                 (r in s'.mapping <==> r in s.mapping) && (r in s.mapping ==> s'.mapping[r] == s.mapping[r])
    ensures forall id :: id in s'.drafts <==> id in s.drafts && !InScope(s, q, id)
    ensures forall id | id in s'.drafts :: s'.drafts[id] == s.drafts[id]
  {
    if OneRowPerValue(c, s.mapping) {
      FoldKeepsOneRow(c, s, q, s'.mapping);
    }
    if Group(c, s, q, folded) != {} {
      var some :| some in Group(c, s, q, folded);
      DraftedHasRow(c, s, q, s'.mapping, some);
    }
    forall id | id in Group(c, s, q, folded) && IsNewest(c, s, q, id)
                && (!HasFold(c, s.mapping, folded) || Group(c, s, q, folded) == {id})
      ensures Resolves(c, s'.mapping, folded, Target(s, id))
    {
      if HasFold(c, s.mapping, folded) {
        MappedGetsOnly(c, s, q, s'.mapping, folded, id);
      } else {
        UnmappedGetsNewest(c, s, q, s'.mapping, id);
      }
    }
    if Group(c, s, q, folded) == {} {
      forall r | c.lower(r) == folded
        ensures (r in s'.mapping <==> r in s.mapping) && (r in s.mapping ==> s'.mapping[r] == s.mapping[r])
      {
        UndraftedUnchanged(c, s, q, s'.mapping, r);
      }
    }
  }

  lemma DraftedHasRow(c: Schema, s: State, q: Request, after: map<Raw, Key>, id: DraftId)
    requires FoldedMapping(c, s, q, after) && id in Eligible(s, q)
    ensures HasFold(c, after, c.lower(id.0))
  {
    if HasFold(c, s.mapping, c.lower(id.0)) {
      var r :| r in s.mapping && c.lower(r) == c.lower(id.0);
      assert r in after;
    }
  }

  // ------------------------------------------------------------- when newest wins

  /** Some target that the UPDATE ... FROM may apply to an existing row. */
  ghost function SomeRemap(c: Schema, s: State, q: Request, r: Raw): (to: Key)
    requires r in s.mapping
    ensures Remaps(c, s, q, r, to)
  {
    if exists id | id in Group(c, s, q, c.lower(r)) :: Target(s, id) != s.mapping[r] then
      var id :| id in Group(c, s, q, c.lower(r)) && Target(s, id) != s.mapping[r];
      Target(s, id)
    else s.mapping[r]
  }

  /** Some newest draft of a value. */
  ghost function SomeNewest(c: Schema, s: State, q: Request, folded: Raw): (id: DraftId)
    requires Group(c, s, q, folded) != {}
    ensures id in Group(c, s, q, folded) && IsNewest(c, s, q, id)
  {
    assert exists id :: id in Group(c, s, q, folded) && IsNewest(c, s, q, id) by {
      var found := NewestExists(c, s, q, folded);
    }
    var id :| id in Group(c, s, q, folded) && IsNewest(c, s, q, id);
    id
  }

  /** The raw values of the rows a fold inserts. */
  ghost function FreshRaws(c: Schema, s: State, q: Request): set<Raw>
  {
    set id | id in Eligible(s, q) && !HasFold(c, s.mapping, c.lower(id.0)) && IsChosen(c, s, q, id) :: id.0
  }

  ghost predicate IsChosen(c: Schema, s: State, q: Request, id: DraftId)
  {
    Group(c, s, q, c.lower(id.0)) != {} && SomeNewest(c, s, q, c.lower(id.0)) == id
  }

  lemma FreshRaw(c: Schema, s: State, q: Request, x: Raw) returns (id: DraftId)
    requires x in FreshRaws(c, s, q)
    ensures id in Eligible(s, q) && id.0 == x && IsChosen(c, s, q, id) && IsNewest(c, s, q, id)
    ensures !HasFold(c, s.mapping, c.lower(x)) && x !in s.mapping
  {
    id :| id in Eligible(s, q) && id.0 == x && !HasFold(c, s.mapping, c.lower(id.0)) && IsChosen(c, s, q, id);
    assert x in s.mapping ==> HasFold(c, s.mapping, c.lower(x));
  }

  ghost function FreshTarget(c: Schema, s: State, q: Request, folded: Raw): Key
  {
    if Group(c, s, q, folded) != {} then Target(s, SomeNewest(c, s, q, folded)) else ""
  }

  /** One whole outcome of the fold, with the choice for row r given. */
  ghost function FoldOutcome(c: Schema, s: State, q: Request, r: Raw, to: Key): map<Raw, Key>
  {
    map x | x in s.mapping.Keys + FreshRaws(c, s, q) ::
      if x == r then to else if x in s.mapping then SomeRemap(c, s, q, x) else FreshTarget(c, s, q, c.lower(x))
  }

  /** Any permitted choice for one existing row extends to a whole fold. */
  lemma FoldExists(c: Schema, s: State, q: Request, r: Raw, to: Key)
    requires r in s.mapping && Remaps(c, s, q, r, to)
    ensures FoldedMapping(c, s, q, FoldOutcome(c, s, q, r, to)) && FoldOutcome(c, s, q, r, to)[r] == to
  {
    var after := FoldOutcome(c, s, q, r, to);
    forall x | x in after && x !in s.mapping
      ensures !HasFold(c, s.mapping, c.lower(x))
      ensures exists id | id in Eligible(s, q) :: id.0 == x && IsNewest(c, s, q, id) && after[x] == Target(s, id)
    {
      var id := FreshRaw(c, s, q, x);
    }
    forall id | id in Eligible(s, q) && !HasFold(c, s.mapping, c.lower(id.0))
      ensures HasFold(c, after, c.lower(id.0))
    {
      assert id in Group(c, s, q, c.lower(id.0));
      var won := SomeNewest(c, s, q, c.lower(id.0));
      assert c.lower(won.0) == c.lower(id.0) && IsChosen(c, s, q, won);
      assert won.0 in FreshRaws(c, s, q);
    }
    forall a, b | a in after && b in after && a !in s.mapping && b !in s.mapping && c.lower(a) == c.lower(b)
      ensures a == b
    {
      var x := FreshRaw(c, s, q, a);
      var y := FreshRaw(c, s, q, b);
    }
  }

  /** For a value that already has a row: publishing is certain to apply the newest
      eligible draft exactly when every eligible draft asks for that draft's target
      or for the target the value already has.  Otherwise the database may apply
      an older draft. */
  lemma NewestWinsIff(c: Schema, s: State, q: Request, r: Raw, id: DraftId)
    requires r in s.mapping
    requires id in Group(c, s, q, c.lower(r)) && IsNewest(c, s, q, id)
    ensures (forall after | FoldedMapping(c, s, q, after) :: after[r] == Target(s, id))
            <==> forall other | other in Group(c, s, q, c.lower(r)) ::
                   Target(s, other) == Target(s, id) || Target(s, other) == s.mapping[r]
  {
    var group := Group(c, s, q, c.lower(r));
    if other :| other in group && Target(s, other) != Target(s, id) && Target(s, other) != s.mapping[r] {
      FoldExists(c, s, q, r, Target(s, other));
      var after := FoldOutcome(c, s, q, r, Target(s, other));
      assert FoldedMapping(c, s, q, after) && after[r] != Target(s, id);
    } else {
      forall after | FoldedMapping(c, s, q, after)
        ensures after[r] == Target(s, id)
      {
        assert Remaps(c, s, q, r, after[r]);
      }
    }
  }

  // ------------------------------------------------------------- over runs

  /** One mapping row per lower-cased value, now and in every stored version. */
  ghost predicate OneRowEverywhere(c: Schema, s: State)
  {
    OneRowPerValue(c, s.mapping) && forall x | x in s.snaps :: OneRowPerValue(c, x.mappings)
  }

  lemma CommitOneRow(c: Schema, s: State, q: Request, s': State)
    requires PositionsDistinct(s.dim) && OneRowEverywhere(c, s) && Committed(c, s, q, s')
    ensures OneRowEverywhere(c, s')
  {
    FoldKeepsOneRow(c, s, q, s'.mapping);
    assert forall x | x in s'.snaps :: x in s.snaps || x == s'.snaps[|s.snaps|];
  }

  lemma MappingUnchanged(c: Schema, s: State, a: Action, s': State)
    requires PositionsDistinct(s.dim) && Step(c, s, a, s')
    requires !a.APublish? && !a.AMerge? && !a.ARestore?
    ensures s'.mapping == s.mapping
  {
    if KeyOf(a).Some? {
      SingleRecord(c, s, a, s');
    } else if !a.ARevert? {
      DraftStep(c, s, a, s');
    }
  }

  lemma NextOneRow(c: Schema, s: State, a: Action, s': State)
    requires OneRowEverywhere(c, s) && Next(c, s, a, s')
    ensures OneRowEverywhere(c, s')
  {
    if a.APublish? {
      if s' != s {
        CommitOneRow(c, s, a.request, s');
      }
    } else {
      HistoryUnchanged(c, s, a, s');
      if a.AMerge? {
        MergeKeepsRaws(s, a.survivor, a.losers, a.versions);
      } else if a.ARestore? {
        RestoredMapping(c, s, a.version);
      } else {
        MappingUnchanged(c, s, a, s');
      }
    }
  }

  lemma MergeKeepsRaws(s: State, survivor: Key, losers: seq<Key>, versions: map<Key, int>)
    ensures After(s, MergeRecords(s, survivor, losers, versions)).mapping.Keys == s.mapping.Keys
  {
  }

  lemma RestoredMapping(c: Schema, s: State, v: int)
    ensures var s' := After(s, Restore(c, s, v));
            s'.mapping == s.mapping || (HasVersion(s, v) && s'.mapping == SnapshotOf(s.snaps, v).mappings)
  {
  }

  /** A table that maps each value once does so over every run, and so does every
      version that it stores. */
  lemma {:induction false} OneRowOverRuns(c: Schema, states: seq<State>, actions: seq<Action>, i: nat)
    requires Run(c, states, actions) && OneRowEverywhere(c, states[0]) && i < |states|
    ensures OneRowEverywhere(c, states[i])
    ensures forall a, b | a in states[i].mapping && b in states[i].mapping && c.lower(a) == c.lower(b) :: a == b
  {
    hide Next;
    if i > 0 {
      OneRowOverRuns(c, states, actions, i - 1);
      NextOneRow(c, states[i - 1], actions[i - 1], states[i]);
    }
  }

  // ------------------------------------------------------------- the last save wins

  /** No draft was saved in the future. */
  ghost predicate DraftsBehind(s: State)
  {
    forall id | id in s.drafts :: s.drafts[id].createdAt <= s.clock
  }

  lemma NextDraftsBehind(c: Schema, s: State, a: Action, s': State)
    requires DraftsBehind(s) && Next(c, s, a, s')
    ensures DraftsBehind(s')
  {
    if KeyOf(a).Some? {
      SingleRecord(c, s, a, s');
    }
  }

  lemma {:induction false} DraftsBehindOverRuns(c: Schema, states: seq<State>, actions: seq<Action>, i: nat)
    requires Run(c, states, actions) && DraftsBehind(states[0]) && i < |states|
    ensures DraftsBehind(states[i])
  {
    if i > 0 {
      DraftsBehindOverRuns(c, states, actions, i - 1);
      NextDraftsBehind(c, states[i - 1], actions[i - 1], states[i]);
    }
  }

  /** The draft saved last is the newest of its value, whoever drafted it before and
      under whatever spelling; and if the value had no mapping, the next publish that
      takes the draft maps the value, in all its rows, to that draft's target. */
  lemma LastSaveWins(c: Schema, s: State, raw: Raw, k: Key, name: Option<string>, user: User, q: Request, s': State)
    requires DraftsBehind(s) && PositionsDistinct(s.dim)
    requires var saved := SaveDraft(s, raw, Mapped, Some(k), name, user);
             IsEligible(saved, q, (raw, user)) && Committed(c, saved, q, s')
    ensures IsNewest(c, SaveDraft(s, raw, Mapped, Some(k), name, user), q, (raw, user))
    ensures !HasFold(c, s.mapping, c.lower(raw)) ==> Resolves(c, s'.mapping, c.lower(raw), k)
  {
    var saved := SaveDraft(s, raw, Mapped, Some(k), name, user);
    var id := (raw, user);
    forall other | other in Group(c, saved, q, c.lower(raw)) && other != id
      ensures Beats(saved, id, other) && !Beats(saved, other, id)
    {
      BeatsIsOrder(saved, id, other, id);
    }
    BeatsIsOrder(saved, id, id, id);
    if !HasFold(c, s.mapping, c.lower(raw)) {
      StrictNewestApplied(c, saved, q, s'.mapping, id);
    }
  }

  /** So it is on every table that began empty. */
  lemma LastSaveWinsInRuns(c: Schema, states: seq<State>, actions: seq<Action>, i: nat,
                           raw: Raw, k: Key, name: Option<string>, user: User, q: Request, s': State)
    requires Run(c, states, actions) && states[0] == EMPTY && i < |states| && PositionsDistinct(states[i].dim)
    requires var saved := SaveDraft(states[i], raw, Mapped, Some(k), name, user);
             IsEligible(saved, q, (raw, user)) && Committed(c, saved, q, s')
    ensures IsNewest(c, SaveDraft(states[i], raw, Mapped, Some(k), name, user), q, (raw, user))
    ensures !HasFold(c, states[i].mapping, c.lower(raw)) ==> Resolves(c, s'.mapping, c.lower(raw), k)
  {
    DraftsBehindOverRuns(c, states, actions, i);
    LastSaveWins(c, states[i], raw, k, name, user, q, s');
  }

  lemma StrictNewestApplied(c: Schema, s: State, q: Request, after: map<Raw, Key>, id: DraftId)
    requires FoldedMapping(c, s, q, after) && IsNewest(c, s, q, id) && !HasFold(c, s.mapping, c.lower(id.0))
    requires forall other | other in Group(c, s, q, c.lower(id.0)) && other != id :: Beats(s, id, other)
    ensures Resolves(c, after, c.lower(id.0), Target(s, id))
  {
    forall r | r in after && c.lower(r) == c.lower(id.0)
      ensures after[r] == Target(s, id)
    {
      assert r !in s.mapping;
      var won :| won in Eligible(s, q) && won.0 == r && IsNewest(c, s, q, won) && after[r] == Target(s, won);
      assert won in Group(c, s, q, c.lower(id.0)) && id in Group(c, s, q, c.lower(won.0));
    }
  }

  /** Discarding takes back exactly one's own save: nothing but the author's own
      draft of the value differs from before. */
  lemma DiscardUndoesSave(s: State, raw: Raw, status: Status, target: Option<Key>, name: Option<string>, user: User)
    ensures var back := DiscardDraft(SaveDraft(s, raw, status, target, name, user), raw, user);
            back == s.(drafts := s.drafts - {(raw, user)}, clock := back.clock)
    ensures (raw, user) !in s.drafts ==> s.drafts - {(raw, user)} == s.drafts
  {
    var draft := Draft(status, target, name, s.Now(), None);
    assert s.drafts[(raw, user) := draft] - {(raw, user)} == s.drafts - {(raw, user)};
  }
}
