/** Parent pointers: the self-linked columns of one table. */
module Hierarchy {
  import opened Prelude
  import opened RefTable
  import opened Invariants
  import opened Runs
  import opened Integrity
  import opened ExactDiff
  import Links

  /** Every self-linked column is a forest, dangling parents included. */
  ghost predicate IsForest(c: Schema, dim: map<Key, Row>)
  {
    forall f | f in c.selfLinks :: Links.Acyclic(Parents(dim, f))
  }

  ghost predicate Forests(c: Schema, s: State)
  {
    IsForest(c, s.dim) && forall x | x in s.snaps :: IsForest(c, x.records)
  }

  /** An edit of the parent column is refused exactly when the new pointer would
      close a loop; an existing parent that closes none is always stored. */
  lemma ParentEditRefusedIff(c: Schema, s: State, key: Key, f: Field, parent: Key)
    requires c.WellFormed() && f in c.selfLinks && IsForest(c, s.dim) && parent in s.dim
    ensures SetField(c, s, key, f, Val(parent)) == Err(HierarchyCycle)
            <==> !Links.Acyclic(Parents(s.dim, f)[key := parent])
    ensures SetField(c, s, key, f, Val(parent)).Err? ==> SetField(c, s, key, f, Val(parent)) == Err(HierarchyCycle)
  {
    Links.LinkCloses(Parents(s.dim, f), key, parent);
  }

  /** Parents that do not exist are dropped, never stored. */
  lemma MissingParentDropped(c: Schema, s: State, key: Key, f: Field, parent: Key)
    requires c.WellFormed() && f in c.selfLinks && parent !in s.dim && key in s.dim
    ensures SetField(c, s, key, f, Val(parent)).Ok?
    ensures SetField(c, s, key, f, Val(parent)).value.dim[key].cells[f] == Null
  {
  }

  lemma FewerParents(c: Schema, small: map<Key, Row>, big: map<Key, Row>)
    requires IsForest(c, big)
    requires forall k, f | k in small && f in c.selfLinks && f in small[k].cells && small[k].cells[f].Val? ::
               k in big && f in big[k].cells && big[k].cells[f] == small[k].cells[f]
    ensures IsForest(c, small)
  {
    forall f | f in c.selfLinks
      ensures Links.Acyclic(Parents(small, f))
    {
      Links.SubmapAcyclic(Parents(small, f), Parents(big, f));
    }
  }

  /** Canonical rows keep the parent columns. */
  lemma CanonForest(c: Schema, rows: map<Key, Row>)
    requires c.WellFormed() && IsForest(c, rows)
    ensures IsForest(c, CanonAll(c, rows))
  {
    FewerParents(c, CanonAll(c, rows), rows);
  }

  /** Writing one cell re-links one column and leaves the others alone. */
  lemma CellParents(s: State, key: Key, f: Field, v: Value, g: Field)
    requires key in s.dim && f in s.dim[key].cells
    ensures var before, after := Parents(s.dim, g), Parents(WithCell(s, key, f, v).dim, g);
            && (g != f ==> after == before)
            && (g == f && v.Val? ==> after == before[key := v.text])
            && (g == f && v.Null? ==> after == before - {key})
  {
    hide Edited;
    RowParents(s.dim, key, s.dim[key].(cells := s.dim[key].cells[f := v]), g);
  }

  lemma RowParents(dim: map<Key, Row>, key: Key, row: Row, g: Field)
    requires key in dim
    ensures Parents(dim[key := row], g)
            == if g in row.cells && row.cells[g].Val? then Parents(dim, g)[key := row.cells[g].text]
               else Parents(dim, g) - {key}
  {
  }

  lemma EditForest(c: Schema, s: State, key: Key, f: Field, value: Value)
    requires c.WellFormed() && Kept(c, s) && IsForest(c, s.dim)
    ensures IsForest(c, After(s, SetField(c, s, key, f, value)).dim)
  {
    hide Links.Acyclic;
    if f in c.fields && key in s.dim && SetField(c, s, key, f, value).Ok? {
      var v := if f in c.selfLinks then LinkedValue(s.dim, f, key, value).value else value;
      forall g | g in c.selfLinks
        ensures Links.Acyclic(Parents(WithCell(s, key, f, v).dim, g))
      {
        CellParents(s, key, f, v, g);
        var before := Parents(s.dim, g);
        if g == f && v.Val? {
          Links.LinkCloses(before, key, v.text);
        } else if g == f {
          Links.SubmapAcyclic(before - {key}, before);
        }
      }
    }
  }

  lemma EditStep(c: Schema, s: State, a: Action, s': State)
    requires PositionsDistinct(s.dim) && a.AEdit? && Step(c, s, a, s')
    ensures s' == After(s, SetField(c, s, a.key, a.field, a.value))
  {
    hide SetField;
  }

  lemma UneditedCells(c: Schema, s: State, a: Action, s': State, k: Key)
    requires PositionsDistinct(s.dim) && KeyOf(a) == Some(k) && !a.AEdit? && Step(c, s, a, s') && k in s'.dim
    ensures s'.dim[k].cells == if k in s.dim then s.dim[k].cells else BlankCells(c)
  {
  }

  lemma SingleRecordForest(c: Schema, s: State, a: Action, s': State)
    requires c.WellFormed() && Kept(c, s) && IsForest(c, s.dim) && KeyOf(a).Some? && Step(c, s, a, s')
    ensures IsForest(c, s'.dim)
  {
    hide Step, IsForest, SetField;
    SingleRecord(c, s, a, s');
    if a.AEdit? {
      EditStep(c, s, a, s');
      EditForest(c, s, a.key, a.field, a.value);
    } else {
      var k := KeyOf(a).value;
      if k in s'.dim {
        UneditedCells(c, s, a, s', k);
      }
      FewerParents(c, s'.dim, s.dim);
    }
  }

  lemma CommitForest(c: Schema, s: State, q: Request, s': State)
    requires c.WellFormed() && Kept(c, s) && Forests(c, s) && Committed(c, s, q, s')
    ensures Forests(c, s')
  {
    FoldedRecords(c, s, q, s'.dim);
    BlankNewRows(c, s, q, s'.dim);
    FewerParents(c, s'.dim, s.dim);
    var snap := s'.snaps[|s.snaps|];
    CommitRows(c, s, q, s');
    FewerParents(c, snap.records, s'.dim);
    assert forall x | x in s'.snaps :: x in s.snaps || x == snap;
  }

  lemma BlankNewRows(c: Schema, s: State, q: Request, after: map<Key, Row>)
    requires PositionsDistinct(s.dim) && exists order :: FoldedDim(c, s, q, order, after)
    ensures forall k | k in after && k !in s.dim :: after[k].cells == BlankCells(c)
  {
    forall k | k in after && k !in s.dim
      ensures after[k].cells == BlankCells(c)
    {
      assert k in NewKeys(s, q);
    }
  }

  lemma StepForests(c: Schema, s: State, a: Action, s': State)
    requires c.WellFormed() && Kept(c, s) && PresentStamped(c, s) && Forests(c, s) && Step(c, s, a, s')
    ensures Forests(c, s')
  {
    hide IsForest, Restore, Revert, MergeRecords, Committed;
    if KeyOf(a).Some? {
      SingleRecord(c, s, a, s');
      SingleRecordForest(c, s, a, s');
    } else {
      match a
      case AMerge(survivor, losers, versions) => MergeForests(c, s, survivor, losers, versions);
      case APublish(q) => if s' != s { CommitForest(c, s, q, s'); }
      case ARestore(v) => RestoreForest(c, s, v);
      case ARevert => if s' != s { RevertForest(c, s, s'); }
      case _ => DraftStep(c, s, a, s');
    }
  }

  lemma MergeForests(c: Schema, s: State, survivor: Key, losers: seq<Key>, versions: map<Key, int>)
    requires Forests(c, s)
    ensures Forests(c, After(s, MergeRecords(s, survivor, losers, versions)))
  {
    hide IsForest;
    FewerParents(c, After(s, MergeRecords(s, survivor, losers, versions)).dim, s.dim);
  }

  lemma RestoreForest(c: Schema, s: State, v: int)
    requires c.WellFormed() && Forests(c, s)
    ensures Forests(c, After(s, Restore(c, s, v)))
  {
    hide IsForest;
    if Restore(c, s, v).Ok? {
      RestoreResult(c, s, v, Restore(c, s, v).value);
      CanonForest(c, SnapshotOf(s.snaps, v).records);
    }
  }

  lemma RevertForest(c: Schema, s: State, s': State)
    requires c.WellFormed() && Kept(c, s) && PresentStamped(c, s) && Forests(c, s) && Revert(c, s) == Ok(s')
    ensures Forests(c, s')
  {
    RevertResult(c, s, s');
    RevertIsPublished(c, s, s');
    var head := HeadRecords(s);
    CanonForest(c, head);
    FewerParents(c, s'.dim, CanonAll(c, head));
  }

  lemma NextForests(c: Schema, s: State, a: Action, s': State)
    requires c.WellFormed() && Kept(c, s) && PresentStamped(c, s) && Forests(c, s) && Next(c, s, a, s')
    ensures PresentStamped(c, s') && Forests(c, s')
  {
    StepPresent(c, s, a, s');
    StepForests(c, s, a, s');
  }

  /** Over every run, whatever is added, edited, deleted, published, restored or
      reverted, every parent column stays a forest, in the working copy and in
      every stored version. */
  lemma {:induction false} ForestsOverRuns(c: Schema, states: seq<State>, actions: seq<Action>, i: nat)
    requires c.WellFormed() && Run(c, states, actions) && i < |states|
    requires Kept(c, states[0]) && PresentStamped(c, states[0]) && Forests(c, states[0])
    ensures PresentStamped(c, states[i]) && Forests(c, states[i])
  {
    hide Next, Kept, PresentStamped, Forests;
    if i > 0 {
      ForestsOverRuns(c, states, actions, i - 1);
      RunKeeps(c, states, actions, i - 1);
      NextForests(c, states[i - 1], actions[i - 1], states[i]);
    }
  }

  lemma EmptyTableForest(c: Schema)
    ensures PresentStamped(c, EMPTY) && Forests(c, EMPTY)
  {
    forall f | f in c.selfLinks
      ensures Links.Acyclic(Parents(EMPTY.dim, f))
    {
      assert forall a: string, n: nat | n > 0 :: Links.Follow(Parents(EMPTY.dim, f), a, n).None?;
    }
  }

  /** So the unguarded ancestor walk ends from every record, in every state of
      every run that starts with the empty table. */
  lemma AncestorWalkEnds(c: Schema, states: seq<State>, actions: seq<Action>, i: nat, f: Field, start: Key)
    requires c.WellFormed() && Run(c, states, actions) && states[0] == EMPTY
    requires i < |states| && f in c.selfLinks
    ensures Links.WalkStops(Parents(states[i].dim, f), start)
  {
    EmptyTableKept(c);
    EmptyTableForest(c);
    ForestsOverRuns(c, states, actions, i);
    Links.TerminationIffAcyclic(Parents(states[i].dim, f));
  }
}
