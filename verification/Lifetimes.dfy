/** The optimistic version protocol: clients present the version they saw, and a
    record's visible version never goes back while the record exists. */
module Lifetimes {
  import opened Prelude
  import opened RefTable
  import opened Invariants
  import opened Runs
  import Ordering

  /** Does the action present version e for record k? */
  predicate Presents(a: Action, k: Key, e: int)
  {
    match a
    case ARename(key, _, expected) => key == k && expected == e
    case ARetire(key, expected) => key == k && expected == e
    case AMerge(survivor, losers, versions) =>
      && (k == survivor || (k in losers && k != "")) && (exists l | l in losers :: l != "" && l != survivor)
      && k in versions && versions[k] == e
    case _ => false
  }

  lemma PresentedToMerge(a: Action, k: Key, e: int)
    requires a.AMerge? && Presents(a, k, e)
    ensures RealLosers(a.survivor, a.losers) != {} && k in RealLosers(a.survivor, a.losers) + {a.survivor}
  {
    var l :| l in a.losers && l != "" && l != a.survivor;
    assert l in RealLosers(a.survivor, a.losers);
  }

  /** Does a rename, retire or merge go through in this state? */
  predicate Wins(s: State, a: Action)
  {
    match a
    case ARename(key, title, expected) => RenameRecord(s, key, title, expected).Ok?
    case ARetire(key, expected) => RetireRecord(s, key, expected).Ok?
    case AMerge(survivor, losers, versions) => MergeRecords(s, survivor, losers, versions).Ok?
    case _ => false
  }

  /** A winner presented the visible version, including the implied version 1 of a
      record without a live version row; and it either ends the record's life or
      raises its visible version. */
  lemma WinnerSawCurrent(c: Schema, s: State, a: Action, s': State, k: Key, e: int)
    requires Kept(c, s) && Step(c, s, a, s') && Presents(a, k, e) && Wins(s, a)
    ensures e == VisibleVersion(s.stamps, k)
    ensures k !in s'.dim || VisibleVersion(s'.stamps, k) > e
  {
    if a.AMerge? {
      PresentedToMerge(a, k, e);
    }
  }

  /** While a record exists its visible version never decreases. */
  lemma VisibleMonotone(c: Schema, s: State, a: Action, s': State, k: Key)
    requires Kept(c, s) && Step(c, s, a, s') && k in s.dim && k in s'.dim
    ensures VisibleVersion(s.stamps, k) <= VisibleVersion(s'.stamps, k)
  {
    hide Restore, Revert, MergeRecords, CommitStep;
    if KeyOf(a) == Some(k) {
      SingleRecordVisible(c, s, a, s', k);
    } else if KeyOf(a).Some? {
      SingleRecord(c, s, a, s');
    } else if a.AMerge? || a.ARestore? || a.ARevert? {
      BulkVisible(c, s, a, s', k);
    } else if a.APublish? {
      PublishStep(c, s, a.request, s');
    } else {
      DraftStep(c, s, a, s');
    }
  }

  lemma SingleRecordVisible(c: Schema, s: State, a: Action, s': State, k: Key)
    requires Kept(c, s) && Step(c, s, a, s') && KeyOf(a) == Some(k) && k in s.dim && k in s'.dim
    ensures VisibleVersion(s.stamps, k) <= VisibleVersion(s'.stamps, k)
  {
    hide Step;
    SingleOwn(c, s, a, s');
  }

  lemma BulkVisible(c: Schema, s: State, a: Action, s': State, k: Key)
    requires Kept(c, s) && Step(c, s, a, s') && (a.AMerge? || a.ARestore? || a.ARevert?)
    requires k in s.dim && k in s'.dim
    ensures VisibleVersion(s.stamps, k) <= VisibleVersion(s'.stamps, k)
  {
    hide VisibleVersion, MergeRecords, Restore, Revert;
    match a
    case AMerge(survivor, losers, versions) => MergeVisible(s, survivor, losers, versions, k);
    case ARestore(v) => RestoreVisible(c, s, v, k);
    case ARevert => RevertVisible(c, s, k);
  }

  lemma MergeVisible(s: State, survivor: Key, losers: seq<Key>, versions: map<Key, int>, k: Key)
    requires k in After(s, MergeRecords(s, survivor, losers, versions)).dim
    ensures VisibleVersion(s.stamps, k)
            <= VisibleVersion(After(s, MergeRecords(s, survivor, losers, versions)).stamps, k)
  {
  }

  lemma RestoreVisible(c: Schema, s: State, v: int, k: Key)
    requires StampsOk(s) && k in After(s, Restore(c, s, v)).dim
    ensures VisibleVersion(s.stamps, k) <= VisibleVersion(After(s, Restore(c, s, v)).stamps, k)
  {
  }

  lemma RevertVisible(c: Schema, s: State, k: Key)
    requires StampsOk(s) && k in After(s, Revert(c, s)).dim
    ensures VisibleVersion(s.stamps, k) <= VisibleVersion(After(s, Revert(c, s)).stamps, k)
  {
  }

  lemma VisibleStep(c: Schema, states: seq<State>, actions: seq<Action>, k: Key, i: nat)
    requires Run(c, states, actions) && Kept(c, states[0]) && i < |actions|
    requires k in states[i].dim && k in states[i + 1].dim
    ensures VisibleVersion(states[i].stamps, k) <= VisibleVersion(states[i + 1].stamps, k)
  {
    hide Next, Kept, VisibleVersion;
    RunKeeps(c, states, actions, i);
    NextVisible(c, states[i], actions[i], states[i + 1], k);
  }

  lemma NextVisible(c: Schema, s: State, a: Action, s': State, k: Key)
    requires Kept(c, s) && Next(c, s, a, s') && k in s.dim && k in s'.dim
    ensures VisibleVersion(s.stamps, k) <= VisibleVersion(s'.stamps, k)
  {
    VisibleMonotone(c, s, a, s', k);
  }

  lemma {:induction false} Climbs(v: seq<int>, i: nat, j: nat)
    requires i <= j < |v| && forall m | i <= m < j :: v[m] <= v[m + 1]
    ensures v[i] <= v[j]
  {
    if i < j {
      Climbs(v, i, j - 1);
    }
  }

  lemma VisibleGrows(c: Schema, states: seq<State>, actions: seq<Action>, k: Key, i: nat, j: nat)
    requires Run(c, states, actions) && Kept(c, states[0]) && i <= j < |states|
    requires forall m | i <= m <= j :: k in states[m].dim
    ensures VisibleVersion(states[i].stamps, k) <= VisibleVersion(states[j].stamps, k)
  {
    hide Next, Kept, VisibleVersion;
    var v := seq(|states|, m requires 0 <= m < |states| => VisibleVersion(states[m].stamps, k));
    forall m | i <= m < j
      ensures v[m] <= v[m + 1]
    {
      VisibleStep(c, states, actions, k, m);
    }
    Climbs(v, i, j);
  }

  /** No lost update: of any number of rename, retire or merge attempts that
      present the same version of a record, two can only both win if the record
      ceased to exist in between. */
  lemma SameVersionWinsOnce(c: Schema, states: seq<State>, actions: seq<Action>, k: Key, e: int, i: nat, j: nat)
    requires Run(c, states, actions) && Kept(c, states[0]) && i < j < |actions|
    requires Presents(actions[i], k, e) && Wins(states[i], actions[i])
    requires Presents(actions[j], k, e) && Wins(states[j], actions[j])
    ensures exists m | i < m <= j :: k !in states[m].dim
  {
    hide Kept, Wins, Presents, VisibleVersion;
    RunKeeps(c, states, actions, i);
    RunKeeps(c, states, actions, j);
    assert Next(c, states[i], actions[i], states[i + 1]) && Next(c, states[j], actions[j], states[j + 1]);
    WinnerSawCurrent(c, states[i], actions[i], states[i + 1], k, e);
    WinnerSawCurrent(c, states[j], actions[j], states[j + 1], k, e);
    if forall m | i < m <= j :: k in states[m].dim {
      VisibleGrows(c, states, actions, k, i + 1, j);
    }
  }

  // ------------------------------------------------------------- across lifetimes

  /** Version rows are never deleted and never count back. */
  ghost predicate RowsGrow(a: map<Key, Stamp>, b: map<Key, Stamp>)
  {
    forall k | k in a :: k in b && a[k].version <= b[k].version
  }

  lemma SingleRecordGrows(c: Schema, s: State, a: Action, s': State)
    requires PositionsDistinct(s.dim) && KeyOf(a).Some? && Step(c, s, a, s')
    ensures RowsGrow(s.stamps, s'.stamps)
  {
    hide Step;
    SingleRecord(c, s, a, s');
    SingleOwn(c, s, a, s');
  }

  lemma BulkGrows(c: Schema, s: State, a: Action, s': State)
    requires PositionsDistinct(s.dim) && (a.AMerge? || a.ARestore? || a.ARevert?) && Step(c, s, a, s')
    ensures RowsGrow(s.stamps, s'.stamps)
  {
    hide RowsGrow, Restore, Revert, MergeRecords;
    match a
    case AMerge(survivor, losers, versions) => MergeGrows(s, survivor, losers, versions);
    case ARestore(v) => RestoreGrows(c, s, v);
    case ARevert => RevertGrows(c, s);
  }

  lemma MergeGrows(s: State, survivor: Key, losers: seq<Key>, versions: map<Key, int>)
    ensures RowsGrow(s.stamps, After(s, MergeRecords(s, survivor, losers, versions)).stamps)
  {
  }

  lemma RestoreGrows(c: Schema, s: State, v: int)
    ensures RowsGrow(s.stamps, After(s, Restore(c, s, v)).stamps)
  {
  }

  lemma RevertGrows(c: Schema, s: State)
    ensures RowsGrow(s.stamps, After(s, Revert(c, s)).stamps)
  {
  }

  lemma NextGrows(c: Schema, s: State, a: Action, s': State)
    requires Next(c, s, a, s')
    ensures RowsGrow(s.stamps, s'.stamps)
  {
    if KeyOf(a).Some? {
      SingleRecordGrows(c, s, a, s');
    } else if a.AMerge? || a.ARestore? || a.ARevert? {
      BulkGrows(c, s, a, s');
    } else if !a.APublish? {
      DraftStep(c, s, a, s');
    }
  }

  lemma {:induction false} RowClimbs(rows: seq<map<Key, Stamp>>, k: Key, i: nat, j: nat)
    requires i <= j < |rows| && k in rows[i]
    requires forall m | i <= m < j :: RowsGrow(rows[m], rows[m + 1])
    ensures k in rows[j] && rows[i][k].version <= rows[j][k].version
  {
    if i < j {
      RowClimbs(rows, k, i, j - 1);
      assert RowsGrow(rows[j - 1], rows[j - 1 + 1]);
    }
  }

  lemma RowGrowsOverRuns(c: Schema, states: seq<State>, actions: seq<Action>, k: Key, i: nat, j: nat)
    requires Run(c, states, actions) && i <= j < |states| && k in states[i].stamps
    ensures k in states[j].stamps && states[i].stamps[k].version <= states[j].stamps[k].version
  {
    hide Next, RowsGrow;
    var rows := seq(|states|, m requires 0 <= m < |states| => states[m].stamps);
    forall m | i <= m < j
      ensures RowsGrow(rows[m], rows[m + 1])
    {
      NextGrows(c, states[m], actions[m], states[m + 1]);
    }
    RowClimbs(rows, k, i, j);
  }

  /** A win leaves a version row beyond the version presented. */
  lemma WinLeavesRow(c: Schema, s: State, a: Action, s': State, k: Key, e: int)
    requires Kept(c, s) && Next(c, s, a, s') && Presents(a, k, e) && Wins(s, a)
    ensures k in s'.stamps && s'.stamps[k].version > e
  {
    if a.AMerge? {
      PresentedToMerge(a, k, e);
    }
  }

  lemma WinSeesRow(c: Schema, s: State, a: Action, s': State, k: Key, e: int)
    requires Kept(c, s) && Next(c, s, a, s') && Presents(a, k, e) && Wins(s, a)
    requires k in s.stamps && s.stamps[k].version > e
    ensures e == 1 && !IsLive(s.stamps, k) && k in s.dim
  {
    if a.AMerge? {
      PresentedToMerge(a, k, e);
    }
  }

  /** No lost update, whatever happened to the record in between: a version of a
      record wins at most once ever, but for the implied version 1 of a record that
      was created anew without a live version row. */
  lemma SameVersionWinsOnceEver(c: Schema, states: seq<State>, actions: seq<Action>, k: Key, e: int, i: nat, j: nat)
    requires Run(c, states, actions) && Kept(c, states[0]) && i < j < |actions|
    requires Presents(actions[i], k, e) && Wins(states[i], actions[i])
    requires Presents(actions[j], k, e) && Wins(states[j], actions[j])
    ensures e == 1 && !IsLive(states[j].stamps, k) && k in states[j].dim
  {
    hide Kept, Wins, Presents, IsLive;
    RunKeeps(c, states, actions, i);
    RunKeeps(c, states, actions, j);
    assert Next(c, states[i], actions[i], states[i + 1]) && Next(c, states[j], actions[j], states[j + 1]);
    WinLeavesRow(c, states[i], actions[i], states[i + 1], k, e);
    RowGrowsOverRuns(c, states, actions, k, i + 1, j);
    WinSeesRow(c, states[j], actions[j], states[j + 1], k, e);
  }

  /** Reviving a retired key: whoever still holds a version of the earlier record,
      any version up to its tombstone's, is refused. */
  lemma RevivedKeyRefusesOldVersions(c: Schema, s: State, key: Key, name: string, s': State, e: int)
    requires PositionsDistinct(s.dim) && AddRecord(c, s, key, name) == Ok(s') && s' != s
    requires key in s.stamps && e <= s.stamps[key].version
    ensures Bumped(s', key, e) == Err(Conflict)
  {
  }

  /** A reorder is pending until the next publish, and invalidates nobody's edit: the
      version that a client must present is the same for every record. */
  lemma ReorderInvalidatesNobody(c: Schema, s: State, key: Key,
                                 before: Ordering.Anchor, after: Ordering.Anchor, s': State)
    requires PositionsDistinct(s.dim) && ClockOk(s) && ReorderRecord(c, s, key, before, after) == Ok(s') && s' != s
    ensures forall k, e | k in s.dim :: Bumped(s', k, e).Ok? <==> Bumped(s, k, e).Ok?
    ensures forall k :: VisibleVersion(s'.stamps, k) == VisibleVersion(s.stamps, k)
    ensures |s.events| > 0 ==> StampedSince(s'.stamps, key, LastPublish(s.events))
  {
    hide ReorderRecord;
    ReorderTouches(c, s, key, before, after);
    ReorderTouch(c, s, key, before, after, s');
    forall k
      ensures VisibleVersion(s'.stamps, k) == VisibleVersion(s.stamps, k)
      ensures forall e | k in s.dim :: Bumped(s', k, e).Ok? <==> Bumped(s, k, e).Ok?
    {
    }
  }

  lemma ReorderTouch(c: Schema, s: State, key: Key, before: Ordering.Anchor, after: Ordering.Anchor, s': State)
    requires PositionsDistinct(s.dim) && ReorderRecord(c, s, key, before, after) == Ok(s') && s' != s
    ensures key in s.dim && s'.dim.Keys == s.dim.Keys
    ensures s'.stamps == s.stamps[key := Touched(s.stamps, key, s.Now())]
  {
  }
}
