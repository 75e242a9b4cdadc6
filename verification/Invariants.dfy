/** What every transaction keeps about one table, whatever the order of events:
    the shape of rows, the unique index, dense version numbers, the clock, and
    the bookkeeping columns of record_version. */
module Invariants {
  import opened Prelude
  import opened Ordering
  import opened RefTable

  /** Live rows hold exactly the physical user columns; snapshot rows also hold
      the formula columns, which are never physical ones. */
  ghost predicate RowsOk(c: Schema, s: State)
  {
    && (forall k | k in s.dim :: s.dim[k].cells.Keys == c.fields)
    && (forall x, k | x in s.snaps && k in x.records :: x.records[k].cells.Keys == c.fields + c.formulas)
  }

  ghost predicate PositionsOk(c: Schema, s: State)
  {
    PositionsDistinct(s.dim) && forall x | x in s.snaps :: PositionsDistinct(x.records)
  }

  /** Versions are exactly 1..n, one snapshot and one event each. */
  ghost predicate VersionsDense(s: State)
  {
    && |s.snaps| == |s.events|
    && forall i | 0 <= i < |s.snaps| :: s.snaps[i].version == i + 1 && s.events[i].version == i + 1
  }

  /** No stamp is later than `now`. */
  ghost predicate StampedBy(stamps: map<Key, Stamp>, now: int)
  {
    forall k | k in stamps ::
      stamps[k].updatedAt <= now && (stamps[k].retiredAt.Some? ==> stamps[k].retiredAt.value <= now)
  }

  /** No stamp lies in the future, and publishes happened one after another. */
  ghost predicate ClockOk(s: State)
  {
    && StampedBy(s.stamps, s.clock)
    && (forall i | 0 <= i < |s.events| :: s.events[i].occurredAt <= s.clock)
    && (forall i, j | 0 <= i < j < |s.events| :: s.events[i].occurredAt < s.events[j].occurredAt)
  }

  /** Versions count from 1, and only tombstones name a survivor. */
  ghost predicate StampsOk(s: State)
  {
    forall k | k in s.stamps ::
      s.stamps[k].version >= 1 && (s.stamps[k].retiredAt.None? ==> s.stamps[k].retiredInto.None?)
  }

  ghost predicate Kept(c: Schema, s: State)
  {
    RowsOk(c, s) && PositionsOk(c, s) && VersionsDense(s) && ClockOk(s) && StampsOk(s)
  }

  // ------------------------------------------------------------- heads

  lemma {:induction false} DenseHead(snaps: seq<Snapshot>)
    requires |snaps| > 0 && forall i | 0 <= i < |snaps| :: snaps[i].version == i + 1
    ensures Head(snaps) == snaps[|snaps| - 1]
  {
    if |snaps| > 1 {
      DenseHead(snaps[..|snaps| - 1]);
    }
  }

  lemma {:induction false} DenseSnapshot(snaps: seq<Snapshot>, first: int, v: int)
    requires forall i | 0 <= i < |snaps| :: snaps[i].version == first + i
    ensures VersionTaken(snaps, v) <==> first <= v < first + |snaps|
    ensures VersionTaken(snaps, v) ==> SnapshotOf(snaps, v) == snaps[v - first]
  {
    if first <= v < first + |snaps| {
      assert snaps[v - first] in snaps;
    }
    if VersionTaken(snaps, v) && snaps[0].version != v {
      DenseSnapshot(snaps[1..], first + 1, v);
    }
  }

  // ------------------------------------------------------------- positions

  lemma SubtableDistinct(small: map<Key, Row>, big: map<Key, Row>)
    requires PositionsDistinct(big)
    requires forall k | k in small :: k in big && small[k].position == big[k].position
    ensures PositionsDistinct(small)
  {
    var a, b := RefTable.Positions(small), RefTable.Positions(big);
    assert forall k | k in a :: k in b && a[k] == b[k];
  }

  lemma SetPositionDistinct(dim: map<Key, Row>, k: Key, row: Row)
    requires PositionsDistinct(dim)
    requires row.position.Some? ==> !Occupied(RefTable.Positions(dim), k, row.position.value)
    ensures PositionsDistinct(dim[k := row])
  {
    var a, b := RefTable.Positions(dim), RefTable.Positions(dim[k := row]);
    assert forall j | j in b && j != k :: j in a && b[j] == a[j];
  }

  /** Where a folded key was put: below every old row, at its rank. */
  lemma FoldedSlot(c: Schema, s: State, q: Request, order: seq<Key>, after: map<Key, Row>, k: Key)
    returns (i: nat)
    requires PositionsDistinct(s.dim) && FoldedDim(c, s, q, order, after)
    requires k in after && k !in s.dim
    ensures i < |order| && order[i] == k
    ensures after[k].position == if c.manual then Some(TopPosition(s.dim) + STEP * (i + 1)) else None
  {
    assert k in NewKeys(s, q);
    assert k in order;
    i :| 0 <= i < |order| && order[i] == k;
  }

  lemma FoldPositionsDistinct(c: Schema, s: State, q: Request, order: seq<Key>, after: map<Key, Row>)
    requires PositionsDistinct(s.dim) && FoldedDim(c, s, q, order, after)
    ensures PositionsDistinct(after)
  {
    hide FoldedDim;
    forall a, b | a in after && b in after && a != b && after[a].position.Some? && after[b].position.Some?
      ensures after[a].position.value != after[b].position.value
    {
      FoldedPairDistinct(c, s, q, order, after, a, b);
    }
  }

  lemma FoldedPairDistinct(c: Schema, s: State, q: Request, order: seq<Key>, after: map<Key, Row>, a: Key, b: Key)
    requires PositionsDistinct(s.dim) && FoldedDim(c, s, q, order, after)
    requires a in after && b in after && a != b && after[a].position.Some? && after[b].position.Some?
    ensures after[a].position.value != after[b].position.value
  {
    hide FoldedDim, TopPosition, NewKeys;
    if a in s.dim {
      OldSlot(c, s, q, order, after, a);
    } else {
      var i := FoldedSlot(c, s, q, order, after, a);
    }
    if b in s.dim {
      OldSlot(c, s, q, order, after, b);
    } else {
      var j := FoldedSlot(c, s, q, order, after, b);
    }
    if a in s.dim && b in s.dim {
      assert RefTable.Positions(s.dim)[a] != RefTable.Positions(s.dim)[b];
    }
  }

  /** Where an old key stays: at or above the old bottom. */
  lemma OldSlot(c: Schema, s: State, q: Request, order: seq<Key>, after: map<Key, Row>, k: Key)
    requires PositionsDistinct(s.dim) && FoldedDim(c, s, q, order, after) && k in s.dim
    ensures k in after && after[k] == s.dim[k]
    ensures after[k].position.Some? ==> after[k].position.value <= TopPosition(s.dim)
  {
    hide TopPosition, NewKeys;
    if s.dim[k].position.Some? {
      OldSlotsBelowTop(s.dim, k);
    }
  }

  lemma OldSlotsBelowTop(dim: map<Key, Row>, k: Key)
    requires PositionsDistinct(dim) && k in dim && dim[k].position.Some?
    ensures dim[k].position.value <= TopPosition(dim)
  {
    assert k in RefTable.Positions(dim);
  }

  // ------------------------------------------------------------- effects

  /** The record a single-record action is about. */
  function KeyOf(a: Action): Option<Key>
  {
    match a
    case AAdd(key, _) => Some(key)
    case ARename(key, _, _) => Some(key)
    case AEdit(key, _, _) => Some(key)
    case AReorder(key, _, _) => Some(key)
    case ARetire(key, _) => Some(key)
    case _ => None
  }

  /** Two tables agree on every key but k. */
  ghost predicate SameExcept<V>(a: map<Key, V>, b: map<Key, V>, k: Key)
  {
    && (forall j | j in a && j != k :: j in b && b[j] == a[j])
    && (forall j | j in b && j != k :: j in a)
  }

  /** Only record k changed, and it carries this transaction's stamp. */
  ghost predicate Touches(s: State, s': State, k: Key)
  {
    && s'.mapping == s.mapping && s'.drafts == s.drafts && s'.snaps == s.snaps && s'.events == s.events
    && s'.clock == s.Now()
    && SameExcept(s.dim, s'.dim, k)
    && SameExcept(s.stamps, s'.stamps, k)
    && k in s'.stamps && s'.stamps[k].updatedAt == s.Now()
    && (s'.stamps[k].retiredAt.Some? && s'.stamps[k].retiredAt.value != s.Now() ==>
          k in s.stamps && s'.stamps[k].retiredAt == s.stamps[k].retiredAt)
  }

  lemma AddTouches(c: Schema, s: State, key: Key, name: string)
    requires PositionsDistinct(s.dim)
    ensures var s' := After(s, AddRecord(c, s, key, name)); s' == s || Touches(s, s', key)
  {
  }

  lemma RenameTouches(s: State, key: Key, name: string, expected: int)
    ensures var s' := After(s, RenameRecord(s, key, name, expected)); s' == s || Touches(s, s', key)
  {
  }

  lemma EditTouches(c: Schema, s: State, key: Key, f: Field, value: Value)
    ensures var s' := After(s, SetField(c, s, key, f, value)); s' == s || Touches(s, s', key)
  {
    var linked := LinkedValue(s.dim, f, key, value);
    var v := if f in c.selfLinks && linked.Ok? then linked.value else value;
    CellTouches(s, key, f, v);
  }

  lemma CellTouches(s: State, key: Key, f: Field, value: Value)
    ensures var s' := WithCell(s, key, f, value); s' == s || Touches(s, s', key)
  {
  }

  lemma ReorderTouches(c: Schema, s: State, key: Key, before: Anchor, after: Anchor)
    requires PositionsDistinct(s.dim)
    ensures var s' := After(s, ReorderRecord(c, s, key, before, after)); s' == s || Touches(s, s', key)
  {
  }

  lemma RetireTouches(s: State, key: Key, expected: int)
    ensures var s' := After(s, RetireRecord(s, key, expected)); s' == s || Touches(s, s', key)
  {
  }

  lemma SingleRecord(c: Schema, s: State, a: Action, s': State)
    requires PositionsDistinct(s.dim) && KeyOf(a).Some? && Step(c, s, a, s')
    ensures s' == s || Touches(s, s', KeyOf(a).value)
  {
    match a
    case AAdd(key, title) => AddTouches(c, s, key, title);
    case ARename(key, title, expected) => RenameTouches(s, key, title, expected);
    case AEdit(key, field, value) => EditTouches(c, s, key, field, value);
    case AReorder(key, before, after) => ReorderTouches(c, s, key, before, after);
    case ARetire(key, expected) => RetireTouches(s, key, expected);
  }

  /** What a single-record action may do to its own record: its row keeps to the
      physical columns and moves only to a free slot; it leaves only as a tombstone
      and while nothing maps to it; its version row never counts back, names no new
      survivor, and is live when the record is new. */
  ghost predicate OwnRecord(c: Schema, s: State, s': State, k: Key)
    requires k in s'.stamps
  {
    var st := s'.stamps[k];
    && (k in s'.dim && k !in s.dim ==> s'.dim[k].cells == BlankCells(c) && st.retiredAt.None?)
    && (k in s'.dim && k in s.dim ==>
          && s.dim[k].cells.Keys <= s'.dim[k].cells.Keys <= s.dim[k].cells.Keys + c.fields
          && (st.retiredAt.None? || (k in s.stamps && st.retiredAt == s.stamps[k].retiredAt)))
    && (k in s'.dim && s'.dim[k].position.Some? && !(k in s.dim && s'.dim[k].position == s.dim[k].position) ==>
          !Occupied(RefTable.Positions(s.dim), k, s'.dim[k].position.value))
    && (k in s.dim && k !in s'.dim ==> st.retiredAt == Some(s.Now()) && forall r | r in s.mapping :: s.mapping[r] != k)
    && (k !in s'.dim && st.retiredAt.None? ==> k !in s.dim && IsLive(s.stamps, k))
    && (if k in s.stamps then s.stamps[k].version <= st.version else 1 <= st.version)
    && (st.retiredInto.Some? ==> k in s.stamps && st.retiredInto == s.stamps[k].retiredInto)
  }

  lemma AddOwn(c: Schema, s: State, key: Key, name: string)
    requires PositionsDistinct(s.dim)
    ensures var s' := After(s, AddRecord(c, s, key, name)); s' == s || (key in s'.stamps && OwnRecord(c, s, s', key))
  {
  }

  lemma RenameOwn(c: Schema, s: State, key: Key, name: string, expected: int)
    ensures var s' := After(s, RenameRecord(s, key, name, expected));
            s' == s || (key in s'.stamps && OwnRecord(c, s, s', key))
  {
  }

  lemma CellOwn(c: Schema, s: State, key: Key, f: Field, value: Value)
    requires f in c.fields
    ensures var s' := WithCell(s, key, f, value); s' == s || (key in s'.stamps && OwnRecord(c, s, s', key))
  {
  }

  lemma EditOwn(c: Schema, s: State, key: Key, f: Field, value: Value)
    ensures var s' := After(s, SetField(c, s, key, f, value));
            s' == s || (key in s'.stamps && OwnRecord(c, s, s', key))
  {
    hide WithCell, OwnRecord;
    if f in c.fields {
      CellOwn(c, s, key, f, value);
      if f in c.selfLinks && LinkedValue(s.dim, f, key, value).Ok? {
        CellOwn(c, s, key, f, LinkedValue(s.dim, f, key, value).value);
      }
    }
  }

  lemma ReorderOwn(c: Schema, s: State, key: Key, before: Anchor, after: Anchor)
    requires PositionsDistinct(s.dim)
    ensures var s' := After(s, ReorderRecord(c, s, key, before, after));
            s' == s || (key in s'.stamps && OwnRecord(c, s, s', key))
  {
  }

  lemma RetireOwn(c: Schema, s: State, key: Key, expected: int)
    ensures var s' := After(s, RetireRecord(s, key, expected));
            s' == s || (key in s'.stamps && OwnRecord(c, s, s', key))
  {
  }

  lemma SingleOwn(c: Schema, s: State, a: Action, s': State)
    requires PositionsDistinct(s.dim) && KeyOf(a).Some? && Step(c, s, a, s')
    ensures s' == s || (KeyOf(a).value in s'.stamps && OwnRecord(c, s, s', KeyOf(a).value))
  {
    hide OwnRecord, AddRecord, RenameRecord, SetField, ReorderRecord, RetireRecord;
    match a
    case AAdd(key, title) => AddOwn(c, s, key, title);
    case ARename(key, title, expected) => RenameOwn(c, s, key, title, expected);
    case AEdit(key, field, value) => EditOwn(c, s, key, field, value);
    case AReorder(key, before, after) => ReorderOwn(c, s, key, before, after);
    case ARetire(key, expected) => RetireOwn(c, s, key, expected);
  }

  /** Steps on drafts leave the rest alone. */
  lemma DraftStep(c: Schema, s: State, a: Action, s': State)
    requires PositionsDistinct(s.dim) && (a.ASave? || a.ADiscard? || a.AReject?) && Step(c, s, a, s')
    ensures s'.dim == s.dim && s'.mapping == s.mapping && s'.stamps == s.stamps
    ensures s'.snaps == s.snaps && s'.events == s.events && (s'.clock == s.clock || s'.clock == s.Now())
  {
  }

  /** Publishing stamps no record. */
  lemma PublishStep(c: Schema, s: State, q: Request, s': State)
    requires PositionsDistinct(s.dim) && CommitStep(c, s, q, s')
    ensures s'.stamps == s.stamps
  {
  }

  /** Only publishing writes history. */
  lemma HistoryUnchanged(c: Schema, s: State, a: Action, s': State)
    requires PositionsDistinct(s.dim) && !a.APublish? && Step(c, s, a, s')
    ensures s'.snaps == s.snaps && s'.events == s.events
  {
    if KeyOf(a).Some? {
      SingleRecord(c, s, a, s');
    } else {
      match a
      case AMerge(survivor, losers, versions) => MergeHistory(s, survivor, losers, versions);
      case ARestore(v) => RestoreHistory(c, s, v);
      case ARevert => RevertHistory(c, s);
      case _ => DraftStep(c, s, a, s');
    }
  }

  lemma MergeHistory(s: State, survivor: Key, losers: seq<Key>, versions: map<Key, int>)
    ensures var s' := After(s, MergeRecords(s, survivor, losers, versions));
            s'.snaps == s.snaps && s'.events == s.events
  {
  }

  lemma RestoreHistory(c: Schema, s: State, v: int)
    ensures var s' := After(s, Restore(c, s, v)); s'.snaps == s.snaps && s'.events == s.events
  {
  }

  lemma RevertHistory(c: Schema, s: State)
    ensures var s' := After(s, Revert(c, s)); s'.snaps == s.snaps && s'.events == s.events
  {
  }

  // ------------------------------------------------------------- rows

  lemma SingleRecordRows(c: Schema, s: State, a: Action, s': State)
    requires Kept(c, s) && KeyOf(a).Some? && Step(c, s, a, s')
    ensures RowsOk(c, s')
  {
    hide Step;
    SingleRecord(c, s, a, s');
    SingleOwn(c, s, a, s');
    var k := KeyOf(a).value;
    assert k in s'.dim ==> s'.dim[k].cells.Keys == c.fields;
  }

  lemma FoldedRows(c: Schema, s: State, q: Request, order: seq<Key>, after: map<Key, Row>)
    requires PositionsDistinct(s.dim) && FoldedDim(c, s, q, order, after)
    requires forall k | k in s.dim :: s.dim[k].cells.Keys == c.fields
    ensures forall k | k in after :: after[k].cells.Keys == c.fields
  {
    forall k | k in after && k !in s.dim
      ensures after[k].cells.Keys == c.fields
    {
      assert k in NewKeys(s, q);
    }
  }

  lemma SnapshotRows(c: Schema, q: Request, v: int, dim: map<Key, Row>, mapping: map<Raw, Key>)
    requires forall k | k in dim :: dim[k].cells.Keys == c.fields
    ensures forall k | k in TakeSnapshot(c, q, v, dim, mapping).records ::
              TakeSnapshot(c, q, v, dim, mapping).records[k].cells.Keys == c.fields + c.formulas
  {
  }

  lemma CommitRows(c: Schema, s: State, q: Request, s': State)
    requires Kept(c, s) && Committed(c, s, q, s')
    ensures RowsOk(c, s')
  {
    var order :| FoldedDim(c, s, q, order, s'.dim);
    FoldedRows(c, s, q, order, s'.dim);
    SnapshotRows(c, q, NextVersion(s), s'.dim, s'.mapping);
    assert forall x | x in s'.snaps :: x in s.snaps || x == s'.snaps[|s.snaps|];
  }

  lemma RestoreRows(c: Schema, s: State, v: int)
    requires RowsOk(c, s)
    ensures RowsOk(c, After(s, Restore(c, s, v)))
  {
  }

  lemma RevertRows(c: Schema, s: State)
    requires RowsOk(c, s)
    ensures RowsOk(c, After(s, Revert(c, s)))
  {
    hide ChangedKeys, RevertedStamps;
  }

  lemma MergeRows(c: Schema, s: State, survivor: Key, losers: seq<Key>, versions: map<Key, int>)
    requires RowsOk(c, s)
    ensures RowsOk(c, After(s, MergeRecords(s, survivor, losers, versions)))
  {
  }

  lemma StepKeepsRows(c: Schema, s: State, a: Action, s': State)
    requires Kept(c, s) && Step(c, s, a, s')
    ensures RowsOk(c, s')
  {
    hide RowsOk, Restore, Revert, MergeRecords, Committed;
    if KeyOf(a).Some? {
      SingleRecordRows(c, s, a, s');
    } else {
      match a
      case APublish(q) => if s' != s { CommitRows(c, s, q, s'); }
      case AMerge(survivor, losers, versions) => MergeRows(c, s, survivor, losers, versions);
      case ARestore(v) => RestoreRows(c, s, v);
      case ARevert => RevertRows(c, s);
      case _ => DraftStepRows(c, s, a, s');
    }
  }

  lemma DraftStepRows(c: Schema, s: State, a: Action, s': State)
    requires Kept(c, s) && (a.ASave? || a.ADiscard? || a.AReject?) && Step(c, s, a, s')
    ensures RowsOk(c, s')
  {
    hide Step;
    DraftStep(c, s, a, s');
  }

  // ------------------------------------------------------------- positions

  lemma SingleRecordPositions(c: Schema, s: State, a: Action, s': State)
    requires Kept(c, s) && KeyOf(a).Some? && Step(c, s, a, s')
    ensures PositionsDistinct(s'.dim)
  {
    hide Step;
    SingleRecord(c, s, a, s');
    SingleOwn(c, s, a, s');
    if s' != s {
      OwnPositions(c, s, s', KeyOf(a).value);
    }
  }

  lemma OwnPositions(c: Schema, s: State, s': State, k: Key)
    requires PositionsDistinct(s.dim) && SameExcept(s.dim, s'.dim, k) && k in s'.stamps && OwnRecord(c, s, s', k)
    ensures PositionsDistinct(s'.dim)
  {
    hide PositionsDistinct;
    if k in s'.dim && !(k in s.dim && s.dim[k].position == s'.dim[k].position) {
      SetPositionDistinct(s.dim, k, s'.dim[k]);
      assert s'.dim == s.dim[k := s'.dim[k]];
    } else {
      SubtableDistinct(s'.dim, s.dim);
    }
  }

  lemma SnapshotPositions(c: Schema, q: Request, v: int, dim: map<Key, Row>, mapping: map<Raw, Key>)
    requires PositionsDistinct(dim)
    ensures PositionsDistinct(TakeSnapshot(c, q, v, dim, mapping).records)
  {
    SubtableDistinct(TakeSnapshot(c, q, v, dim, mapping).records, dim);
  }

  lemma CommitPositions(c: Schema, s: State, q: Request, s': State)
    requires PositionsOk(c, s) && Committed(c, s, q, s')
    ensures PositionsOk(c, s')
  {
    var order :| FoldedDim(c, s, q, order, s'.dim);
    FoldPositionsDistinct(c, s, q, order, s'.dim);
    SnapshotPositions(c, q, NextVersion(s), s'.dim, s'.mapping);
    assert forall x | x in s'.snaps :: x in s.snaps || x == s'.snaps[|s.snaps|];
  }

  lemma StepKeepsPositions(c: Schema, s: State, a: Action, s': State)
    requires Kept(c, s) && Step(c, s, a, s')
    ensures PositionsOk(c, s')
  {
    hide Restore, Revert, MergeRecords, Committed, PositionsDistinct;
    if a.APublish? {
      if s' != s {
        CommitPositions(c, s, a.request, s');
      }
    } else {
      HistoryUnchanged(c, s, a, s');
      if KeyOf(a).Some? {
        SingleRecordPositions(c, s, a, s');
      } else {
        match a
        case AMerge(survivor, losers, versions) => MergePositions(s, survivor, losers, versions);
        case ARestore(v) => RestorePositions(c, s, v);
        case ARevert => RevertPositions(c, s);
        case _ => DraftStep(c, s, a, s');
      }
    }
  }

  lemma MergePositions(s: State, survivor: Key, losers: seq<Key>, versions: map<Key, int>)
    requires PositionsDistinct(s.dim)
    ensures PositionsDistinct(After(s, MergeRecords(s, survivor, losers, versions)).dim)
  {
    hide PositionsDistinct;
    SubtableDistinct(After(s, MergeRecords(s, survivor, losers, versions)).dim, s.dim);
  }

  lemma RestorePositions(c: Schema, s: State, v: int)
    requires PositionsDistinct(s.dim)
    ensures PositionsDistinct(After(s, Restore(c, s, v)).dim)
  {
    hide PositionsDistinct, CanonAll, RestoredStamps;
  }

  lemma RevertPositions(c: Schema, s: State)
    requires PositionsDistinct(s.dim)
    ensures PositionsDistinct(After(s, Revert(c, s)).dim)
  {
    hide PositionsDistinct, ChangedKeys, RevertedDim, RevertedStamps;
  }

  // ------------------------------------------------------------- the rest

  lemma CommitVersions(c: Schema, s: State, q: Request, s': State)
    requires PositionsDistinct(s.dim) && VersionsDense(s) && Committed(c, s, q, s')
    ensures VersionsDense(s')
  {
  }

  lemma StepKeepsVersions(c: Schema, s: State, a: Action, s': State)
    requires Kept(c, s) && Step(c, s, a, s')
    ensures VersionsDense(s')
  {
    if !a.APublish? {
      HistoryUnchanged(c, s, a, s');
    } else if s' != s {
      CommitVersions(c, s, a.request, s');
    }
  }

  lemma MergeClock(s: State, survivor: Key, losers: seq<Key>, versions: map<Key, int>)
    requires ClockOk(s)
    ensures ClockOk(After(s, MergeRecords(s, survivor, losers, versions)))
  {
  }

  lemma RestoreClock(c: Schema, s: State, v: int)
    requires ClockOk(s)
    ensures ClockOk(After(s, Restore(c, s, v)))
  {
    if HasVersion(s, v) {
      assert StampedBy(RestoredStamps(s.stamps, SnapshotOf(s.snaps, v).records.Keys, s.Now()), s.Now());
    }
  }

  lemma RevertClock(c: Schema, s: State)
    requires ClockOk(s)
    ensures ClockOk(After(s, Revert(c, s)))
  {
  }

  lemma CommitClock(c: Schema, s: State, q: Request, s': State)
    requires PositionsDistinct(s.dim) && ClockOk(s) && Committed(c, s, q, s')
    ensures ClockOk(s')
  {
  }

  lemma SingleRecordClock(c: Schema, s: State, a: Action, s': State)
    requires Kept(c, s) && KeyOf(a).Some? && Step(c, s, a, s')
    ensures ClockOk(s')
  {
    hide Step;
    SingleRecord(c, s, a, s');
  }

  lemma DraftStepClock(c: Schema, s: State, a: Action, s': State)
    requires Kept(c, s) && (a.ASave? || a.ADiscard? || a.AReject?) && Step(c, s, a, s')
    ensures ClockOk(s')
  {
    hide Step;
    DraftStep(c, s, a, s');
  }

  lemma StepKeepsClock(c: Schema, s: State, a: Action, s': State)
    requires Kept(c, s) && Step(c, s, a, s')
    ensures ClockOk(s')
  {
    hide ClockOk, Restore, Revert, MergeRecords, Committed;
    if KeyOf(a).Some? {
      SingleRecordClock(c, s, a, s');
    } else {
      match a
      case AMerge(survivor, losers, versions) => MergeClock(s, survivor, losers, versions);
      case ARestore(v) => RestoreClock(c, s, v);
      case ARevert => RevertClock(c, s);
      case APublish(q) => if s' != s { CommitClock(c, s, q, s'); }
      case _ => DraftStepClock(c, s, a, s');
    }
  }

  lemma SingleRecordStampsOk(c: Schema, s: State, a: Action, s': State)
    requires PositionsDistinct(s.dim) && StampsOk(s) && KeyOf(a).Some? && Step(c, s, a, s')
    ensures StampsOk(s')
  {
    match a
    case AAdd(_, _) =>
    case ARename(key, title, expected) => RenameStampsOk(s, key, title, expected);
    case AEdit(key, field, value) => EditStampsOk(c, s, key, field, value);
    case AReorder(key, before, after) => ReorderStampsOk(c, s, key, before, after);
    case ARetire(key, expected) => RetireStampsOk(s, key, expected);
  }

  lemma RenameStampsOk(s: State, key: Key, name: string, expected: int)
    requires StampsOk(s)
    ensures StampsOk(After(s, RenameRecord(s, key, name, expected)))
  {
  }

  lemma EditStampsOk(c: Schema, s: State, key: Key, f: Field, value: Value)
    requires StampsOk(s)
    ensures StampsOk(After(s, SetField(c, s, key, f, value)))
  {
    assert forall v :: StampsOk(WithCell(s, key, f, v));
  }

  lemma ReorderStampsOk(c: Schema, s: State, key: Key, before: Anchor, after: Anchor)
    requires PositionsDistinct(s.dim) && StampsOk(s)
    ensures StampsOk(After(s, ReorderRecord(c, s, key, before, after)))
  {
  }

  lemma RetireStampsOk(s: State, key: Key, expected: int)
    requires StampsOk(s)
    ensures StampsOk(After(s, RetireRecord(s, key, expected)))
  {
  }

  lemma MergeStampsOk(s: State, survivor: Key, losers: seq<Key>, versions: map<Key, int>)
    requires StampsOk(s)
    ensures StampsOk(After(s, MergeRecords(s, survivor, losers, versions)))
  {
  }

  lemma RestoreStampsOk(c: Schema, s: State, v: int)
    requires StampsOk(s)
    ensures StampsOk(After(s, Restore(c, s, v)))
  {
  }

  lemma RevertStampsOk(c: Schema, s: State)
    requires StampsOk(s)
    ensures StampsOk(After(s, Revert(c, s)))
  {
  }

  lemma StepKeepsStamps(c: Schema, s: State, a: Action, s': State)
    requires Kept(c, s) && Step(c, s, a, s')
    ensures StampsOk(s')
  {
    hide Restore, Revert, MergeRecords, CommitStep;
    if KeyOf(a).Some? {
      SingleRecordStampsOk(c, s, a, s');
    } else {
      match a
      case AMerge(survivor, losers, versions) => MergeStampsOk(s, survivor, losers, versions);
      case ARestore(v) => RestoreStampsOk(c, s, v);
      case ARevert => RevertStampsOk(c, s);
      case APublish(q) => PublishStep(c, s, q, s');
      case _ => DraftStep(c, s, a, s');
    }
  }

  lemma StepKeeps(c: Schema, s: State, a: Action, s': State)
    requires Kept(c, s) && Step(c, s, a, s')
    ensures Kept(c, s')
  {
    StepKeepsRows(c, s, a, s');
    StepKeepsPositions(c, s, a, s');
    StepKeepsVersions(c, s, a, s');
    StepKeepsClock(c, s, a, s');
    StepKeepsStamps(c, s, a, s');
  }
}
