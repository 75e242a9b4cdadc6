/** What each edit of one record does to the tables, column by column: which records,
    cells, positions and version rows differ afterwards, and when it is refused. */
module RecordEdits {
  import opened Prelude
  import opened Ordering
  import opened RefTable
  import opened Invariants
  import ManualTableModel
  import Hierarchy
  import Links

  /** Nothing but records and version rows is edited, one transaction later. */
  ghost predicate EditsRecords(s: State, s': State)
  {
    && s'.mapping == s.mapping && s'.drafts == s.drafts && s'.snaps == s.snaps && s'.events == s.events
    && s'.clock == s.clock + 1
  }

  /** All records but one are as before. */
  ghost predicate OthersStay(s: State, s': State, key: Key)
  {
    && (forall k | k != key :: (k in s'.dim <==> k in s.dim) && (k in s.dim ==> s'.dim[k] == s.dim[k]))
    && (forall k | k != key :: (k in s'.stamps <==> k in s.stamps) && (k in s.stamps ==> s'.stamps[k] == s.stamps[k]))
  }

  // ------------------------------------------------------------- add

  /** A new record has its label and no values, and in a manually ordered table it is
      placed 1024 below the last one, or at 1024; it starts at version 1, or one beyond
      the tombstone of its key, whose retire columns are cleared. */
  lemma AddMeans(c: Schema, s: State, key: Key, name: string, s': State)
    requires PositionsDistinct(s.dim) && key != "" && AddRecord(c, s, key, name) == Ok(s')
    ensures key !in s.dim && key in s'.dim && EditsRecords(s, s') && OthersStay(s, s', key)
    ensures s'.dim[key].name == Some(name) && s'.dim[key].cells.Keys == c.fields
    ensures forall f | f in c.fields :: s'.dim[key].cells[f] == Null
    ensures !c.manual ==> s'.dim[key].position == None
    ensures c.manual ==> s'.dim[key].position.Some? && IsBottom(s.dim, s'.dim[key].position.value)
    ensures key in s'.stamps
    ensures s'.stamps[key] == Stamp(if key in s.stamps then s.stamps[key].version + 1 else 1, s.clock + 1, None, None)
  {
    if c.manual {
      BottomSlot(s.dim);
    }
  }

  /** p is 1024 beyond the last position in use, or beyond 0 when there is none. */
  ghost predicate IsBottom(dim: map<Key, Row>, p: int)
  {
    && (forall k | k in dim && dim[k].position.Some? :: dim[k].position.value <= p - 1024)
    && ((forall k | k in dim :: dim[k].position.None?) ==> p == 1024)
    && ((exists k | k in dim :: dim[k].position.Some?) ==> exists k | k in dim :: dim[k].position == Some(p - 1024))
  }

  lemma BottomSlot(dim: map<Key, Row>)
    requires PositionsDistinct(dim)
    ensures IsBottom(dim, NextPosition(RefTable.Positions(dim)))
  {
    var pos := RefTable.Positions(dim);
    var p := NextPosition(pos);
    assert forall k | k in dim :: k in pos && pos[k] == dim[k].position;
    if k :| k in dim && dim[k].position.Some? {
      assert k in Placed(pos, pos.Keys);
      var top :| top in Placed(pos, pos.Keys) && pos[top] == Highest(pos, pos.Keys);
      assert top in dim && dim[top].position == Some(p - 1024);
    } else {
      assert Placed(pos, pos.Keys) == {};
    }
  }

  /** So the list of the table gets the new record at its end. */
  lemma AddAppends(c: Schema, s: State, key: Key, name: string, s': State, order: seq<Key>)
    requires PositionsDistinct(s.dim) && key != "" && AddRecord(c, s, key, name) == Ok(s') && c.manual
    requires Lists(RefTable.Positions(s.dim), order)
    ensures Lists(RefTable.Positions(s'.dim), order + [key])
  {
    hide InsertedAt;
    var pos, p := RefTable.Positions(s.dim), NextPosition(RefTable.Positions(s.dim));
    AddedPositions(c, s, key, name, s');
    InsertAtIndex(pos, order, key, p, |order|);
    assert InsertedAt(order, key, |order|) == order + [key];
  }

  lemma AddedPositions(c: Schema, s: State, key: Key, name: string, s': State)
    requires PositionsDistinct(s.dim) && key != "" && AddRecord(c, s, key, name) == Ok(s') && c.manual
    ensures var pos := RefTable.Positions(s.dim);
            pos - {key} == pos && RefTable.Positions(s'.dim) == pos[key := Some(NextPosition(pos))]
  {
    hide PositionsDistinct;
  }

  /** Only a key in use is refused; an empty key is passed over. */
  lemma AddRefusedIff(c: Schema, s: State, key: Key, name: string)
    requires PositionsDistinct(s.dim)
    ensures key == "" ==> AddRecord(c, s, key, name) == Ok(s)
    ensures key != "" ==> (AddRecord(c, s, key, name) == Err(AlreadyExists) <==> key in s.dim)
    ensures AddRecord(c, s, key, name).Err? ==> AddRecord(c, s, key, name) == Err(AlreadyExists)
  {
  }

  // ------------------------------------------------------------- rename, retire

  /** The presented version is the one a client sees: the live version row's, or 1 for
      a record without one. */
  ghost predicate SeesVersion(s: State, key: Key, expected: int)
  {
    if key in s.stamps && s.stamps[key].retiredAt.None? then s.stamps[key].version == expected
    else key in s.dim && expected == 1
  }

  /** The version row one version on: live rows keep their columns, a tombstone is
      revived past its version, and a missing row starts at 2. */
  ghost predicate IsBumped(s: State, key: Key, st: Stamp)
  {
    && st.updatedAt == s.clock + 1
    && st.version == (if key in s.stamps then s.stamps[key].version + 1 else 2)
    && st.retiredAt == None
    && st.retiredInto == (if key in s.stamps && s.stamps[key].retiredAt.None? then s.stamps[key].retiredInto else None)
  }

  /** A rename takes effect exactly when the version presented is current; a stale one
      conflicts, and a key without a live row or a record is not found. */
  lemma RenameMeans(s: State, key: Key, name: string, expected: int)
    ensures var r := RenameRecord(s, key, name, expected);
            && (r.Ok? <==> SeesVersion(s, key, expected))
            && (r.Err? ==> r.error == if key in s.stamps && s.stamps[key].retiredAt.None? then Conflict else NotFound)
            && (r.Ok? ==>
                  && EditsRecords(s, r.value) && OthersStay(s, r.value, key)
                  && key in r.value.stamps && IsBumped(s, key, r.value.stamps[key])
                  && (key in r.value.dim <==> key in s.dim)
                  && (key in s.dim ==> r.value.dim[key] == s.dim[key].(name := Some(name))))
  {
  }

  /** A retirement is refused while something maps to the key, or as a rename is; else
      the record goes and its version row becomes a tombstone of this moment. */
  lemma RetireMeans(s: State, key: Key, expected: int)
    ensures var r := RetireRecord(s, key, expected);
            && (r == Err(StillMapped) <==> exists m | m in s.mapping :: s.mapping[m] == key)
            && (r.Ok? <==> SeesVersion(s, key, expected) && forall m | m in s.mapping :: s.mapping[m] != key)
            && (r.Err? && r.error != StillMapped ==>
                  r.error == if key in s.stamps && s.stamps[key].retiredAt.None? then Conflict else NotFound)
            && (r.Ok? ==>
                  && EditsRecords(s, r.value) && OthersStay(s, r.value, key) && key !in r.value.dim
                  && key in r.value.stamps
                  && r.value.stamps[key].retiredAt == Some(s.clock + 1) && r.value.stamps[key].retiredInto == None
                  && IsBumped(s, key, r.value.stamps[key].(retiredAt := None,
                       retiredInto := if key in s.stamps && s.stamps[key].retiredAt.None? then s.stamps[key].retiredInto
                                      else None)))
  {
  }

  // ------------------------------------------------------------- edit a cell

  /** Exactly one cell of one record is set to v, and the record is stamped. */
  ghost predicate SetsCell(s: State, s': State, key: Key, f: Field, v: Value)
  {
    && EditsRecords(s, s') && OthersStay(s, s', key)
    && key in s.dim && key in s'.dim && key in s'.stamps
    && s'.dim[key].name == s.dim[key].name && s'.dim[key].position == s.dim[key].position
    && s'.dim[key].cells.Keys == s.dim[key].cells.Keys + {f} && s'.dim[key].cells[f] == v
    && (forall g | g in s.dim[key].cells && g != f :: s'.dim[key].cells[g] == s.dim[key].cells[g])
    && s'.stamps[key] == if key in s.stamps
                         then s.stamps[key].(version := s.stamps[key].version + 1, updatedAt := s.clock + 1)
                         else Stamp(1, s.clock + 1, None, None)
  }

  /** A cell edit that goes through stores the value given, but null for a parent that
      does not exist; an edit of an unknown record or column does nothing. */
  lemma EditMeans(c: Schema, s: State, key: Key, f: Field, value: Value, s': State)
    requires SetField(c, s, key, f, value) == Ok(s')
    ensures f !in c.fields || key !in s.dim ==> s' == s
    ensures f in c.fields && key in s.dim ==>
              SetsCell(s, s', key, f, if f in c.selfLinks && value.Val? && value.text !in s.dim then Null else value)
  {
    hide SetsCell, WithCell;
    if f in c.fields {
      CellMeans(s, key, f, if f in c.selfLinks && value.Val? && value.text !in s.dim then Null else value);
    }
  }

  lemma CellMeans(s: State, key: Key, f: Field, v: Value)
    ensures key !in s.dim ==> WithCell(s, key, f, v) == s
    ensures key in s.dim ==> SetsCell(s, WithCell(s, key, f, v), key, f, v)
  {
  }

  /** So a parent that exists and closes no loop is stored: one link is added to, or
      changed in, that column of the table, and no other. */
  lemma ParentStored(c: Schema, s: State, key: Key, f: Field, parent: Key, s': State, g: Field)
    requires c.WellFormed() && f in c.selfLinks && key in s.dim && parent in s.dim
    requires SetField(c, s, key, f, Val(parent)) == Ok(s')
    ensures s'.dim[key].cells[f] == Val(parent)
    ensures Parents(s'.dim, g) == if g == f then Parents(s.dim, f)[key := parent] else Parents(s.dim, g)
  {
    hide SetField;
    EditMeans(c, s, key, f, Val(parent), s');
    SetParents(s, s', key, f, parent, g);
  }

  lemma SetParents(s: State, s': State, key: Key, f: Field, parent: Key, g: Field)
    requires SetsCell(s, s', key, f, Val(parent))
    ensures Parents(s'.dim, g) == if g == f then Parents(s.dim, f)[key := parent] else Parents(s.dim, g)
  {
    hide EditsRecords, Parents;
    var row := s'.dim[key];
    assert s'.dim == s.dim[key := row];
    Hierarchy.RowParents(s.dim, key, row, g);
    if g != f {
      SameParents(s.dim, key, row, g);
    }
  }

  lemma SameParents(dim: map<Key, Row>, key: Key, row: Row, g: Field)
    requires key in dim && (g in row.cells <==> g in dim[key].cells)
    requires g in row.cells ==> row.cells[g] == dim[key].cells[g]
    ensures Parents(dim[key := row], g) == Parents(dim, g)
  {
  }

  // ------------------------------------------------------------- reorder

  /** A reorder that goes through is the list move asked for, and changes the position of
      that row and no other column of any record; its version row is stamped, its version
      stays. */
  lemma ReorderMeans(c: Schema, s: State, key: Key, before: Anchor, after: Anchor, s': State, order: seq<Key>)
    returns (m: Move)
    requires PositionsDistinct(s.dim) && ReorderRecord(c, s, key, before, after) == Ok(s')
    requires Lists(RefTable.Positions(s.dim), order)
    ensures c.manual && Reorder(RefTable.Positions(s.dim), key, before, after) == Ok(m)
    ensures ManualTableModel.MovedInList(RefTable.Positions(s.dim), order, key, before, after, m,
                                         RefTable.Positions(s'.dim))
    ensures m.Stay? ==> s' == s && key in s.dim && s.dim[key].position == Some(m.at)
    ensures m.MoveTo? ==>
              && EditsRecords(s, s') && OthersStay(s, s', key)
              && key in s.dim && key in s'.dim && s'.dim[key] == s.dim[key].(position := Some(m.at))
              && key in s'.stamps
              && s'.stamps[key] == if key in s.stamps then s.stamps[key].(updatedAt := s.clock + 1)
                                   else Stamp(1, s.clock + 1, None, None)
  {
    hide Reorder, Lists, ManualTableModel.MovedInList;
    var pos := RefTable.Positions(s.dim);
    m := Reorder(pos, key, before, after).value;
    ReorderedRow(c, s, key, before, after, s', m);
    ReorderedPositions(c, s, key, before, after, s', m);
    ManualTableModel.ListMove(pos, order, key, before, after, m, RefTable.Positions(s'.dim));
  }

  lemma ReorderedRow(c: Schema, s: State, key: Key, before: Anchor, after: Anchor, s': State, m: Move)
    requires PositionsDistinct(s.dim) && ReorderRecord(c, s, key, before, after) == Ok(s')
    requires Reorder(RefTable.Positions(s.dim), key, before, after) == Ok(m)
    ensures key in s.dim
    ensures m.Stay? ==> s' == s && s.dim[key].position == Some(m.at)
    ensures m.MoveTo? ==>
              && EditsRecords(s, s') && OthersStay(s, s', key)
              && key in s'.dim && s'.dim[key] == s.dim[key].(position := Some(m.at))
              && key in s'.stamps
              && s'.stamps[key] == if key in s.stamps then s.stamps[key].(updatedAt := s.clock + 1)
                                   else Stamp(1, s.clock + 1, None, None)
  {
  }

  lemma ReorderedPositions(c: Schema, s: State, key: Key, before: Anchor, after: Anchor, s': State, m: Move)
    requires PositionsDistinct(s.dim) && ReorderRecord(c, s, key, before, after) == Ok(s')
    requires Reorder(RefTable.Positions(s.dim), key, before, after) == Ok(m)
    ensures key in s.dim
    ensures RefTable.Positions(s'.dim)
            == if m.MoveTo? then RefTable.Positions(s.dim)[key := Some(m.at)] else RefTable.Positions(s.dim)
  {
  }

  /** A refusal changes nothing and is the reason that the order gives, or that the table
      has no manual order. */
  lemma ReorderRefusedIff(c: Schema, s: State, key: Key, before: Anchor, after: Anchor)
    requires PositionsDistinct(s.dim)
    ensures ReorderRecord(c, s, key, before, after).Ok? <==>
            c.manual && Reorder(RefTable.Positions(s.dim), key, before, after).Ok?
    ensures !c.manual ==> ReorderRecord(c, s, key, before, after) == Err(Conflict)
    ensures c.manual && Reorder(RefTable.Positions(s.dim), key, before, after).Err? ==>
              ReorderRecord(c, s, key, before, after)
              == Err(Reorder(RefTable.Positions(s.dim), key, before, after).error)
  {
  }

  // ------------------------------------------------------------- revert, restore

  /** A stored row put back: label and position as stored, and the physical columns, null
      where the stored row has none. */
  ghost predicate PutBack(c: Schema, stored: Row, row: Row)
  {
    && row.name == stored.name && row.position == stored.position && row.cells.Keys == c.fields
    && forall f | f in c.fields :: row.cells[f] == if f in stored.cells then stored.cells[f] else Null
  }

  /** A revert that has something to do puts each changed record back as published, or
      takes it away if it was not, and stamps it with a new version, live again if it is
      back; every other record and version row stays, and so do mappings and drafts. */
  lemma RevertMeans(c: Schema, s: State, s': State, k: Key)
    requires Revert(c, s) == Ok(s') && ChangedKeys(c, s) != {}
    ensures s'.mapping == s.mapping && s'.drafts == s.drafts && s'.snaps == s.snaps && s'.events == s.events
    ensures k in ChangedKeys(c, s) ==>
              && (k in s'.dim <==> k in HeadRecords(s))
              && (k in s'.dim ==> PutBack(c, HeadRecords(s)[k], s'.dim[k]))
    ensures k !in ChangedKeys(c, s) ==> (k in s'.dim <==> k in s.dim) && (k in s.dim ==> s'.dim[k] == s.dim[k])
    ensures k in s'.stamps <==> k in s.stamps
    ensures k in s.stamps && k !in ChangedKeys(c, s) ==> s'.stamps[k] == s.stamps[k]
    ensures k in s.stamps && k in ChangedKeys(c, s) ==>
              && s'.stamps[k].version == s.stamps[k].version + 1 && s'.stamps[k].updatedAt == s.clock + 1
              && s'.stamps[k].retiredAt == (if k in s'.dim then None else s.stamps[k].retiredAt)
              && s'.stamps[k].retiredInto == (if k in s'.dim then None else s.stamps[k].retiredInto)
  {
    hide ChangedKeys, HeadRecords, PositionsDistinct;
  }

  /** A restore puts every record of the version back and no other, with its mappings; each
      of these records is live at a new version, and every other live row is retired. */
  lemma RestoreMeans(c: Schema, s: State, v: int, s': State, x: Snapshot, k: Key)
    requires Restore(c, s, v) == Ok(s')
    requires x in s.snaps && x.version == v && forall y | y in s.snaps && y.version == v :: y == x
    ensures s'.mapping == x.mappings && s'.drafts == s.drafts && s'.snaps == s.snaps && s'.events == s.events
    ensures (k in s'.dim <==> k in x.records) && (k in s'.dim ==> PutBack(c, x.records[k], s'.dim[k]))
    ensures k in s'.stamps <==> k in s.stamps || k in x.records
    ensures k in x.records ==>
              s'.stamps[k] == Stamp(if k in s.stamps then s.stamps[k].version + 1 else 1, s.clock + 1, None, None)
    ensures k in s.stamps && k !in x.records ==>
              s'.stamps[k] == (if s.stamps[k].retiredAt == None
                               then s.stamps[k].(retiredAt := Some(s.clock + 1), retiredInto := None)
                               else s.stamps[k])
  {
    hide PositionsDistinct;
    assert SnapshotOf(s.snaps, v) == x;
  }
}
