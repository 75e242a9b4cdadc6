/** One reference table in place: each transaction as the statements it runs, one
    after another, on the six tables, proved against the specification functions.
    A refused transaction puts everything back. */
module Store {
  import opened Prelude
  import opened Ordering
  import opened RefTable
  import opened Invariants
  import opened Runs
  import Links
  import CommitFold
  import ExactDiff
  import Hierarchy
  import Rollback

  class Table {
    const c: Schema
    var dim: map<Key, Row>
    var mapping: map<Raw, Key>
    var drafts: map<DraftId, Draft>
    var stamps: map<Key, Stamp>
    var snaps: seq<Snapshot>
    var events: seq<Event>
    var clock: int

    /** What every method keeps: each call is one transaction of a run. */
    ghost predicate Valid()
      reads this
    {
      IsValid(c, Value())
    }

    constructor (c: Schema)
      requires c.WellFormed()
      ensures this.c == c && Value() == EMPTY && Valid()
    {
      this.c := c;
      dim, mapping, drafts, stamps, snaps, events, clock := map[], map[], map[], map[], [], [], 0;
      new;
      EmptyIsValid(c);
    }

    function Value(): State
      reads this
    {
      State(dim, mapping, drafts, stamps, snaps, events, clock)
    }

    function Now(): int
      reads this
    {
      clock + 1
    }

    /** End of a transaction that goes through. */
    method EndTransaction()
      modifies this`clock
      ensures clock == old(clock) + 1
    {
      clock := clock + 1;
    }

    /** A thrown error or a violated constraint undoes the whole transaction. */
    method Abort(begin: State)
      modifies this
      ensures Value() == begin
    {
      dim, mapping, drafts, stamps := begin.dim, begin.mapping, begin.drafts, begin.stamps;
      snaps, events, clock := begin.snaps, begin.events, begin.clock;
    }

    // ----------------------------------------------------------- version rows

    /** The guarded UPDATE, and when it matches nothing the lazy seed. */
    method BumpVersionOrThrow(key: Key, expected: int) returns (r: Result<int, Error>)
      modifies this`stamps
      ensures match Bumped(old(Value()), key, expected)
              case Ok(after) => stamps == after && key in after && r == Ok(after[key].version)
              case Err(e) => stamps == old(stamps) && r == Err(e)
    {
      if IsLive(stamps, key) && stamps[key].version == expected {
        stamps := stamps[key := stamps[key].(version := stamps[key].version + 1, updatedAt := Now())];
        return Ok(stamps[key].version);
      }
      if IsLive(stamps, key) {
        return Err(Conflict);
      }
      if key in dim && expected == 1 {
        if key in stamps {
          stamps := stamps[key := Stamp(stamps[key].version + 1, Now(), None, None)];
        } else {
          stamps := stamps[key := Stamp(2, Now(), None, None)];
        }
        return Ok(stamps[key].version);
      }
      return Err(NotFound);
    }

    /** INSERT ... ON CONFLICT: a new record, or one back from the dead. */
    method SeedVersionRow(key: Key)
      modifies this`stamps
      ensures stamps == old(stamps)[key := Seeded(old(stamps), key, Now())]
    {
      if key in stamps {
        stamps := stamps[key := Stamp(stamps[key].version + 1, Now(), None, None)];
      } else {
        stamps := stamps[key := Stamp(1, Now(), None, None)];
      }
    }

    method TouchVersionRow(key: Key)
      modifies this`stamps
      ensures stamps == old(stamps)[key := Touched(old(stamps), key, Now())]
    {
      if key in stamps {
        stamps := stamps[key := stamps[key].(updatedAt := Now())];
      } else {
        stamps := stamps[key := Stamp(1, Now(), None, None)];
      }
    }

    // ----------------------------------------------------------- drafts

    method SaveDraft(raw: Raw, status: Status, target: Option<Key>, name: Option<string>, user: User)
      requires Valid()
      modifies this
      ensures Value() == RefTable.SaveDraft(old(Value()), raw, status, target, name, user)
      ensures Next(c, old(Value()), ASave(raw, status, target, name, user), Value()) && Valid()
    {
      hide IsLawful, PositionsDistinct;
      ghost var start := Value();
      drafts := drafts[(raw, user) := Draft(status, target, name, Now(), None)];
      EndTransaction();
      Stepped(c, start, ASave(raw, status, target, name, user), Value());
    }

    method DiscardDraft(raw: Raw, user: User)
      requires Valid()
      modifies this
      ensures Value() == RefTable.DiscardDraft(old(Value()), raw, user)
      ensures Next(c, old(Value()), ADiscard(raw, user), Value()) && Valid()
    {
      hide IsLawful, PositionsDistinct;
      ghost var start := Value();
      if (raw, user) in drafts {
        drafts := drafts - {(raw, user)};
        EndTransaction();
        Stepped(c, start, ADiscard(raw, user), Value());
      }
    }

    method RejectDrafts(sel: seq<Selector>, reason: string, rejectedBy: User) returns (r: Result<nat, Error>)
      requires Valid()
      modifies this
      ensures Value() == After(old(Value()), RefTable.RejectDrafts(old(Value()), sel, reason, rejectedBy))
      ensures Outcome(r, RefTable.RejectDrafts(old(Value()), sel, reason, rejectedBy))
      ensures r.Ok? ==> r.value == |Picked(old(Value()), sel)|
      ensures Next(c, old(Value()), AReject(sel, reason, rejectedBy), Value()) && Valid()
    {
      hide IsLawful, PositionsDistinct;
      ghost var start := Value();
      r := RejectPicked(sel, reason, rejectedBy);
      Stepped(c, start, AReject(sel, reason, rejectedBy), Value());
    }

    /** One UPDATE of the picked drafts. */
    method RejectPicked(sel: seq<Selector>, reason: string, rejectedBy: User) returns (r: Result<nat, Error>)
      modifies this
      ensures Value() == After(old(Value()), RefTable.RejectDrafts(old(Value()), sel, reason, rejectedBy))
      ensures Outcome(r, RefTable.RejectDrafts(old(Value()), sel, reason, rejectedBy))
      ensures r.Ok? ==> r.value == |Picked(old(Value()), sel)|
    {
      if reason == "" {
        return Err(ValidationFailed);
      }
      if sel == [] {
        assert Picked(Value(), sel) == {};
        return Ok(0);
      }
      var begin := Value();
      var picked := Picked(begin, sel);
      var todo := picked;
      while todo != {}
        invariant todo <= picked && drafts.Keys == begin.drafts.Keys
        invariant Value() == begin.(drafts := drafts)
        invariant forall id | id in drafts :: drafts[id] ==
                    if id in picked - todo then
                       begin.drafts[id].(status := Rejected, rejection := Some((reason, rejectedBy)))
                    else begin.drafts[id]
      {
        var id :| id in todo;
        drafts := drafts[id := drafts[id].(status := Rejected, rejection := Some((reason, rejectedBy)))];
        todo := todo - {id};
      }
      EndTransaction();
      return Ok(|picked|);
    }

    // ----------------------------------------------------------- one record

    method AddRecord(key: Key, name: string) returns (r: Result<(), Error>)
      requires Valid()
      modifies this
      ensures Value() == After(old(Value()), RefTable.AddRecord(c, old(Value()), key, name))
      ensures Outcome(r, RefTable.AddRecord(c, old(Value()), key, name))
      ensures Next(c, old(Value()), AAdd(key, name), Value()) && Valid()
    {
      hide IsLawful, PositionsDistinct;
      ghost var start := Value();
      r := InsertAndSeed(key, name);
      Stepped(c, start, AAdd(key, name), Value());
    }

    method InsertAndSeed(key: Key, name: string) returns (r: Result<(), Error>)
      requires PositionsDistinct(dim)
      modifies this
      ensures Value() == After(old(Value()), RefTable.AddRecord(c, old(Value()), key, name))
      ensures Outcome(r, RefTable.AddRecord(c, old(Value()), key, name))
    {
      if key == "" {
        return Ok(());
      }
      if key in dim {
        return Err(AlreadyExists);
      }
      var position := None;
      if c.manual {
        position := Some(NextPosition(RefTable.Positions(dim)));
      }
      dim := dim[key := Row(Some(name), position, BlankCells(c))];
      SeedVersionRow(key);
      EndTransaction();
      return Ok(());
    }

    /** The new version, one more than clients saw, or the reason for the refusal. */
    method RenameRecord(key: Key, name: string, expected: int) returns (r: Result<int, Error>)
      requires Valid()
      modifies this
      ensures Value() == After(old(Value()), RefTable.RenameRecord(old(Value()), key, name, expected))
      ensures Outcome(r, RefTable.RenameRecord(old(Value()), key, name, expected))
      ensures r.Ok? ==> r.value == VisibleVersion(stamps, key)
      ensures Next(c, old(Value()), ARename(key, name, expected), Value()) && Valid()
    {
      hide IsLawful, PositionsDistinct;
      ghost var start := Value();
      r := BumpAndRename(key, name, expected);
      Stepped(c, start, ARename(key, name, expected), Value());
    }

    method BumpAndRename(key: Key, name: string, expected: int) returns (r: Result<int, Error>)
      modifies this
      ensures Value() == After(old(Value()), RefTable.RenameRecord(old(Value()), key, name, expected))
      ensures Outcome(r, RefTable.RenameRecord(old(Value()), key, name, expected))
      ensures r.Ok? ==> r.value == VisibleVersion(stamps, key)
    {
      r := BumpVersionOrThrow(key, expected);
      if r.Err? {
        return;
      }
      if key in dim {
        dim := dim[key := dim[key].(name := Some(name))];
      }
      EndTransaction();
    }

    /** Set one user column; a parent column first climbs from the new parent. */
    method SetFieldValue(key: Key, f: Field, value: Value) returns (r: Result<(), Error>)
      requires Valid()
      modifies this
      ensures Value() == After(old(Value()), SetField(c, old(Value()), key, f, value))
      ensures Outcome(r, SetField(c, old(Value()), key, f, value))
      ensures Next(c, old(Value()), AEdit(key, f, value), Value()) && Valid()
    {
      hide IsLawful, PositionsDistinct;
      ghost var start := Value();
      if f !in c.fields {
        return Ok(());
      }
      var stored := value;
      if f in c.selfLinks && value.Val? {
        if value.text !in dim {
          stored := Null;
        } else if value.text == key {
          return Err(HierarchyCycle);
        } else {
          ParentsAcyclic(c, start, f);
          var cyclic := Links.HasAncestor(Parents(dim, f), value.text, key);
          if cyclic {
            return Err(HierarchyCycle);
          }
        }
      }
      StoreCell(key, f, stored);
      Stepped(c, start, AEdit(key, f, value), Value());
      return Ok(());
    }

    /** UPDATE the cell, and stamp the record when there was one. */
    method StoreCell(key: Key, f: Field, value: Value)
      modifies this
      ensures Value() == WithCell(old(Value()), key, f, value)
    {
      if key in dim {
        dim := dim[key := dim[key].(cells := dim[key].cells[f := value])];
        if key in stamps {
          stamps := stamps[key := stamps[key].(version := stamps[key].version + 1, updatedAt := Now())];
        } else {
          stamps := stamps[key := Stamp(1, Now(), None, None)];
        }
        EndTransaction();
      }
    }

    method ReorderRecord(key: Key, before: Anchor, after: Anchor) returns (r: Result<(), Error>)
      requires Valid()
      modifies this
      ensures Value() == After(old(Value()), RefTable.ReorderRecord(c, old(Value()), key, before, after))
      ensures Outcome(r, RefTable.ReorderRecord(c, old(Value()), key, before, after))
      ensures Next(c, old(Value()), AReorder(key, before, after), Value()) && Valid()
    {
      hide IsLawful, PositionsDistinct;
      ghost var start := Value();
      r := PickAndMove(key, before, after);
      Stepped(c, start, AReorder(key, before, after), Value());
    }

    method PickAndMove(key: Key, before: Anchor, after: Anchor) returns (r: Result<(), Error>)
      requires PositionsDistinct(dim)
      modifies this
      ensures Value() == After(old(Value()), RefTable.ReorderRecord(c, old(Value()), key, before, after))
      ensures Outcome(r, RefTable.ReorderRecord(c, old(Value()), key, before, after))
    {
      if !c.manual {
        return Err(Conflict);
      }
      var move := Reorder(RefTable.Positions(dim), key, before, after);
      if move.Err? {
        return Err(move.error);
      }
      if move.value.MoveTo? {
        MoveRecord(key, move.value.at);
      }
      return Ok(());
    }

    method MoveRecord(key: Key, at: int)
      requires key in dim
      modifies this
      ensures Value() == old(Value()).(dim := old(dim)[key := old(dim)[key].(position := Some(at))],
                                       stamps := old(stamps)[key := Touched(old(stamps), key, old(Now()))],
                                       clock := old(Now()))
    {
      dim := dim[key := dim[key].(position := Some(at))];
      TouchVersionRow(key);
      EndTransaction();
    }

    // ----------------------------------------------------------- merge, retire

    /** UPDATE ... FROM (VALUES ...): bump every live row at its expected version. */
    method BumpAll(keys: set<Key>, versions: map<Key, int>) returns (bumped: set<Key>)
      modifies this`stamps
      ensures bumped == keys <==> VersionsMatch(old(stamps), keys, versions)
      ensures bumped <= keys && stamps == BumpedAll(old(stamps), bumped, Now())
    {
      bumped := set k | k in keys && IsLive(stamps, k) && k in versions && stamps[k].version == versions[k];
      stamps := BumpedAll(stamps, bumped, Now());
    }

    /** All or nothing: every mapping, record and version row of the merge, or none. */
    method MergeRecords(survivor: Key, losers: seq<Key>, versions: map<Key, int>) returns (r: Result<nat, Error>)
      requires Valid()
      modifies this
      ensures Value() == After(old(Value()), RefTable.MergeRecords(old(Value()), survivor, losers, versions))
      ensures Outcome(r, RefTable.MergeRecords(old(Value()), survivor, losers, versions))
      ensures Next(c, old(Value()), AMerge(survivor, losers, versions), Value()) && Valid()
    {
      hide IsLawful, PositionsDistinct;
      ghost var start := Value();
      r := BumpAndMerge(survivor, losers, versions);
      Stepped(c, start, AMerge(survivor, losers, versions), Value());
    }

    /** The bulk bump runs first and touches every row that matches; when some key
        was missed, what it did is undone. */
    method BumpAndMerge(survivor: Key, losers: seq<Key>, versions: map<Key, int>) returns (r: Result<nat, Error>)
      modifies this
      ensures Value() == After(old(Value()), RefTable.MergeRecords(old(Value()), survivor, losers, versions))
      ensures Outcome(r, RefTable.MergeRecords(old(Value()), survivor, losers, versions))
    {
      hide VersionsMatch, Repointed, MergedStamps, RetiredInto, BumpedAll;
      var gone := RealLosers(survivor, losers);
      if gone == {} {
        return Ok(0);
      }
      var begin := Value();
      var bumped := BumpAll(gone + {survivor}, versions);
      if bumped != gone + {survivor} {
        Abort(begin);
        return Err(Conflict);
      }
      mapping := Repointed(mapping, gone, survivor);
      dim := dim - gone;
      stamps := RetiredInto(stamps, gone, survivor, Now());
      MergeStatements(begin.stamps, gone, survivor, begin.Now());
      EndTransaction();
      return Ok(|gone|);
    }

    method RetireRecord(key: Key, expected: int) returns (r: Result<(), Error>)
      requires Valid()
      modifies this
      ensures Value() == After(old(Value()), RefTable.RetireRecord(old(Value()), key, expected))
      ensures Outcome(r, RefTable.RetireRecord(old(Value()), key, expected))
      ensures Next(c, old(Value()), ARetire(key, expected), Value()) && Valid()
    {
      hide IsLawful, PositionsDistinct;
      ghost var start := Value();
      r := BumpAndRetire(key, expected);
      Stepped(c, start, ARetire(key, expected), Value());
    }

    method BumpAndRetire(key: Key, expected: int) returns (r: Result<(), Error>)
      modifies this
      ensures Value() == After(old(Value()), RefTable.RetireRecord(old(Value()), key, expected))
      ensures Outcome(r, RefTable.RetireRecord(old(Value()), key, expected))
    {
      if exists x | x in mapping :: mapping[x] == key {
        return Err(StillMapped);
      }
      var bump := BumpVersionOrThrow(key, expected);
      if bump.Err? {
        return Err(bump.error);
      }
      dim := dim - {key};
      stamps := stamps[key := stamps[key].(retiredAt := Some(Now()), retiredInto := None)];
      EndTransaction();
      return Ok(());
    }

    // ----------------------------------------------------------- revert

    /** Delete the changed records, bring back the published ones, stamp them, and
        clear the retire columns of those that are back. */
    method PutBack(changed: set<Key>) returns (ok: bool)
      requires changed == ChangedKeys(c, Value())
      modifies this
      ensures ok <==> PositionsDistinct(RevertedDim(c, old(Value())))
      ensures ok ==> dim == RevertedDim(c, old(Value()))
      ensures ok ==> stamps == RevertedStamps(old(stamps), changed, dim, old(Now()))
      ensures ok ==> clock == old(Now())
      ensures ok ==> unchanged(`mapping) && unchanged(`drafts) && unchanged(`snaps) && unchanged(`events)
      ensures !ok ==> Value() == old(Value())
    {
      hide PositionsDistinct, ChangedKeys, RevertedDim, RevertedStamps, BumpedAll, Unretired, PublishedRows;
      var begin := Value();
      var back := PublishedRows(c, begin, changed);
      RevertedRows(c, begin);
      dim := dim - changed;
      dim := dim + back;
      if !PositionsDistinct(dim) {
        Abort(begin);
        return false;
      }
      stamps := BumpedAll(stamps, changed, Now());
      stamps := Unretired(stamps, changed * dim.Keys);
      RevertStatements(begin.stamps, changed, dim, begin.Now());
      EndTransaction();
      return true;
    }

    /** Throw away what was edited since the last publish. */
    method RevertToPublished() returns (r: Result<nat, Error>)
      requires Valid()
      modifies this
      ensures Value() == After(old(Value()), Revert(c, old(Value())))
      ensures Outcome(r, Revert(c, old(Value())))
      ensures r.Ok? ==> r.value == |ChangedKeys(c, old(Value()))|
      ensures Next(c, old(Value()), ARevert, Value()) && Valid()
    {
      hide IsLawful, PositionsDistinct, RevertedDim, ChangedKeys, RevertedStamps;
      if |events| == 0 || |snaps| == 0 {
        return Err(NothingToRevertTo);
      }
      var changed := ChangedKeys(c, Value());
      if changed == {} {
        return Ok(0);
      }
      ghost var start := Value();
      var ok := PutBack(changed);
      Stepped(c, start, ARevert, Value());
      return if ok then Ok(|changed|) else Err(UniqueViolation);
    }

    // ----------------------------------------------------------- publish

    /** UPDATE ... FROM the draft table: when several drafts join one row, any of
        them may be the one applied. */
    method RemapMappings(q: Request)
      modifies this`mapping
      ensures mapping.Keys == old(mapping).Keys
      ensures forall r | r in mapping :: Remaps(c, old(Value()), q, r, mapping[r])
    {
      hide Remaps;
      var s := Value();
      var todo := mapping.Keys;
      while todo != {}
        invariant todo <= s.mapping.Keys == mapping.Keys
        invariant forall r | r in todo :: mapping[r] == s.mapping[r]
        invariant forall r | r in s.mapping && r !in todo :: Remaps(c, s, q, r, mapping[r])
      {
        var r :| r in todo;
        var joined := set id | id in Group(c, s, q, c.lower(r)) && Target(s, id) != s.mapping[r];
        RemapChoice(c, s, q, r);
        if joined != {} {
          var id :| id in joined;
          mapping := mapping[r := Target(s, id)];
        }
        todo := todo - {r};
      }
    }

    /** INSERT INTO dim_ the target keys that have no record yet: first seen first,
        at the bottom of a manually ordered table. */
    method InsertRecords(s: State, q: Request) returns (r: Result<(), Error>)
      requires PositionsDistinct(dim) && dim == s.dim
      modifies this`dim
      ensures r == if LabelsClash(s, q) then Err(UniqueViolation)
                   else if c.labelRequired && LabelMissing(s, q) then Err(NotNullViolation)
                   else Ok(())
      ensures r.Err? ==> dim == old(dim)
      ensures r.Ok? ==> exists order :: FoldedDim(c, s, q, order, dim)
    {
      if LabelsClash(s, q) {
        return Err(UniqueViolation);
      }
      if c.labelRequired && LabelMissing(s, q) {
        return Err(NotNullViolation);
      }
      var order := OrderNewKeys(s, q);
      InsertInOrder(s, q, order);
      return Ok(());
    }

    method InsertInOrder(s: State, q: Request, order: seq<Key>)
      requires PositionsDistinct(s.dim) && dim == s.dim && NewKeyOrder(s, q, order) && !LabelsClash(s, q)
      modifies this`dim
      ensures FoldedDim(c, s, q, order, dim)
    {
      hide FoldedDim, LabelsClash, PartRows, NewKeyOrder, NewKeys, PositionsDistinct, TopPosition;
      var top := TopPosition(s.dim);
      NoRowsYet(c, s, q, order);
      for i := 0 to |order|
        invariant PartRows(c, s, q, order, i, dim)
      {
        NewKeyIn(s, q, order, i);
        var id :| id in Eligible(s, q) && Target(s, id) == order[i];
        var position := if c.manual then Some(top + STEP * (i + 1)) else None;
        InsertedRow(c, s, q, order, i, dim, id);
        dim := dim[order[i] := Row(s.drafts[id].name, position, BlankCells(c))];
      }
      NewRowsFold(c, s, q, order, dim);
    }

    /** INSERT INTO map_ SELECT DISTINCT ON (lower(raw)) ... for the values without
        a row: the newest draft of each. */
    method InsertMappings(q: Request, ghost start: State)
      requires start.drafts == drafts && mapping.Keys == start.mapping.Keys
      requires forall r | r in mapping :: Remaps(c, start, q, r, mapping[r])
      modifies this`mapping
      ensures FoldedMapping(c, start, q, mapping)
    {
      var todo := set id | id in Eligible(Value(), q) && !HasFold(c, mapping, c.lower(id.0));
      SameDrafts(c, start, Value(), q);
      SameFolds(c, start.mapping, mapping);
      while todo != {}
        invariant PartFold(c, start, q, todo, mapping)
      {
        var some :| some in todo;
        SameDrafts(c, start, Value(), q);
        assert some in Group(c, start, q, c.lower(some.0));
        var id := NewestOf(c, Value(), q, c.lower(some.0));
        InsertedFold(c, start, q, todo, mapping, id);
        mapping := mapping[id.0 := Target(Value(), id)];
        todo := set d | d in todo && c.lower(d.0) != c.lower(some.0);
      }
      PartFoldDone(c, start, q, mapping);
    }

    method Publish(q: Request) returns (r: Result<nat, Error>)
      requires Valid()
      modifies this
      ensures CommitStep(c, old(Value()), q, Value())
      ensures r == match CommitError(c, old(Value()), q)
                   case Some(e) => Err(e)
                   case None => Ok(|Eligible(old(Value()), q)|)
      ensures Next(c, old(Value()), APublish(q), Value()) && Valid()
    {
      hide IsLawful, PositionsDistinct, CommitStep, CommitError, Eligible;
      ghost var start := Value();
      r := CheckAndPublish(q);
      Stepped(c, start, APublish(q), Value());
    }

    /** Check the request, then fold the drafts into the records and mappings, clear
        them, and write the version and its event, all or nothing. */
    method CheckAndPublish(q: Request) returns (r: Result<nat, Error>)
      requires PositionsDistinct(dim)
      modifies this
      ensures CommitStep(c, old(Value()), q, Value())
      ensures r == match CommitError(c, old(Value()), q)
                   case Some(e) => Err(e)
                   case None => Ok(|Eligible(old(Value()), q)|)
    {
      var begin := Value();
      if HasMissingSelector(begin, q) {
        return Err(ValidationFailed);
      }
      var committed := |Eligible(begin, q)|;
      if committed == 0 && ChangedKeys(c, begin) == {} {
        return Ok(0);
      }
      if q.kind.Publish? && q.blocked {
        return Err(ValidationFailed);
      }
      if q.fourEyes && HasOwnDraft(begin, q) {
        return Err(SecondPublisherRequired);
      }
      assert !NothingToCommit(c, begin, q);
      var folded := FoldAndRecord(q);
      return if folded.Ok? then Ok(committed) else Err(folded.error);
    }

    /** The publish transaction proper. */
    method FoldAndRecord(q: Request) returns (r: Result<int, Error>)
      requires PositionsDistinct(dim)
      modifies this
      ensures r == if LabelsClash(old(Value()), q) then Err(UniqueViolation)
                   else if c.labelRequired && LabelMissing(old(Value()), q) then Err(NotNullViolation)
                   else if VersionTaken(old(snaps), |old(events)| + 1) then Err(UniqueViolation)
                   else Ok(|old(events)| + 1)
      ensures r.Ok? ==> Committed(c, old(Value()), q, Value())
      ensures r.Err? ==> Value() == old(Value())
    {
      hide FoldedDim, FoldedMapping, LabelsClash, LabelMissing, PositionsDistinct;
      var begin := Value();
      var folded := FoldDrafts(begin, q);
      if folded.Err? {
        Abort(begin);
        return Err(folded.error);
      }
      var version := |events| + 1;
      if VersionTaken(snaps, version) {
        Abort(begin);
        return Err(UniqueViolation);
      }
      snaps := snaps + [TakeSnapshot(c, q, version, dim, mapping)];
      events := events + [Event(version, Now())];
      EndTransaction();
      return Ok(version);
    }

    /** The four statements of the fold, in order. */
    method FoldDrafts(s: State, q: Request) returns (r: Result<(), Error>)
      requires PositionsDistinct(dim) && s == Value()
      modifies this`dim, this`mapping, this`drafts
      ensures r == if LabelsClash(s, q) then Err(UniqueViolation)
                   else if c.labelRequired && LabelMissing(s, q) then Err(NotNullViolation)
                   else Ok(())
      ensures r.Ok? ==> exists order :: FoldedDim(c, s, q, order, dim)
      ensures r.Ok? ==> FoldedMapping(c, s, q, mapping)
      ensures r.Ok? ==> drafts == map id | id in s.drafts && !InScope(s, q, id) :: s.drafts[id]
    {
      RemapMappings(q);
      r := InsertRecords(s, q);
      if r.Ok? {
        ghost var order :| FoldedDim(c, s, q, order, dim);
        InsertMappings(q, s);
        drafts := map id | id in s.drafts && !InScope(s, q, id) :: s.drafts[id];
        assert FoldedDim(c, s, q, order, dim);
      }
    }

    // ----------------------------------------------------------- rollback

    /** The restoring transaction: wipe both tables, reinsert the snapshot's records
        (under the unique index) and mappings, and stamp. */
    method RestoreVersion(v: int) returns (r: Result<(), Error>)
      requires Valid()
      modifies this
      ensures Value() == After(old(Value()), Restore(c, old(Value()), v))
      ensures Outcome(r, Restore(c, old(Value()), v))
      ensures Next(c, old(Value()), ARestore(v), Value()) && Valid()
    {
      hide IsLawful, PositionsDistinct, Restore;
      ghost var start := Value();
      r := WipeAndReinsert(v);
      Stepped(c, start, ARestore(v), Value());
    }

    method WipeAndReinsert(v: int) returns (r: Result<(), Error>)
      modifies this
      ensures Value() == After(old(Value()), Restore(c, old(Value()), v))
      ensures Outcome(r, Restore(c, old(Value()), v))
    {
      hide PositionsDistinct, CanonAll, RestoredStamps, SnapshotOf;
      if !VersionTaken(snaps, v) {
        return Err(NoSnapshot);
      }
      var begin := Value();
      var snap := SnapshotOf(snaps, v);
      var inserted := ReinsertRecords(snap.records);
      if !inserted {
        Abort(begin);
        return Err(UniqueViolation);
      }
      ReinsertMappings(snap.mappings);
      StampRestored(snap.records.Keys);
      EndTransaction();
      return Ok(());
    }

    method ReinsertRecords(records: map<Key, Row>) returns (ok: bool)
      modifies this`dim
      ensures ok <==> PositionsDistinct(CanonAll(c, records))
      ensures ok ==> dim == CanonAll(c, records)
    {
      dim := map[];
      var todo := records.Keys;
      while todo != {}
        invariant todo <= records.Keys && dim.Keys == records.Keys - todo
        invariant forall k | k in dim :: dim[k] == CanonAll(c, records)[k]
        invariant PositionsDistinct(dim)
      {
        var k :| k in todo;
        var row := Canon(c, records[k]);
        if row.position.Some? && exists j | j in dim :: dim[j].position == row.position {
          ghost var j :| j in dim && dim[j].position == row.position;
          ClashStays(dim, CanonAll(c, records), j, k);
          return false;
        }
        SetPositionDistinct(dim, k, row);
        dim := dim[k := row];
        todo := todo - {k};
      }
      assert dim == CanonAll(c, records);
      return true;
    }

    method ReinsertMappings(mappings: map<Raw, Key>)
      modifies this`mapping
      ensures mapping == mappings
    {
      mapping := map[];
      var todo := mappings.Keys;
      while todo != {}
        invariant todo <= mappings.Keys && mapping.Keys == mappings.Keys - todo
        invariant forall r | r in mapping :: mapping[r] == mappings[r]
      {
        var r :| r in todo;
        mapping := mapping[r := mappings[r]];
        todo := todo - {r};
      }
    }

    /** Upsert a version row for each restored key, then retire the other live ones. */
    method StampRestored(keys: set<Key>)
      modifies this`stamps
      ensures stamps == RestoredStamps(old(stamps), keys, Now())
    {
      ghost var before := stamps;
      var todo := keys;
      while todo != {}
        invariant todo <= keys && stamps.Keys == before.Keys + (keys - todo)
        invariant forall k | k in stamps ::
                    stamps[k] == if k in keys - todo then Seeded(before, k, Now()) else before[k]
      {
        var k :| k in todo;
        SeedVersionRow(k);
        todo := todo - {k};
      }
      stamps := map k | k in stamps ::
        if stamps[k].retiredAt.None? && k !in keys then stamps[k].(retiredAt := Some(Now()), retiredInto := None)
        else stamps[k];
    }

    /** Roll back to version v: restore it, then publish with an empty selection. */
    method RollbackToVersion(v: int, q: Request) returns (r: Result<(), Error>)
      requires Valid() && Rollback.IsRollbackRequest(q, v)
      modifies this
      ensures r.Ok? <==> VersionTaken(old(snaps), v)
      ensures r.Ok? ==> RolledBackTo(c, old(Value()), v, Value())
      ensures r.Err? ==> r == Err(NoSnapshot) && Value() == old(Value())
      ensures r.Ok? ==> exists mid :: TwoSteps(c, old(Value()), ARestore(v), mid, APublish(q), Value())
      ensures Valid()
    {
      hide Kept, CommitStep, Restore;
      ghost var begin := Value();
      RestoreNeverClashes(c, begin, v);
      r := RestoreVersion(v);
      if r.Ok? {
        ghost var mid := Value();
        var published := Publish(q);
        RollbackSteps(c, begin, v, q, mid, Value());
        assert TwoSteps(c, begin, ARestore(v), mid, APublish(q), Value());
      }
    }
  }

  ghost predicate TwoSteps(c: Schema, s: State, a: Action, mid: State, b: Action, s': State)
  {
    Next(c, s, a, mid) && Next(c, mid, b, s')
  }

  /** The invariant of the class: what runs keep of one table, the acyclic parents
      that the ancestor query relies on among it. */
  ghost predicate IsValid(c: Schema, s: State)
  {
    c.WellFormed() && PositionsDistinct(s.dim) && IsLawful(c, s)
  }

  ghost predicate IsLawful(c: Schema, s: State)
  {
    Kept(c, s) && ExactDiff.PresentStamped(c, s) && Hierarchy.Forests(c, s)
  }

  lemma EmptyIsValid(c: Schema)
    requires c.WellFormed()
    ensures IsValid(c, EMPTY)
  {
    EmptyTableKept(c);
    Hierarchy.EmptyTableForest(c);
  }

  lemma ParentsAcyclic(c: Schema, s: State, f: Field)
    requires IsValid(c, s) && f in c.selfLinks
    ensures Links.Acyclic(Parents(s.dim, f))
  {
  }

  lemma Stepped(c: Schema, s: State, a: Action, s': State)
    requires IsValid(c, s) && Step(c, s, a, s')
    ensures IsValid(c, s') && Next(c, s, a, s')
  {
    hide Step, ExactDiff.PresentStamped, Hierarchy.Forests;
    StepKeeps(c, s, a, s');
    Hierarchy.NextForests(c, s, a, s');
  }

  /** A method reports success exactly when its specification does, and otherwise
      the same reason. */
  predicate Outcome<T, U>(r: Result<T, Error>, spec: Result<U, Error>)
  {
    match spec
    case Ok(_) => r.Ok?
    case Err(e) => r == Err(e)
  }

  // ------------------------------------------------------------- bulk statements

  /** SET version = version + 1, updated_at = now() */
  function BumpedAll(stamps: map<Key, Stamp>, keys: set<Key>, now: int): map<Key, Stamp>
  {
    map k | k in stamps ::
      if k in keys then stamps[k].(version := stamps[k].version + 1, updatedAt := now) else stamps[k]
  }

  /** SET retired_at = now(), retired_into = survivor */
  function RetiredInto(stamps: map<Key, Stamp>, keys: set<Key>, survivor: Key, now: int): map<Key, Stamp>
  {
    map k | k in stamps ::
      if k in keys then stamps[k].(retiredAt := Some(now), retiredInto := Some(survivor)) else stamps[k]
  }

  /** SET retired_at = NULL, retired_into = NULL */
  function Unretired(stamps: map<Key, Stamp>, keys: set<Key>): map<Key, Stamp>
  {
    map k | k in stamps :: if k in keys then stamps[k].(retiredAt := None, retiredInto := None) else stamps[k]
  }

  /** INSERT ... SELECT the changed records out of the head snapshot. */
  function PublishedRows(c: Schema, s: State, changed: set<Key>): map<Key, Row>
  {
    map k | k in HeadRecords(s) && k in changed :: Canon(c, HeadRecords(s)[k])
  }

  /** The two stamp statements of a merge, together. */
  lemma MergeStatements(stamps: map<Key, Stamp>, gone: set<Key>, survivor: Key, now: int)
    requires survivor !in gone
    ensures RetiredInto(BumpedAll(stamps, gone + {survivor}, now), gone, survivor, now)
            == MergedStamps(stamps, gone, survivor, now)
  {
  }

  lemma RevertedRows(c: Schema, s: State)
    ensures (s.dim - ChangedKeys(c, s)) + PublishedRows(c, s, ChangedKeys(c, s)) == RevertedDim(c, s)
  {
  }

  lemma RevertStatements(stamps: map<Key, Stamp>, changed: set<Key>, dim: map<Key, Row>, now: int)
    ensures Unretired(BumpedAll(stamps, changed, now), changed * dim.Keys) == RevertedStamps(stamps, changed, dim, now)
  {
  }

  // ------------------------------------------------------------- the fold's pieces

  /** MIN(created_at) of the drafts that create k. */
  method FirstSeenAt(s: State, q: Request, k: Key) returns (at: int)
    requires k in NewKeys(s, q)
    ensures FirstSeen(s, q, k, at)
  {
    var mine := set id | id in Eligible(s, q) && Target(s, id) == k;
    ghost var some :| some in Eligible(s, q) && Target(s, some) == k;
    assert some in mine;
    var first :| first in mine;
    at := s.drafts[first].createdAt;
    var todo := mine - {first};
    while todo != {}
      invariant todo <= mine
      invariant exists id | id in mine :: s.drafts[id].createdAt == at
      invariant forall id | id in mine && id !in todo :: at <= s.drafts[id].createdAt
    {
      var id :| id in todo;
      if s.drafts[id].createdAt < at {
        at := s.drafts[id].createdAt;
      }
      todo := todo - {id};
    }
  }

  lemma FirstSeenUnique(s: State, q: Request, k: Key, a: int, b: int)
    requires FirstSeen(s, q, k, a) && FirstSeen(s, q, k, b)
    ensures a == b
  {
  }

  /** The key that row_number() puts first. */
  method FirstNewKey(s: State, q: Request, keys: set<Key>) returns (k: Key)
    requires keys != {} && keys <= NewKeys(s, q)
    ensures k in keys && forall j | j in keys && j != k :: SeenBefore(s, q, k, j)
  {
    k :| k in keys;
    var at := FirstSeenAt(s, q, k);
    var todo := keys - {k};
    while todo != {}
      invariant todo <= keys && k in keys && k !in todo && FirstSeen(s, q, k, at)
      invariant forall j | j in keys && j !in todo && j != k :: SeenBefore(s, q, k, j)
    {
      var j :| j in todo;
      var seen := FirstSeenAt(s, q, j);
      LexTotal(j, k);
      if seen < at || (seen == at && LexLess(j, k)) {
        assert SeenBefore(s, q, j, k);
        forall i | i in keys && i !in todo && i != k
          ensures SeenBefore(s, q, j, i)
        {
          SeenBeforeTransitive(s, q, j, k, i);
        }
        k, at := j, seen;
      } else {
        assert SeenBefore(s, q, k, j);
      }
      todo := todo - {j};
    }
  }

  lemma SeenBeforeTransitive(s: State, q: Request, a: Key, b: Key, d: Key)
    requires SeenBefore(s, q, a, b) && SeenBefore(s, q, b, d)
    ensures SeenBefore(s, q, a, d)
  {
    var i, j :| FirstSeen(s, q, a, i) && FirstSeen(s, q, b, j) && (i < j || (i == j && LexLess(a, b)));
    var j', k :| FirstSeen(s, q, b, j') && FirstSeen(s, q, d, k) && (j' < k || (j' == k && LexLess(b, d)));
    FirstSeenUnique(s, q, b, j, j');
    if i == j && j' == k {
      LexTransitive(a, b, d);
    }
  }

  /** The row that the fold creates for k. */
  ghost predicate NewRow(c: Schema, s: State, q: Request, k: Key, slot: int, row: Row)
  {
    && (exists id | id in Eligible(s, q) :: Target(s, id) == k && row.name == s.drafts[id].name)
    && row.cells == BlankCells(c) && row.position == (if c.manual then Some(slot) else None)
  }

  /** The records after the first i new ones are in. */
  ghost predicate PartRows(c: Schema, s: State, q: Request, order: seq<Key>, i: nat, m: map<Key, Row>)
    requires PositionsDistinct(s.dim) && i <= |order|
  {
    && (forall k :: k in m <==> k in s.dim || k in order[..i])
    && (forall k | k in s.dim :: m[k] == s.dim[k])
    && (forall j | 0 <= j < i ::
          order[j] in m && NewRow(c, s, q, order[j], TopPosition(s.dim) + STEP * (j + 1), m[order[j]]))
  }

  lemma NoRowsYet(c: Schema, s: State, q: Request, order: seq<Key>)
    requires PositionsDistinct(s.dim)
    ensures PartRows(c, s, q, order, 0, s.dim)
  {
    hide PositionsDistinct, TopPosition;
  }

  lemma InsertedRow(c: Schema, s: State, q: Request, order: seq<Key>, i: nat, m: map<Key, Row>, id: DraftId)
    requires PositionsDistinct(s.dim) && NewKeyOrder(s, q, order) && i < |order|
    requires PartRows(c, s, q, order, i, m) && id in Eligible(s, q) && Target(s, id) == order[i]
    ensures var position := if c.manual then Some(TopPosition(s.dim) + STEP * (i + 1)) else None;
            PartRows(c, s, q, order, i + 1, m[order[i] := Row(s.drafts[id].name, position, BlankCells(c))])
  {
    NewKeyIn(s, q, order, i);
    var position := if c.manual then Some(TopPosition(s.dim) + STEP * (i + 1)) else None;
    var row := Row(s.drafts[id].name, position, BlankCells(c));
    assert NewRow(c, s, q, order[i], TopPosition(s.dim) + STEP * (i + 1), row);
    RowAppended(c, s, q, order, i, m, row);
  }

  lemma RowAppended(c: Schema, s: State, q: Request, order: seq<Key>, i: nat, m: map<Key, Row>, row: Row)
    requires PositionsDistinct(s.dim) && i < |order| && PartRows(c, s, q, order, i, m)
    requires order[i] !in s.dim && order[i] !in order[..i]
    requires NewRow(c, s, q, order[i], TopPosition(s.dim) + STEP * (i + 1), row)
    ensures PartRows(c, s, q, order, i + 1, m[order[i] := row])
  {
    hide NewRow, PositionsDistinct;
    assert order[..i + 1] == order[..i] + [order[i]];
    forall j | 0 <= j < i
      ensures order[j] != order[i]
    {
      assert order[..i][j] == order[j];
    }
  }

  lemma NewRowsFold(c: Schema, s: State, q: Request, order: seq<Key>, after: map<Key, Row>)
    requires PositionsDistinct(s.dim) && !LabelsClash(s, q) && NewKeyOrder(s, q, order)
    requires PartRows(c, s, q, order, |order|, after)
    ensures FoldedDim(c, s, q, order, after)
  {
    assert order[..|order|] == order;
    forall id | id in Eligible(s, q) && Target(s, id) !in s.dim
      ensures after[Target(s, id)].name == s.drafts[id].name && after[Target(s, id)].cells == BlankCells(c)
    {
      assert Target(s, id) in order;
      var i :| 0 <= i < |order| && order[i] == Target(s, id);
      var other :| other in Eligible(s, q) && Target(s, other) == order[i]
                   && after[order[i]].name == s.drafts[other].name;
    }
  }

  /** The fold depends on the drafts, not on what has been written so far. */
  lemma SameDrafts(c: Schema, a: State, b: State, q: Request)
    requires a.drafts == b.drafts
    ensures Eligible(a, q) == Eligible(b, q)
    ensures forall folded :: Group(c, a, q, folded) == Group(c, b, q, folded)
    ensures forall id | id in Eligible(a, q) :: IsNewest(c, a, q, id) <==> IsNewest(c, b, q, id)
  {
  }

  /** A new mapping row comes from the newest draft of a value that had none. */
  ghost predicate FromNewest(c: Schema, s: State, q: Request, r: Raw, to: Key)
  {
    && !HasFold(c, s.mapping, c.lower(r))
    && exists id | id in Eligible(s, q) :: id.0 == r && IsNewest(c, s, q, id) && to == Target(s, id)
  }

  /** DISTINCT ON: the first draft in the order created_at DESC, user_id. */
  method NewestOf(c: Schema, s: State, q: Request, folded: Raw) returns (id: DraftId)
    requires Group(c, s, q, folded) != {}
    ensures id in Group(c, s, q, folded) && IsNewest(c, s, q, id)
  {
    var group := Group(c, s, q, folded);
    id :| id in group;
    var todo := group - {id};
    CommitFold.BeatsIsOrder(s, id, id, id);
    while todo != {}
      invariant todo <= group && id in group
      invariant forall other | other in group && other !in todo :: !Beats(s, other, id)
    {
      var next :| next in todo;
      if Beats(s, next, id) {
        forall other | other in group && other !in todo
          ensures !Beats(s, other, next)
        {
          CommitFold.BeatsIsOrder(s, other, next, id);
        }
        id := next;
      }
      CommitFold.BeatsIsOrder(s, id, id, id);
      todo := todo - {next};
    }
  }

  lemma SameFolds(c: Schema, a: map<Raw, Key>, b: map<Raw, Key>)
    requires a.Keys == b.Keys
    ensures forall folded :: HasFold(c, a, folded) <==> HasFold(c, b, folded)
  {
  }

  /** The mapping table part-way through the insert; the values of `todo` still
      have no row. */
  ghost predicate PartFold(c: Schema, s: State, q: Request, todo: set<DraftId>, m: map<Raw, Key>)
  {
    && todo <= Eligible(s, q)
    && (forall r | r in s.mapping :: r in m && Remaps(c, s, q, r, m[r]))
    && (forall r | r in m && r !in s.mapping :: FromNewest(c, s, q, r, m[r]))
    && (forall id | id in Eligible(s, q) :: id in todo <==> !HasFold(c, m, c.lower(id.0)))
    && (forall a, b | a in m && b in m && a !in s.mapping && b !in s.mapping && c.lower(a) == c.lower(b) :: a == b)
  }

  lemma InsertedFold(c: Schema, s: State, q: Request, todo: set<DraftId>, m: map<Raw, Key>, id: DraftId)
    requires PartFold(c, s, q, todo, m) && id in todo && IsNewest(c, s, q, id)
    ensures PartFold(c, s, q, (set d | d in todo && c.lower(d.0) != c.lower(id.0)), m[id.0 := Target(s, id)])
  {
    hide IsNewest, Remaps;
    var after := m[id.0 := Target(s, id)];
    forall folded
      ensures HasFold(c, after, folded) <==> HasFold(c, m, folded) || folded == c.lower(id.0)
    {
      assert id.0 in after;
      if x :| x in m && c.lower(x) == folded {
        assert x in after;
      }
    }
    assert id.0 !in m;
    assert !HasFold(c, s.mapping, c.lower(id.0)) by {
      assert forall x | x in s.mapping :: x in m;
    }
    assert FromNewest(c, s, q, id.0, after[id.0]);
  }

  lemma PartFoldDone(c: Schema, s: State, q: Request, m: map<Raw, Key>)
    requires PartFold(c, s, q, {}, m)
    ensures FoldedMapping(c, s, q, m)
  {
  }

  lemma RemapChoice(c: Schema, s: State, q: Request, r: Raw)
    requires r in s.mapping
    ensures var joined := set id | id in Group(c, s, q, c.lower(r)) && Target(s, id) != s.mapping[r];
            && (joined == {} ==> Remaps(c, s, q, r, s.mapping[r]))
            && (forall id | id in joined :: Remaps(c, s, q, r, Target(s, id)))
  {
    var joined := set id | id in Group(c, s, q, c.lower(r)) && Target(s, id) != s.mapping[r];
    if id :| id in Group(c, s, q, c.lower(r)) && Target(s, id) != s.mapping[r] {
      assert id in joined;
    }
  }

  /** The row_number() order of the new keys. */
  method OrderNewKeys(s: State, q: Request) returns (order: seq<Key>)
    ensures NewKeyOrder(s, q, order)
  {
    order := [];
    var todo := NewKeys(s, q);
    while todo != {}
      invariant todo <= NewKeys(s, q)
      invariant forall k :: k in order <==> k in NewKeys(s, q) && k !in todo
      invariant forall i, j | 0 <= i < j < |order| :: SeenBefore(s, q, order[i], order[j]) && order[i] != order[j]
      invariant forall i, k | 0 <= i < |order| && k in todo :: SeenBefore(s, q, order[i], k)
    {
      var k := FirstNewKey(s, q, todo);
      assert k !in order;
      order := order + [k];
      todo := todo - {k};
    }
  }

  lemma NewKeyIn(s: State, q: Request, order: seq<Key>, i: nat)
    requires NewKeyOrder(s, q, order) && i < |order|
    ensures order[i] in NewKeys(s, q) && order[i] !in s.dim && order[i] !in order[..i]
    ensures exists id | id in Eligible(s, q) :: Target(s, id) == order[i]
  {
    assert order[i] in order;
  }

  /** What a rollback to v leaves: version v's records and mappings, the drafts as
      they were, and live version rows for exactly the records.  One version is
      appended that says so, unless nothing looked changed. */
  ghost predicate RolledBackTo(c: Schema, s: State, v: int, s': State)
    requires HasVersion(s, v)
  {
    && s'.dim == CanonAll(c, SnapshotOf(s.snaps, v).records)
    && s'.mapping == SnapshotOf(s.snaps, v).mappings
    && s'.drafts == s.drafts
    && (forall k :: IsLive(s'.stamps, k) <==> k in s'.dim)
    && (Rollback.PublishesAgain(c, s, v, s'.dim, s'.mapping, s') || (s'.snaps == s.snaps && s'.events == s.events))
  }

  lemma RollbackSteps(c: Schema, s: State, v: int, q: Request, mid: State, s': State)
    requires c.WellFormed() && Kept(c, s) && Rollback.IsRollbackRequest(q, v)
    requires Restore(c, s, v) == Ok(mid) && PositionsDistinct(mid.dim) && CommitStep(c, mid, q, s')
    ensures HasVersion(s, v) && RolledBackTo(c, s, v, s') && Kept(c, s')
  {
    hide Restore, CommitStep, Kept;
    Rollback.RollbackResult(c, s, v, q, mid, s');
  }

  lemma ClashStays(part: map<Key, Row>, whole: map<Key, Row>, j: Key, k: Key)
    requires j in part && j in whole && part[j] == whole[j] && k in whole && k !in part
    requires whole[k].position.Some? && part[j].position == whole[k].position
    ensures !PositionsDistinct(whole)
  {
    var pos := RefTable.Positions(whole);
    assert j in pos && k in pos && pos[j] == pos[k];
  }

  /** Stored versions satisfy the unique index, so only a missing version stops a
      restore. */
  lemma RestoreNeverClashes(c: Schema, s: State, v: int)
    requires Kept(c, s)
    ensures Restore(c, s, v) == Err(NoSnapshot) <==> !HasVersion(s, v)
    ensures Restore(c, s, v).Err? ==> Restore(c, s, v) == Err(NoSnapshot)
  {
    if HasVersion(s, v) {
      var snap := SnapshotOf(s.snaps, v);
      SubtableDistinct(CanonAll(c, snap.records), snap.records);
    }
  }
}
