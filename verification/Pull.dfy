/** Incremental pull: a consumer pages the record feed by cursor while edits go on
    between its requests. */
module Pull {
  import opened Prelude
  import opened RefTable
  import opened Invariants
  import opened Runs
  import opened Keyset
  import Integrity

  /** What the feed shows of a record: no position. */
  datatype Item = Item(name: Option<string>, cells: map<Field, Value>, version: int, updatedAt: int)

  /** The records joined with their live version rows. */
  function Feed(s: State): map<Key, Item>
  {
    map k | k in s.dim && IsLive(s.stamps, k) ::
      Item(s.dim[k].name, s.dim[k].cells, s.stamps[k].version, s.stamps[k].updatedAt)
  }

  function RowOf(s: State, k: Key): RowKey
    requires k in Feed(s)
  {
    (Feed(s)[k].updatedAt, k)
  }

  function FeedRows(s: State): set<RowKey>
  {
    set k | k in Feed(s) :: RowOf(s, k)
  }

  /** A consumer: the cursor it sends next, and the last copy it was given. */
  datatype Consumer = Consumer(mark: Mark, copy: map<Key, Item>)

  function Received(s: State, copy: map<Key, Item>, page: seq<RowKey>): map<Key, Item>
    requires forall r | r in page :: r.1 in Feed(s)
  {
    copy + map r | r in page :: r.1 := Feed(s)[r.1]
  }

  /** One page request; `done` when the response carries no cursor. */
  ghost predicate Reads(s: State, limit: nat, a: Consumer, b: Consumer, done: bool)
  {
    exists page: seq<RowKey>, next | IsPage(FeedRows(s), a.mark, limit, page, next) ::
      && (forall r | r in page :: r.1 in Feed(s))
      && b.copy == Received(s, a.copy, page)
      && b.mark == (if next.Some? then Past(next.value) else a.mark)
      && done == next.None?
  }

  /** A version row retired after `since`. */
  predicate RetiredAfter(stamps: map<Key, Stamp>, k: Key, since: int)
  {
    k in stamps && stamps[k].retiredAt.Some? && stamps[k].retiredAt.value > since
  }

  // ------------------------------------------------------------- one edit

  /** Every record that is new or different in the feed carries a stamp later than
      anything before the step. */
  ghost predicate Moved(s: State, s': State)
  {
    forall k | k in Feed(s') && !(k in Feed(s) && Feed(s')[k] == Feed(s)[k]) :: Feed(s')[k].updatedAt > s.clock
  }

  /** If k left the feed, it is a tombstone of this step; and a tombstone stays one
      or comes back into the feed. */
  ghost predicate Buried(s: State, s': State, k: Key)
  {
    && (k in Feed(s) && k !in Feed(s') ==> RetiredAfter(s'.stamps, k, s.clock))
    && (forall t | t <= s.clock && RetiredAfter(s.stamps, k, t) :: k in Feed(s') || RetiredAfter(s'.stamps, k, t))
  }

  /** Does this step create a record whose version row is already live? */
  predicate Resurrects(c: Schema, s: State, a: Action)
  {
    && a.APublish? && CommitError(c, s, a.request).None? && !NothingToCommit(c, s, a.request)
    && exists k | k in NewKeys(s, a.request) :: IsLive(s.stamps, k)
  }

  lemma SingleRecordMoves(c: Schema, s: State, a: Action, s': State)
    requires Kept(c, s) && KeyOf(a).Some? && Step(c, s, a, s')
    ensures Moved(s, s')
  {
    hide Step;
    SingleRecord(c, s, a, s');
  }

  lemma PublishMovesIff(c: Schema, s: State, q: Request, s': State)
    requires Kept(c, s) && Committed(c, s, q, s')
    ensures Moved(s, s') <==> forall k | k in NewKeys(s, q) :: !IsLive(s.stamps, k)
  {
    Integrity.FoldedRecords(c, s, q, s'.dim);
    forall k | k in NewKeys(s, q)
      ensures k !in Feed(s) && (k in Feed(s') <==> IsLive(s.stamps, k))
      ensures k in Feed(s') ==> Feed(s')[k].updatedAt <= s.clock
    {
    }
    forall k | k in Feed(s') && k !in NewKeys(s, q)
      ensures k in Feed(s) && Feed(s')[k] == Feed(s)[k]
    {
    }
  }

  /** A step moves what it changes past every cursor handed out so far, exactly
      when it does not create a record under a version row that is already live.
      (Only a revert leaves such version rows behind.) */
  lemma StepMovesIff(c: Schema, s: State, a: Action, s': State)
    requires Kept(c, s) && Step(c, s, a, s')
    ensures Moved(s, s') <==> !Resurrects(c, s, a)
  {
    hide Moved, CommitStep, Revert, Restore, MergeRecords;
    if KeyOf(a).Some? {
      SingleRecordMoves(c, s, a, s');
    } else {
      match a
      case APublish(q) => CommitStepMovesIff(c, s, q, s');
      case ARevert => RevertMoves(c, s, s');
      case ARestore(v) => RestoreMoves(c, s, v, s');
      case AMerge(_, _, _) => MergeMoves(s, a, s');
      case _ => DraftStepMoves(c, s, a, s');
    }
  }

  lemma CommitStepMovesIff(c: Schema, s: State, q: Request, s': State)
    requires Kept(c, s) && CommitStep(c, s, q, s')
    ensures Moved(s, s') <==> !Resurrects(c, s, APublish(q))
  {
    hide Committed, NewKeys, Eligible, CommitError, NothingToCommit;
    if CommitError(c, s, q).None? && !NothingToCommit(c, s, q) {
      PublishMovesIff(c, s, q, s');
    }
  }

  lemma MergeMoves(s: State, a: Action, s': State)
    requires a.AMerge? && s' == After(s, MergeRecords(s, a.survivor, a.losers, a.versions))
    ensures Moved(s, s')
  {
  }

  lemma DraftStepMoves(c: Schema, s: State, a: Action, s': State)
    requires PositionsDistinct(s.dim) && (a.ASave? || a.ADiscard? || a.AReject?) && Step(c, s, a, s')
    ensures Moved(s, s')
  {
    hide Step;
    DraftStep(c, s, a, s');
  }

  ghost predicate NewOrSame(s: State, s': State, k: Key)
    requires k in s'.dim && k in s'.stamps
  {
    s'.stamps[k].updatedAt > s.clock
    || (k in s.dim && k in s.stamps && s'.dim[k] == s.dim[k] && s'.stamps[k] == s.stamps[k])
  }

  lemma RevertMoves(c: Schema, s: State, s': State)
    requires s' == After(s, Revert(c, s))
    ensures Moved(s, s')
  {
    forall k | k in s'.dim && IsLive(s'.stamps, k)
      ensures NewOrSame(s, s', k)
    {
      RevertedRecord(c, s, s', k);
    }
    KeptRowsMove(s, s');
  }

  /** A record that a revert leaves was stamped by it, or is as it was. */
  lemma RevertedRecord(c: Schema, s: State, s': State, k: Key)
    requires s' == After(s, Revert(c, s)) && k in s'.dim && k in s'.stamps
    ensures NewOrSame(s, s', k)
  {
    if s' != s {
      assert s'.dim == RevertedDim(c, s);
      assert s'.stamps == RevertedStamps(s.stamps, ChangedKeys(c, s), s'.dim, s.Now());
    }
  }

  lemma KeptRowsMove(s: State, s': State)
    requires forall k | k in s'.dim && IsLive(s'.stamps, k) :: NewOrSame(s, s', k)
    ensures Moved(s, s')
  {
  }

  lemma RestoreMoves(c: Schema, s: State, v: int, s': State)
    requires s' == After(s, Restore(c, s, v))
    ensures Moved(s, s')
  {
  }

  /** Does this step take k out of the feed and leave its version row live?  A
      revert does, to a record that is stamped and that the last version lacks. */
  predicate Strands(c: Schema, s: State, a: Action, k: Key)
  {
    a.ARevert? && Revert(c, s).Ok? && k in ChangedKeys(c, s) && k in Feed(s) && k !in HeadRecords(s)
  }

  /** A record that a step takes out of the feed is listed as a tombstone of that
      moment, exactly when the step is not a revert that strands it. */
  lemma StepBuriesIff(c: Schema, s: State, a: Action, s': State, k: Key)
    requires Kept(c, s) && Step(c, s, a, s')
    ensures Buried(s, s', k) <==> !Strands(c, s, a, k)
  {
    hide Buried, CommitStep, Restore, MergeRecords, Revert;
    if KeyOf(a).Some? {
      SingleRecordBuries(c, s, a, s', k);
    } else {
      match a
      case APublish(q) => PublishBuries(c, s, q, s', k);
      case ARevert => RevertBuriesIff(c, s, s', k);
      case ARestore(v) => RestoreBuries(c, s, v, s', k);
      case AMerge(_, _, _) => MergeBuries(s, a, s', k);
      case _ => DraftStepBuries(c, s, a, s', k);
    }
  }

  lemma DraftStepBuries(c: Schema, s: State, a: Action, s': State, k: Key)
    requires PositionsDistinct(s.dim) && (a.ASave? || a.ADiscard? || a.AReject?) && Step(c, s, a, s')
    ensures Buried(s, s', k)
  {
    hide Step;
    DraftStep(c, s, a, s');
  }

  lemma PublishBuries(c: Schema, s: State, q: Request, s': State, k: Key)
    requires Kept(c, s) && CommitStep(c, s, q, s')
    ensures Buried(s, s', k)
  {
    if s' != s {
      Integrity.FoldedRecords(c, s, q, s'.dim);
    }
  }

  /** What a revert does to record k and its version row. */
  lemma RevertedKey(c: Schema, s: State, s': State, k: Key)
    requires Revert(c, s) == Ok(s')
    ensures k in s'.stamps <==> k in s.stamps
    ensures k in s.stamps ==>
              s'.stamps[k].retiredAt == (if k in ChangedKeys(c, s) && k in s'.dim then None else s.stamps[k].retiredAt)
    ensures k in s'.dim <==> if k in ChangedKeys(c, s) then k in HeadRecords(s) else k in s.dim
  {
    if s' != s {
      assert s'.dim == RevertedDim(c, s);
      assert s'.stamps == RevertedStamps(s.stamps, ChangedKeys(c, s), s'.dim, s.Now());
    }
  }

  lemma RevertBuriesIff(c: Schema, s: State, s': State, k: Key)
    requires s' == After(s, Revert(c, s))
    ensures Buried(s, s', k) <==> !Strands(c, s, ARevert, k)
  {
    if Revert(c, s).Ok? {
      RevertedKey(c, s, s', k);
    }
  }

  lemma RestoreBuries(c: Schema, s: State, v: int, s': State, k: Key)
    requires s' == After(s, Restore(c, s, v))
    ensures Buried(s, s', k)
  {
    hide Canon, SnapshotOf, VersionTaken, PositionsDistinct;
  }

  lemma MergeBuries(s: State, a: Action, s': State, k: Key)
    requires a.AMerge? && s' == After(s, MergeRecords(s, a.survivor, a.losers, a.versions))
    ensures Buried(s, s', k)
  {
  }

  lemma SingleRecordBuries(c: Schema, s: State, a: Action, s': State, k: Key)
    requires Kept(c, s) && KeyOf(a).Some? && Step(c, s, a, s')
    ensures Buried(s, s', k)
  {
    hide Step, PositionsDistinct, Touches, OwnRecord, Buried;
    SingleRecord(c, s, a, s');
    SingleOwn(c, s, a, s');
    if s' == s {
      SameBuries(s, k);
    } else {
      TouchBuries(c, s, s', KeyOf(a).value, k);
    }
  }

  lemma SameBuries(s: State, k: Key)
    ensures Buried(s, s, k)
  {
  }

  lemma TouchBuries(c: Schema, s: State, s': State, own: Key, k: Key)
    requires StampedBy(s.stamps, s.clock) && Touches(s, s', own) && own in s'.stamps && OwnRecord(c, s, s', own)
    ensures Buried(s, s', k)
  {
  }

  // ------------------------------------------------------------- hidden records

  /** A record under its own tombstone: the list of removals names it, and no page
      of the feed shows it. */
  predicate IsHidden(s: State, k: Key)
  {
    k in s.dim && k in s.stamps && s.stamps[k].retiredAt.Some?
  }

  /** Does this step create record k under its tombstone?  A publish does, which
      gives folded records no version rows. */
  predicate Hides(c: Schema, s: State, a: Action, k: Key)
  {
    && a.APublish? && CommitError(c, s, a.request).None? && !NothingToCommit(c, s, a.request)
    && k in NewKeys(s, a.request) && k in s.stamps && s.stamps[k].retiredAt.Some?
  }

  /** Every other transaction keeps records and tombstones apart: adding a record
      revives its version row, and what retires a row removes the record. */
  lemma StepHidesIff(c: Schema, s: State, a: Action, s': State, k: Key)
    requires Kept(c, s) && Step(c, s, a, s') && !IsHidden(s, k)
    ensures IsHidden(s', k) <==> Hides(c, s, a, k)
  {
    hide CommitStep, Restore, MergeRecords, Revert;
    if KeyOf(a).Some? {
      SingleRecordShows(c, s, a, s', k);
    } else {
      match a
      case APublish(q) => PublishHidesIff(c, s, q, s', k);
      case ARevert => RevertShows(c, s, s', k);
      case ARestore(v) => RestoreShows(c, s, v, s', k);
      case AMerge(_, _, _) => MergeShows(s, a, s', k);
      case _ => DraftStep(c, s, a, s');
    }
  }

  lemma SingleRecordShows(c: Schema, s: State, a: Action, s': State, k: Key)
    requires Kept(c, s) && KeyOf(a).Some? && Step(c, s, a, s') && !IsHidden(s, k)
    ensures !IsHidden(s', k)
  {
    hide Step;
    SingleRecord(c, s, a, s');
    SingleOwn(c, s, a, s');
  }

  lemma PublishHidesIff(c: Schema, s: State, q: Request, s': State, k: Key)
    requires Kept(c, s) && CommitStep(c, s, q, s') && !IsHidden(s, k)
    ensures IsHidden(s', k) <==> Hides(c, s, APublish(q), k)
  {
    if CommitError(c, s, q).None? && !NothingToCommit(c, s, q) {
      Integrity.FoldedRecords(c, s, q, s'.dim);
    }
  }

  lemma RevertShows(c: Schema, s: State, s': State, k: Key)
    requires s' == After(s, Revert(c, s)) && !IsHidden(s, k)
    ensures !IsHidden(s', k)
  {
    if Revert(c, s).Ok? {
      RevertedKey(c, s, s', k);
    }
  }

  lemma RestoreShows(c: Schema, s: State, v: int, s': State, k: Key)
    requires s' == After(s, Restore(c, s, v)) && !IsHidden(s, k)
    ensures !IsHidden(s', k)
  {
  }

  lemma MergeShows(s: State, a: Action, s': State, k: Key)
    requires a.AMerge? && s' == After(s, MergeRecords(s, a.survivor, a.losers, a.versions)) && !IsHidden(s, k)
    ensures !IsHidden(s', k)
  {
  }

  /** The converse of RemovalsAreListed: in every state of a run no publish of which
      hid k, a key listed as removed has no record. */
  lemma {:induction false} ListedAreGone(c: Schema, states: seq<State>, actions: seq<Action>, i: nat, k: Key)
    requires Run(c, states, actions) && i < |states| && Kept(c, states[0]) && !IsHidden(states[0], k)
    requires forall j | 0 <= j < i :: !Hides(c, states[j], actions[j], k)
    ensures k in states[i].stamps && states[i].stamps[k].retiredAt.Some? ==> k !in states[i].dim
  {
    hide Kept, Hides, Step;
    if i > 0 {
      ListedAreGone(c, states, actions, i - 1, k);
      RunKeeps(c, states, actions, i - 1);
      StepHidesIff(c, states[i - 1], actions[i - 1], states[i], k);
    }
  }

  // ------------------------------------------------------------- runs

  datatype Turn = Edit(action: Action) | Page(limit: nat, done: bool)

  /** The table and one consumer. */
  datatype World = World(table: State, reader: Consumer)

  ghost predicate Takes(c: Schema, w: World, t: Turn, w': World)
  {
    match t
    case Edit(a) => PositionsDistinct(w.table.dim) && Step(c, w.table, a, w'.table) && w'.reader == w.reader
    case Page(limit, done) => w'.table == w.table && Reads(w.table, limit, w.reader, w'.reader, done)
  }

  ghost predicate PullRun(c: Schema, worlds: seq<World>, turns: seq<Turn>)
  {
    && |worlds| == |turns| + 1
    && forall i | 0 <= i < |turns| :: Takes(c, worlds[i], turns[i], worlds[i + 1])
  }

  /** The start of a pull: everything, or everything since a time. */
  predicate IsStart(mark: Mark)
  {
    !mark.Past?
  }

  /** Every feed record of interest was copied as it is now, or is still ahead. */
  ghost predicate Caught(start: Mark, w: World)
  {
    forall k | k in Feed(w.table) && Beyond(start, RowOf(w.table, k)) ::
      (k in w.reader.copy && w.reader.copy[k] == Feed(w.table)[k]) || Beyond(w.reader.mark, RowOf(w.table, k))
  }

  /** Copied records that are in the feed are of interest still. */
  ghost predicate Current(start: Mark, w: World)
  {
    forall k | k in w.reader.copy ::
      (start.From? ==> start.at <= w.table.clock) && (k in Feed(w.table) ==> Beyond(start, RowOf(w.table, k)))
  }

  /** If k was copied, it is in the feed or was retired after `since`. */
  ghost predicate Accounted(since: int, w: World, k: Key)
  {
    k in w.reader.copy && k !in Feed(w.table) ==> RetiredAfter(w.table.stamps, k, since)
  }

  /** The cursor is the start, or lies in the past. */
  ghost predicate Behind(start: Mark, w: World)
  {
    w.reader.mark == start
    || (w.reader.mark.Past? && w.reader.mark.row.0 <= w.table.clock && Beyond(start, w.reader.mark.row))
  }

  ghost predicate Good(c: Schema, start: Mark, w: World)
  {
    Kept(c, w.table) && Caught(start, w) && Current(start, w) && Behind(start, w)
  }

  lemma ClockGrows(c: Schema, s: State, a: Action, s': State)
    requires Kept(c, s) && Step(c, s, a, s')
    ensures s.clock <= s'.clock
  {
    hide FoldedDim, FoldedMapping, ChangedKeys, MergedStamps, RestoredStamps, RevertedStamps, RevertedDim, CanonAll;
  }

  lemma EditKeepsGood(c: Schema, start: Mark, w: World, a: Action, w': World)
    requires IsStart(start) && Good(c, start, w) && Takes(c, w, Edit(a), w') && !Resurrects(c, w.table, a)
    ensures Good(c, start, w')
  {
    hide Step, Moved, Caught, Current, Behind, Resurrects;
    StepKeeps(c, w.table, a, w'.table);
    ClockGrows(c, w.table, a, w'.table);
    StepMovesIff(c, w.table, a, w'.table);
    EditKeepsReader(start, w, w');
  }

  /** The reader's side of an edit, from what the edit did to the feed. */
  lemma EditKeepsReader(start: Mark, w: World, w': World)
    requires IsStart(start) && w'.reader == w.reader && w.table.clock <= w'.table.clock
    requires Moved(w.table, w'.table) && Caught(start, w) && Current(start, w) && Behind(start, w)
    ensures Caught(start, w') && Current(start, w') && Behind(start, w')
  {
  }

  /** What a page does to the copy: its rows are copied as they are, the rest stays. */
  ghost predicate Copies(s: State, page: seq<RowKey>, copy: map<Key, Item>, copy': map<Key, Item>)
  {
    && (forall k | k in Feed(s) && RowOf(s, k) in page :: k in copy' && copy'[k] == Feed(s)[k])
    && (forall k | k in copy :: k in copy' && (copy'[k] == copy[k] || (k in Feed(s) && copy'[k] == Feed(s)[k])))
    && (forall k | k in copy' :: k in copy || (k in Feed(s) && RowOf(s, k) in page))
  }

  lemma ReceivedCopies(s: State, page: seq<RowKey>, copy: map<Key, Item>)
    requires forall r | r in page :: r.1 in Feed(s) && r == RowOf(s, r.1)
    ensures Copies(s, page, copy, Received(s, copy, page))
  {
    var copy' := Received(s, copy, page);
    forall k | k in Feed(s) && RowOf(s, k) in page
      ensures k in copy' && copy'[k] == Feed(s)[k]
    {
      assert RowOf(s, k).1 == k;
    }
  }

  /** A page leaves no row of interest behind: the last one leaves none ahead. */
  lemma PageCatches(start: Mark, w: World, page: seq<RowKey>, next: Option<RowKey>, limit: nat, w': World)
    requires Caught(start, w) && w'.table == w.table
    requires IsPage(FeedRows(w.table), w.reader.mark, limit, page, next)
    requires Copies(w.table, page, w.reader.copy, w'.reader.copy)
    requires w'.reader.mark == (if next.Some? then Past(next.value) else w.reader.mark)
    ensures Caught(start, w')
    ensures next.None? ==> forall k | k in Feed(w.table) && Beyond(start, RowOf(w.table, k)) ::
              k in w'.reader.copy && w'.reader.copy[k] == Feed(w.table)[k]
  {
    forall k | k in Feed(w.table) && Beyond(start, RowOf(w.table, k))
      ensures (k in w'.reader.copy && w'.reader.copy[k] == Feed(w.table)[k])
              || (next.Some? && Less(next.value, RowOf(w.table, k)))
    {
      assert RowOf(w.table, k) in FeedRows(w.table);
    }
  }

  /** A page request, taken apart. */
  lemma PageParts(start: Mark, w: World, limit: nat, done: bool, w': World)
    returns (page: seq<RowKey>, next: Option<RowKey>)
    requires IsStart(start) && StampedBy(w.table.stamps, w.table.clock) && Behind(start, w)
    requires Reads(w.table, limit, w.reader, w'.reader, done)
    ensures IsPage(FeedRows(w.table), w.reader.mark, limit, page, next) && done == next.None?
    ensures forall r | r in page ::
              r.1 in Feed(w.table) && r == RowOf(w.table, r.1) && r.0 <= w.table.clock && Beyond(start, r)
    ensures Copies(w.table, page, w.reader.copy, w'.reader.copy)
    ensures w'.reader.mark == (if next.Some? then Past(next.value) else w.reader.mark)
    ensures next.Some? ==> next.value in page
  {
    var s := w.table;
    page, next :| IsPage(FeedRows(s), w.reader.mark, limit, page, next)
      && (forall r | r in page :: r.1 in Feed(s))
      && w'.reader.copy == Received(s, w.reader.copy, page)
      && w'.reader.mark == (if next.Some? then Past(next.value) else w.reader.mark)
      && done == next.None?;
    forall r | r in page
      ensures r == RowOf(s, r.1) && r.0 <= s.clock && Beyond(start, r)
    {
      PageRowBeyondStart(start, w, r);
    }
    ReceivedCopies(s, page, w.reader.copy);
  }

  lemma PageKeepsGood(c: Schema, start: Mark, w: World, limit: nat, done: bool, w': World)
    requires IsStart(start) && Good(c, start, w) && Takes(c, w, Page(limit, done), w')
    ensures Good(c, start, w')
    ensures done ==> forall k | k in Feed(w'.table) && Beyond(start, RowOf(w'.table, k)) ::
                       k in w'.reader.copy && w'.reader.copy[k] == Feed(w'.table)[k]
  {
    hide Feed, RowOf, Step, Beyond, Caught, Current, Behind, Copies, IsPage;
    var page, next := PageParts(start, w, limit, done, w');
    PageCatches(start, w, page, next, limit, w');
    PageKeepsReader(start, w, page, next, w');
  }

  lemma PageKeepsReader(start: Mark, w: World, page: seq<RowKey>, next: Option<RowKey>, w': World)
    requires w'.table == w.table && Current(start, w) && Behind(start, w)
    requires Copies(w.table, page, w.reader.copy, w'.reader.copy)
    requires forall r | r in page :: r.0 <= w.table.clock && Beyond(start, r)
    requires w'.reader.mark == (if next.Some? then Past(next.value) else w.reader.mark)
    requires next.Some? ==> next.value in page
    ensures Current(start, w') && Behind(start, w')
  {
    hide Feed;
    if page != [] {
      assert page[0] in page;
    }
  }

  lemma PageRowBeyondStart(start: Mark, w: World, r: RowKey)
    requires IsStart(start) && Behind(start, w) && StampedBy(w.table.stamps, w.table.clock)
    requires r in FeedRows(w.table) && Beyond(w.reader.mark, r)
    ensures r.1 in Feed(w.table) && r == RowOf(w.table, r.1) && r.0 <= w.table.clock && Beyond(start, r)
  {
  }

  lemma {:induction false} GoodThroughout(c: Schema, start: Mark, worlds: seq<World>, turns: seq<Turn>, i: nat)
    requires PullRun(c, worlds, turns) && IsStart(start) && i < |worlds|
    requires Kept(c, worlds[0].table) && worlds[0].reader == Consumer(start, map[])
    requires forall j | 0 <= j < |turns| && turns[j].Edit? :: !Resurrects(c, worlds[j].table, turns[j].action)
    ensures Good(c, start, worlds[i])
  {
    hide Resurrects, Step, Reads;
    if i > 0 {
      GoodThroughout(c, start, worlds, turns, i - 1);
      TurnKeepsGood(c, start, worlds[i - 1], turns[i - 1], worlds[i]);
    }
  }

  lemma TurnKeepsGood(c: Schema, start: Mark, w: World, t: Turn, w': World)
    requires IsStart(start) && Good(c, start, w) && Takes(c, w, t, w')
    requires t.Edit? ==> !Resurrects(c, w.table, t.action)
    ensures Good(c, start, w')
  {
    hide Good, Step, Reads;
    match t
    case Edit(a) => EditKeepsGood(c, start, w, a, w');
    case Page(limit, done) => PageKeepsGood(c, start, w, limit, done, w');
  }

  /** A consumer pages the feed by the returned cursors while any edits interleave,
      none of which creates a record under a version row that is already live.
      When a response carries no cursor, its copy of every record that has a live
      version row, stamped at or after the start if that is a time, shows the record's
      label and cells as they are now, with its present version and stamp; and so does
      whatever else it holds of such records. */
  lemma PullIsComplete(c: Schema, start: Mark, worlds: seq<World>, turns: seq<Turn>, limit: nat, k: Key)
    requires PullRun(c, worlds, turns) && IsStart(start)
    requires Kept(c, worlds[0].table) && worlds[0].reader == Consumer(start, map[])
    requires forall j | 0 <= j < |turns| && turns[j].Edit? :: !Resurrects(c, worlds[j].table, turns[j].action)
    requires |turns| > 0 && turns[|turns| - 1] == Page(limit, true)
    requires var end := worlds[|turns|].table;
             k in end.dim && k in end.stamps && end.stamps[k].retiredAt.None?
    ensures var end, copy := worlds[|turns|].table, worlds[|turns|].reader.copy;
            && (start == Start || start.at <= end.stamps[k].updatedAt ==> k in copy)
            && (k in copy ==>
                  && copy[k].name == end.dim[k].name && copy[k].cells == end.dim[k].cells
                  && copy[k].version == end.stamps[k].version && copy[k].updatedAt == end.stamps[k].updatedAt)
  {
    hide Step, Kept, Resurrects;
    var n := |turns|;
    GoodThroughout(c, start, worlds, turns, n - 1);
    assert Takes(c, worlds[n - 1], turns[n - 1], worlds[n - 1 + 1]);
    PageKeepsGood(c, start, worlds[n - 1], limit, true, worlds[n]);
  }

  // ------------------------------------------------------------- removals

  /** What the tombstone half needs of a world: nothing about cursors. */
  ghost predicate Tallied(c: Schema, since: int, w: World, k: Key)
  {
    Kept(c, w.table) && since <= w.table.clock && Accounted(since, w, k)
  }

  lemma TurnKeepsTally(c: Schema, since: int, w: World, t: Turn, w': World, k: Key)
    requires Tallied(c, since, w, k) && Takes(c, w, t, w') && (t.Edit? ==> !Strands(c, w.table, t.action, k))
    ensures Tallied(c, since, w', k)
  {
    hide Step, Strands, Kept;
    if t.Edit? {
      StepKeeps(c, w.table, t.action, w'.table);
      ClockGrows(c, w.table, t.action, w'.table);
      StepBuriesIff(c, w.table, t.action, w'.table, k);
    }
  }

  lemma {:induction false} TalliedThroughout(c: Schema, worlds: seq<World>, turns: seq<Turn>, i: nat, k: Key)
    requires PullRun(c, worlds, turns) && i < |worlds|
    requires Kept(c, worlds[0].table) && worlds[0].reader.copy == map[]
    requires forall j | 0 <= j < i && turns[j].Edit? :: !Strands(c, worlds[j].table, turns[j].action, k)
    ensures Tallied(c, worlds[0].table.clock, worlds[i], k)
  {
    hide Strands, Step, Reads;
    if i > 0 {
      TalliedThroughout(c, worlds, turns, i - 1, k);
      TurnKeepsTally(c, worlds[0].table.clock, worlds[i - 1], turns[i - 1], worlds[i], k);
    }
  }

  /** At every moment of a pull, whatever edits interleave, as long as no revert so
      far stranded k: when the consumer holds k and the feed no longer shows it, it
      is listed as a tombstone of the time since the pull began. */
  lemma RemovalsAreListed(c: Schema, worlds: seq<World>, turns: seq<Turn>, i: nat, k: Key)
    requires PullRun(c, worlds, turns) && i < |worlds|
    requires Kept(c, worlds[0].table) && worlds[0].reader.copy == map[]
    requires forall j | 0 <= j < i && turns[j].Edit? :: !Strands(c, worlds[j].table, turns[j].action, k)
    requires k in worlds[i].reader.copy
    requires var s := worlds[i].table; !(k in s.dim && k in s.stamps && s.stamps[k].retiredAt.None?)
    ensures var stamps := worlds[i].table.stamps;
            k in stamps && stamps[k].retiredAt.Some? && stamps[k].retiredAt.value > worlds[0].table.clock
  {
    TalliedThroughout(c, worlds, turns, i, k);
  }

  /** What goes wrong otherwise: after a revert has left a live version row without
      a record, publishing a draft that creates the record again puts it into the
      feed behind every cursor that has reached the present. */
  lemma ResurrectedRecordIsMissed(c: Schema, s: State, q: Request, s': State, k: Key, mark: Mark)
    requires Kept(c, s) && Committed(c, s, q, s')
    requires k in NewKeys(s, q) && IsLive(s.stamps, k)
    requires mark.Past? && mark.row.0 >= s.clock && (mark.row.0 == s.clock ==> !LexLess(mark.row.1, k))
    ensures k in Feed(s') && k !in Feed(s) && !Beyond(mark, RowOf(s', k))
  {
    Integrity.FoldedRecords(c, s, q, s'.dim);
    assert s'.stamps == s.stamps;
    OldStampIsBehind(s, s', k, mark);
  }

  lemma OldStampIsBehind(s: State, s': State, k: Key, mark: Mark)
    requires StampedBy(s.stamps, s.clock) && s'.stamps == s.stamps && IsLive(s.stamps, k)
    requires k in s'.dim && k !in s.dim
    requires mark.Past? && mark.row.0 >= s.clock && (mark.row.0 == s.clock ==> !LexLess(mark.row.1, k))
    ensures k in Feed(s') && k !in Feed(s) && !Beyond(mark, RowOf(s', k))
  {
  }
}
