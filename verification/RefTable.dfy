/** One reference table as a value: its records (dim_), value mappings (map_),
    drafts, record_version stamps and tombstones, numbered snapshots and publish
    events, with one function or relation per transaction.  A transaction either
    commits, with its own reading of a strictly increasing clock, or leaves
    everything unchanged. */
module RefTable {
  import opened Prelude
  import opened Ordering
  import Links

  type Key = string
  type Raw = string
  type User = string
  type Field = string

  datatype Value = Null | Val(text: string)

  /** A row of dim_, or the JSON object of a row inside a snapshot.  `cells` are
      the columns added by users; a snapshot row also holds formula columns. */
  datatype Row = Row(name: Option<string>, position: Option<int>, cells: map<Field, Value>)

  datatype Status = Mapped | Skipped | Rejected

  datatype Draft = Draft(status: Status, target: Option<Key>, name: Option<string>, createdAt: int,
                         rejection: Option<(string, User)>)

  /** The primary key of a draft within the table: the value and its author. */
  type DraftId = (Raw, User)

  datatype Stamp = Stamp(version: int, updatedAt: int, retiredAt: Option<int>, retiredInto: Option<Key>)

  datatype Kind = Publish | Rollback

  datatype Snapshot = Snapshot(version: int, kind: Kind, restores: Option<int>,
                               records: map<Key, Row>, mappings: map<Raw, Key>)

  /** A table.published event. */
  datatype Event = Event(version: int, occurredAt: int)

  /** What stays fixed while the table is in use: the physical user columns, the
      formula columns (which have no dim_ column), the columns that link back to
      the table itself, and the table's settings. */
  datatype Schema = Schema(fields: set<Field>, formulas: set<Field>, selfLinks: set<Field>,
                           manual: bool, labelRequired: bool, lower: Raw -> Raw)
  {
    ghost predicate WellFormed()
    {
      fields !! formulas && selfLinks <= fields
    }
  }

  datatype State = State(dim: map<Key, Row>, mapping: map<Raw, Key>, drafts: map<DraftId, Draft>,
                         stamps: map<Key, Stamp>, snaps: seq<Snapshot>, events: seq<Event>, clock: int)
  {
    /** now() of the transaction that runs next. */
    function Now(): int { clock + 1 }
  }

  const EMPTY := State(map[], map[], map[], map[], [], [], 0)

  // ------------------------------------------------------------- record stamps

  /** A version row that is not a tombstone. */
  predicate IsLive(stamps: map<Key, Stamp>, k: Key)
  {
    k in stamps && stamps[k].retiredAt.None?
  }

  /** The version clients see: records without a live version row report 1. */
  function VisibleVersion(stamps: map<Key, Stamp>, k: Key): int
  {
    if IsLive(stamps, k) then stamps[k].version else 1
  }

  /** A new record: version 1, or one more than its tombstone, live again. */
  function Seeded(stamps: map<Key, Stamp>, k: Key, now: int): Stamp
  {
    if k in stamps then Stamp(stamps[k].version + 1, now, None, None) else Stamp(1, now, None, None)
  }

  /** A cell edit: bump the version but leave the retire columns alone. */
  function Edited(stamps: map<Key, Stamp>, k: Key, now: int): Stamp
  {
    if k in stamps then stamps[k].(version := stamps[k].version + 1, updatedAt := now)
    else Stamp(1, now, None, None)
  }

  /** A reorder: stamp without bumping. */
  function Touched(stamps: map<Key, Stamp>, k: Key, now: int): Stamp
  {
    if k in stamps then stamps[k].(updatedAt := now) else Stamp(1, now, None, None)
  }

  /** The guarded bump behind rename and retire, with its lazy seed. */
  function Bumped(s: State, k: Key, expected: int): Result<map<Key, Stamp>, Error>
  {
    if IsLive(s.stamps, k) then
      if s.stamps[k].version == expected then Ok(s.stamps[k := Edited(s.stamps, k, s.Now())])
      else Err(Conflict)
    else if k in s.dim && expected == 1 then
      Ok(s.stamps[k := if k in s.stamps then Seeded(s.stamps, k, s.Now()) else Stamp(2, s.Now(), None, None)])
    else Err(NotFound)
  }

  // ------------------------------------------------------------- drafts

  function SaveDraft(s: State, raw: Raw, status: Status, target: Option<Key>, name: Option<string>, user: User): State
  {
    s.(drafts := s.drafts[(raw, user) := Draft(status, target, name, s.Now(), None)], clock := s.Now())
  }

  function DiscardDraft(s: State, raw: Raw, user: User): State
  {
    if (raw, user) in s.drafts then s.(drafts := s.drafts - {(raw, user)}, clock := s.Now()) else s
  }

  /** A draft picked out of the queue: a value, or one author's draft of it. */
  datatype Selector = Selector(raw: Raw, user: Option<User>)

  predicate Selected(sel: seq<Selector>, id: DraftId)
  {
    exists p | p in sel :: p.raw == id.0 && (p.user.None? || p.user.value == id.1)
  }

  /** The mapped drafts that a selection picks. */
  function Picked(s: State, sel: seq<Selector>): set<DraftId>
  {
    set id | id in s.drafts && s.drafts[id].status.Mapped? && Selected(sel, id)
  }

  /** Turn the picked drafts down.  `reason` is already trimmed. */
  function RejectDrafts(s: State, sel: seq<Selector>, reason: string, rejectedBy: User): Result<State, Error>
  {
    if reason == "" then Err(ValidationFailed)
    else if sel == [] then Ok(s)
    else
      Ok(s.(drafts := map id | id in s.drafts ::
              if id in Picked(s, sel) then s.drafts[id].(status := Rejected, rejection := Some((reason, rejectedBy)))
              else s.drafts[id],
            clock := s.Now()))
  }

  // ------------------------------------------------------------- record edits

  function Positions(dim: map<Key, Row>): Ordering.Positions
  {
    map k | k in dim :: dim[k].position
  }

  function BlankCells(c: Schema): map<Field, Value>
  {
    map f | f in c.fields :: Null
  }

  /** The unique index on positions. */
  predicate PositionsDistinct(dim: map<Key, Row>)
  {
    Distinct(Positions(dim))
  }

  /** Add one record.  `key` is already resolved; an empty key is ignored. */
  function AddRecord(c: Schema, s: State, key: Key, name: string): Result<State, Error>
    requires PositionsDistinct(s.dim)
  {
    if key == "" then Ok(s)
    else if key in s.dim then Err(AlreadyExists)
    else
      var position := if c.manual then Some(NextPosition(Positions(s.dim))) else None;
      Ok(s.(dim := s.dim[key := Row(Some(name), position, BlankCells(c))],
            stamps := s.stamps[key := Seeded(s.stamps, key, s.Now())],
            clock := s.Now()))
  }

  function Relabelled(dim: map<Key, Row>, key: Key, name: string): map<Key, Row>
  {
    if key in dim then dim[key := dim[key].(name := Some(name))] else dim
  }

  function RenameRecord(s: State, key: Key, name: string, expected: int): Result<State, Error>
  {
    match Bumped(s, key, expected)
    case Err(e) => Err(e)
    case Ok(stamps) => Ok(s.(dim := Relabelled(s.dim, key, name), stamps := stamps, clock := s.Now()))
  }

  /** The parent pointers held in one self-linked column. */
  function Parents(dim: map<Key, Row>, f: Field): map<Key, Key>
  {
    map k | k in dim && f in dim[k].cells && dim[k].cells[f].Val? :: dim[k].cells[f].text
  }

  /** What a self-linked column stores for a requested parent: nothing when the
      target does not exist, and no value at all when it would close a loop. */
  ghost function LinkedValue(dim: map<Key, Row>, f: Field, key: Key, value: Value): Result<Value, Error>
  {
    if value.Null? || value.text !in dim then Ok(Null)
    else if value.text == key || Links.Above(Parents(dim, f), value.text, key) then Err(HierarchyCycle)
    else Ok(value)
  }

  function WithCell(s: State, key: Key, f: Field, value: Value): State
  {
    if key !in s.dim then s
    else
      s.(dim := s.dim[key := s.dim[key].(cells := s.dim[key].cells[f := value])],
         stamps := s.stamps[key := Edited(s.stamps, key, s.Now())],
         clock := s.Now())
  }

  /** Set one user column of one record. */
  ghost function SetField(c: Schema, s: State, key: Key, f: Field, value: Value): Result<State, Error>
  {
    if f !in c.fields then Ok(s)
    else if f in c.selfLinks then
      match LinkedValue(s.dim, f, key, value)
      case Err(e) => Err(e)
      case Ok(v) => Ok(WithCell(s, key, f, v))
    else Ok(WithCell(s, key, f, value))
  }

  /** Move one row of a manually ordered table. */
  function ReorderRecord(c: Schema, s: State, key: Key, before: Anchor, after: Anchor): Result<State, Error>
    requires PositionsDistinct(s.dim)
  {
    if !c.manual then Err(Conflict)
    else
      match Reorder(Positions(s.dim), key, before, after)
      case Err(e) => Err(e)
      case Ok(Stay(_)) => Ok(s)
      case Ok(MoveTo(p)) =>
        assert key in s.dim;
        Ok(s.(dim := s.dim[key := s.dim[key].(position := Some(p))],
              stamps := s.stamps[key := Touched(s.stamps, key, s.Now())],
              clock := s.Now()))
  }

  // ------------------------------------------------------------- merge, retire

  /** The losers that count: not empty and not the survivor. */
  function RealLosers(survivor: Key, losers: seq<Key>): set<Key>
  {
    set l | l in losers && l != "" && l != survivor
  }

  function Repointed(mapping: map<Raw, Key>, losers: set<Key>, survivor: Key): map<Raw, Key>
  {
    map r | r in mapping :: if mapping[r] in losers then survivor else mapping[r]
  }

  predicate VersionsMatch(stamps: map<Key, Stamp>, keys: set<Key>, expected: map<Key, int>)
  {
    forall k | k in keys :: IsLive(stamps, k) && k in expected && stamps[k].version == expected[k]
  }

  /** Losers become tombstones that name the survivor, whose version is bumped. */
  function MergedStamps(stamps: map<Key, Stamp>, gone: set<Key>, survivor: Key, now: int): map<Key, Stamp>
  {
    map k | k in stamps ::
      if k in gone then Stamp(stamps[k].version + 1, now, Some(now), Some(survivor))
      else if k == survivor then Edited(stamps, k, now)
      else stamps[k]
  }

  function MergeRecords(s: State, survivor: Key, losers: seq<Key>, expected: map<Key, int>): Result<State, Error>
  {
    var gone := RealLosers(survivor, losers);
    if gone == {} then Ok(s)
    else if !VersionsMatch(s.stamps, gone + {survivor}, expected) then Err(Conflict)
    else
      Ok(s.(mapping := Repointed(s.mapping, gone, survivor),
            dim := s.dim - gone,
            stamps := MergedStamps(s.stamps, gone, survivor, s.Now()),
            clock := s.Now()))
  }

  function RetireRecord(s: State, key: Key, expected: int): Result<State, Error>
  {
    if exists r | r in s.mapping :: s.mapping[r] == key then Err(StillMapped)
    else
      match Bumped(s, key, expected)
      case Err(e) => Err(e)
      case Ok(stamps) =>
        Ok(s.(dim := s.dim - {key},
              stamps := stamps[key := stamps[key].(retiredAt := Some(s.Now()), retiredInto := None)],
              clock := s.Now()))
  }

  // ------------------------------------------------------------- pending changes

  /** max(occurred_at) of the publish events. */
  function LastPublish(events: seq<Event>): (at: int)
    requires |events| > 0
    ensures forall i | 0 <= i < |events| :: events[i].occurredAt <= at
    ensures exists i | 0 <= i < |events| :: events[i].occurredAt == at
  {
    var last := events[|events| - 1].occurredAt;
    if |events| == 1 then last
    else
      var earlier := LastPublish(events[..|events| - 1]);
      if earlier > last then earlier else last
  }

  /** The snapshot with the highest version. */
  function Head(snaps: seq<Snapshot>): (head: Snapshot)
    requires |snaps| > 0
    ensures head in snaps
    ensures forall x | x in snaps :: x.version <= head.version
  {
    var last := snaps[|snaps| - 1];
    if |snaps| == 1 then last
    else
      var earlier := Head(snaps[..|snaps| - 1]);
      assert forall x | x in snaps :: x == last || x in snaps[..|snaps| - 1];
      if earlier.version > last.version then earlier else last
  }

  function HeadRecords(s: State): map<Key, Row>
  {
    if |s.snaps| == 0 then map[] else Head(s.snaps).records
  }

  function HeadMappings(s: State): map<Raw, Key>
  {
    if |s.snaps| == 0 then map[] else Head(s.snaps).mappings
  }

  /** A row reduced to the physical columns, absent cells reading as null. */
  function Canon(c: Schema, row: Row): Row
  {
    row.(cells := map f | f in c.fields :: if f in row.cells then row.cells[f] else Null)
  }

  function CanonAll(c: Schema, rows: map<Key, Row>): map<Key, Row>
  {
    map k | k in rows :: Canon(c, rows[k])
  }

  /** Does record k differ between two sets of rows, on physical columns? */
  predicate Differs(c: Schema, a: map<Key, Row>, b: map<Key, Row>, k: Key)
  {
    if k in a && k in b then Canon(c, a[k]) != Canon(c, b[k]) else k in a || k in b
  }

  /** Has k been stamped since `since`? */
  predicate StampedSince(stamps: map<Key, Stamp>, k: Key, since: int)
  {
    k in stamps &&
    (stamps[k].updatedAt > since || (stamps[k].retiredAt.Some? && stamps[k].retiredAt.value > since))
  }

  /** The stamp-driven change set: every record before the first publish, then
      the stamped keys whose values are not back to the head snapshot's. */
  function ChangedKeys(c: Schema, s: State): set<Key>
  {
    if |s.events| == 0 then s.dim.Keys
    else
      var since := LastPublish(s.events);
      set k | k in s.stamps && StampedSince(s.stamps, k, since) && Differs(c, HeadRecords(s), s.dim, k)
  }

  /** The reference definition: compare every record with the head snapshot. */
  function FullDiff(c: Schema, s: State): set<Key>
  {
    set k | k in s.dim.Keys + HeadRecords(s).Keys && Differs(c, HeadRecords(s), s.dim, k)
  }

  // ------------------------------------------------------------- commit

  /** One publish request.  `blocked` is the verdict of the validation gate,
      `fourEyes` the second-publisher preference, and `computed` the formula
      results injected into the snapshot. */
  datatype Request = Request(user: User, scope: Option<seq<Selector>>, onlyAuthor: Option<User>,
                             kind: Kind, restores: Option<int>, blocked: bool, fourEyes: bool,
                             computed: map<(Key, Field), Value>)

  /** Drafts inside the request's scope, before their target is looked at. */
  predicate InScope(s: State, q: Request, id: DraftId)
  {
    && id in s.drafts && s.drafts[id].status.Mapped?
    && (q.scope.None? || Selected(q.scope.value, id))
    && (q.onlyAuthor.None? || q.onlyAuthor.value == id.1)
  }

  predicate IsEligible(s: State, q: Request, id: DraftId)
  {
    InScope(s, q, id) && s.drafts[id].target.Some?
  }

  function Eligible(s: State, q: Request): set<DraftId>
  {
    set id | id in s.drafts && IsEligible(s, q, id)
  }

  function Target(s: State, id: DraftId): Key
    requires id in s.drafts && s.drafts[id].target.Some?
  {
    s.drafts[id].target.value
  }

  /** A selector that no longer matches a waiting draft. */
  predicate HasMissingSelector(s: State, q: Request)
  {
    q.scope.Some? && exists p | p in q.scope.value :: !exists id | id in Eligible(s, q) :: Selected([p], id)
  }

  predicate HasOwnDraft(s: State, q: Request)
  {
    q.user != "u_system" && exists id | id in Eligible(s, q) :: id.1 == q.user
  }

  /** Target keys that the fold has to create. */
  function NewKeys(s: State, q: Request): set<Key>
  {
    set id | id in Eligible(s, q) && Target(s, id) !in s.dim :: Target(s, id)
  }

  /** Two drafts give one new key different labels: the insert hits the primary key. */
  predicate LabelsClash(s: State, q: Request)
  {
    exists a, b | a in Eligible(s, q) && b in Eligible(s, q) ::
      Target(s, a) !in s.dim && Target(s, a) == Target(s, b) && s.drafts[a].name != s.drafts[b].name
  }

  predicate LabelMissing(s: State, q: Request)
  {
    exists a | a in Eligible(s, q) :: Target(s, a) !in s.dim && s.drafts[a].name.None?
  }

  function NextVersion(s: State): int { |s.events| + 1 }

  predicate VersionTaken(snaps: seq<Snapshot>, v: int)
  {
    exists x | x in snaps :: x.version == v
  }

  /** Why a request is refused, in the order the code decides; None means that it
      goes through or has nothing to do. */
  function CommitError(c: Schema, s: State, q: Request): Option<Error>
  {
    if HasMissingSelector(s, q) then Some(ValidationFailed)
    else if NothingToCommit(c, s, q) then None
    else if q.kind.Publish? && q.blocked then Some(ValidationFailed)
    else if q.fourEyes && HasOwnDraft(s, q) then Some(SecondPublisherRequired)
    else if LabelsClash(s, q) then Some(UniqueViolation)
    else if c.labelRequired && LabelMissing(s, q) then Some(NotNullViolation)
    else if VersionTaken(s.snaps, NextVersion(s)) then Some(UniqueViolation)
    else None
  }

  predicate NothingToCommit(c: Schema, s: State, q: Request)
  {
    Eligible(s, q) == {} && ChangedKeys(c, s) == {}
  }

  /** The drafts that fold onto one lower-cased value. */
  function Group(c: Schema, s: State, q: Request, folded: Raw): set<DraftId>
  {
    set id | id in Eligible(s, q) && c.lower(id.0) == folded
  }

  /** ORDER BY created_at DESC, user_id: does a come before b? */
  predicate Beats(s: State, a: DraftId, b: DraftId)
    requires a in s.drafts && b in s.drafts
  {
    s.drafts[a].createdAt > s.drafts[b].createdAt
    || (s.drafts[a].createdAt == s.drafts[b].createdAt && LexLess(a.1, b.1))
  }

  /** A draft of the group that no other draft of the group beats. */
  predicate IsNewest(c: Schema, s: State, q: Request, id: DraftId)
  {
    id in Eligible(s, q) && forall other | other in Group(c, s, q, c.lower(id.0)) :: !Beats(s, other, id)
  }

  predicate HasFold(c: Schema, mapping: map<Raw, Key>, folded: Raw)
  {
    exists m | m in mapping :: c.lower(m) == folded
  }

  /** The UPDATE ... FROM of an existing mapping row: any eligible draft of the
      value that asks for a different target may be the one applied. */
  ghost predicate Remaps(c: Schema, s: State, q: Request, r: Raw, to: Key)
    requires r in s.mapping
  {
    if exists id | id in Group(c, s, q, c.lower(r)) :: Target(s, id) != s.mapping[r]
    then exists id | id in Group(c, s, q, c.lower(r)) :: Target(s, id) != s.mapping[r] && Target(s, id) == to
    else to == s.mapping[r]
  }

  /** The mapping table after the fold. */
  ghost predicate FoldedMapping(c: Schema, s: State, q: Request, after: map<Raw, Key>)
  {
    // existing rows
    && (forall r | r in s.mapping :: r in after && Remaps(c, s, q, r, after[r]))
    // a new row comes from the newest draft of a value that had no row
    && (forall r | r in after && r !in s.mapping ::
          && !HasFold(c, s.mapping, c.lower(r))
          && exists id | id in Eligible(s, q) :: id.0 == r && IsNewest(c, s, q, id) && after[r] == Target(s, id))
    // one new row for each value that had none
    && (forall id | id in Eligible(s, q) && !HasFold(c, s.mapping, c.lower(id.0)) :: HasFold(c, after, c.lower(id.0)))
    && (forall a, b | a in after && b in after && a !in s.mapping && b !in s.mapping && c.lower(a) == c.lower(b) ::
          a == b)
  }

  /** MIN(created_at) of the drafts that create k, as a lower bound that is met. */
  ghost predicate FirstSeen(s: State, q: Request, k: Key, at: int)
  {
    && (exists id | id in Eligible(s, q) :: Target(s, id) == k && s.drafts[id].createdAt == at)
    && (forall id | id in Eligible(s, q) && Target(s, id) == k :: at <= s.drafts[id].createdAt)
  }

  /** The row_number() order of new keys: first seen first, then by key. */
  ghost predicate SeenBefore(s: State, q: Request, a: Key, b: Key)
  {
    exists i, j :: FirstSeen(s, q, a, i) && FirstSeen(s, q, b, j) && (i < j || (i == j && LexLess(a, b)))
  }

  ghost predicate NewKeyOrder(s: State, q: Request, order: seq<Key>)
  {
    && (forall k :: k in order <==> k in NewKeys(s, q))
    && (forall i, j | 0 <= i < j < |order| :: SeenBefore(s, q, order[i], order[j]) && order[i] != order[j])
  }

  /** COALESCE(MAX(position), 0). */
  function TopPosition(dim: map<Key, Row>): int
    requires PositionsDistinct(dim)
  {
    NextPosition(Positions(dim)) - STEP
  }

  /** The records after the fold: old rows as they were, new keys with their
      draft's label, no values, and in manual mode a slot at the bottom. */
  ghost predicate FoldedDim(c: Schema, s: State, q: Request, order: seq<Key>, after: map<Key, Row>)
    requires PositionsDistinct(s.dim)
  {
    && NewKeyOrder(s, q, order)
    && after.Keys == s.dim.Keys + NewKeys(s, q)
    && (forall k | k in s.dim :: after[k] == s.dim[k])
    && (forall id | id in Eligible(s, q) && Target(s, id) !in s.dim ::
          after[Target(s, id)].name == s.drafts[id].name && after[Target(s, id)].cells == BlankCells(c))
    && (forall i | 0 <= i < |order| ::
          after[order[i]].position == if c.manual then Some(TopPosition(s.dim) + STEP * (i + 1)) else None)
  }

  /** Formula results written into a snapshot row. */
  function WithComputed(c: Schema, computed: map<(Key, Field), Value>, k: Key, row: Row): Row
  {
    row.(cells := map f | f in row.cells.Keys + c.formulas ::
      if f in c.formulas then (if (k, f) in computed then computed[(k, f)] else Null) else row.cells[f])
  }

  function TakeSnapshot(c: Schema, q: Request, v: int, dim: map<Key, Row>, mapping: map<Raw, Key>): Snapshot
  {
    Snapshot(v, q.kind, q.restores, map k | k in dim :: WithComputed(c, q.computed, k, dim[k]), mapping)
  }

  /** A commit that goes through: fold, clear the drafts, snapshot, event. */
  ghost predicate Committed(c: Schema, s: State, q: Request, s': State)
    requires PositionsDistinct(s.dim)
  {
    && (exists order :: FoldedDim(c, s, q, order, s'.dim))
    && FoldedMapping(c, s, q, s'.mapping)
    && s'.drafts == (map id | id in s.drafts && !InScope(s, q, id) :: s.drafts[id])
    && s'.stamps == s.stamps
    && s'.snaps == s.snaps + [TakeSnapshot(c, q, NextVersion(s), s'.dim, s'.mapping)]
    && s'.events == s.events + [Event(NextVersion(s), s.Now())]
    && s'.clock == s.Now()
  }

  ghost predicate CommitStep(c: Schema, s: State, q: Request, s': State)
    requires PositionsDistinct(s.dim)
  {
    if CommitError(c, s, q).Some? || NothingToCommit(c, s, q) then s' == s
    else Committed(c, s, q, s')
  }

  // ------------------------------------------------------------- revert, restore

  /** The records after the changed keys are put back from the head snapshot. */
  function RevertedDim(c: Schema, s: State): map<Key, Row>
  {
    var changed := ChangedKeys(c, s);
    map k | k in s.dim.Keys + HeadRecords(s).Keys
            && (k in changed ==> k in HeadRecords(s)) && (k !in changed ==> k in s.dim)
      :: if k in changed then Canon(c, HeadRecords(s)[k]) else s.dim[k]
  }

  function RevertedStamp(dim: map<Key, Row>, k: Key, st: Stamp, now: int): Stamp
  {
    var bumped := st.(version := st.version + 1, updatedAt := now);
    if k in dim then bumped.(retiredAt := None, retiredInto := None) else bumped
  }

  function RevertedStamps(stamps: map<Key, Stamp>, changed: set<Key>, dim: map<Key, Row>, now: int): map<Key, Stamp>
  {
    map k | k in stamps :: if k in changed then RevertedStamp(dim, k, stamps[k], now) else stamps[k]
  }

  /** Put every record with unpublished changes back to the last version. */
  function Revert(c: Schema, s: State): Result<State, Error>
  {
    if |s.events| == 0 || |s.snaps| == 0 then Err(NothingToRevertTo)
    else
      var changed := ChangedKeys(c, s);
      if changed == {} then Ok(s)
      else
        var dim := RevertedDim(c, s);
        if !PositionsDistinct(dim) then Err(UniqueViolation)
        else
          Ok(s.(dim := dim,
                stamps := RevertedStamps(s.stamps, changed, dim, s.Now()),
                clock := s.Now()))
  }

  predicate HasVersion(s: State, v: int)
  {
    VersionTaken(s.snaps, v)
  }

  /** The stored snapshot of a version (its number is unique). */
  function SnapshotOf(snaps: seq<Snapshot>, v: int): (snap: Snapshot)
    requires VersionTaken(snaps, v)
    ensures snap in snaps && snap.version == v
  {
    if snaps[0].version == v then snaps[0] else SnapshotOf(snaps[1..], v)
  }

  /** The stamps after a restore: snapshot keys live, other live keys retired. */
  function RestoredStamps(stamps: map<Key, Stamp>, keys: set<Key>, now: int): map<Key, Stamp>
  {
    map k | k in stamps.Keys + keys ::
      if k in keys then Seeded(stamps, k, now)
      else if stamps[k].retiredAt.None? then stamps[k].(retiredAt := Some(now), retiredInto := None)
      else stamps[k]
  }

  /** The first transaction of a rollback: replace the working copy. */
  function Restore(c: Schema, s: State, v: int): Result<State, Error>
  {
    if !HasVersion(s, v) then Err(NoSnapshot)
    else
      var snap := SnapshotOf(s.snaps, v);
      var dim := CanonAll(c, snap.records);
      if !PositionsDistinct(dim) then Err(UniqueViolation)
      else
        Ok(s.(dim := dim,
              mapping := snap.mappings,
              stamps := RestoredStamps(s.stamps, snap.records.Keys, s.Now()),
              clock := s.Now()))
  }

  // ------------------------------------------------------------- runs

  datatype Action =
    | ASave(raw: Raw, status: Status, target: Option<Key>, name: Option<string>, user: User)
    | ADiscard(raw: Raw, user: User)
    | AReject(sel: seq<Selector>, reason: string, rejectedBy: User)
    | AAdd(key: Key, title: string)
    | ARename(key: Key, title: string, expected: int)
    | AEdit(key: Key, field: Field, value: Value)
    | AReorder(key: Key, before: Anchor, after: Anchor)
    | AMerge(survivor: Key, losers: seq<Key>, versions: map<Key, int>)
    | ARetire(key: Key, expected: int)
    | APublish(request: Request)
    | ARestore(version: int)
    | ARevert

  /** A refused transaction leaves everything unchanged. */
  function After(s: State, r: Result<State, Error>): State
  {
    if r.Ok? then r.value else s
  }

  /** One committed or refused transaction. */
  ghost predicate Step(c: Schema, s: State, a: Action, s': State)
    requires PositionsDistinct(s.dim)
  {
    match a
    case ASave(raw, status, target, name, user) => s' == SaveDraft(s, raw, status, target, name, user)
    case ADiscard(raw, user) => s' == DiscardDraft(s, raw, user)
    case AReject(sel, reason, rejectedBy) => s' == After(s, RejectDrafts(s, sel, reason, rejectedBy))
    case AAdd(key, title) => s' == After(s, AddRecord(c, s, key, title))
    case ARename(key, title, expected) => s' == After(s, RenameRecord(s, key, title, expected))
    case AEdit(key, field, value) => s' == After(s, SetField(c, s, key, field, value))
    case AReorder(key, before, after) => s' == After(s, ReorderRecord(c, s, key, before, after))
    case AMerge(survivor, losers, versions) => s' == After(s, MergeRecords(s, survivor, losers, versions))
    case ARetire(key, expected) => s' == After(s, RetireRecord(s, key, expected))
    case APublish(q) => CommitStep(c, s, q, s')
    case ARestore(v) => s' == After(s, Restore(c, s, v))
    case ARevert => s' == After(s, Revert(c, s))
  }
}
