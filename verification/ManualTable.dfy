/** The position column of one manually ordered table, with the operations that
    write it: one UPDATE per statement, each checked by the unique index. */
module ManualTableModel {
  import opened Prelude
  import opened Ordering

  /** What a rebalance of `before`, whose list was `order`, may leave behind. */
  ghost predicate Rebalanced(before: Positions, order: seq<string>, after: Positions, r: Result<nat, Error>)
    requires Lists(before, order)
  {
    match r
    case Ok(n) =>
      && n == |order|
      && after == Respaced(before, order, |order|)
      && forall i | 0 <= i < |order| :: !SlotTaken(before, order, i)
    case Err(e) =>
      && e == UniqueViolation
      && exists i | 0 <= i < |order| && SlotTaken(before, order, i) ::
           && after == Respaced(before, order, i)
           && forall j | 0 <= j < i :: !SlotTaken(before, order, j)
  }

  /** A table has one list, so it does not matter which one is named. */
  lemma RebalancedForAll(before: Positions, order: seq<string>, after: Positions, r: Result<nat, Error>)
    requires Distinct(before) && Lists(before, order) && Rebalanced(before, order, after, r)
    ensures forall other | Lists(before, other) :: Rebalanced(before, other, after, r)
  {
    hide Distinct, Lists, Rebalanced;
    forall other | Lists(before, other)
      ensures other == order
    {
      ListUnique(before, other, order);
    }
  }

  /** The keys positioned above (or below) p. */
  function KeysBeyond(pos: Positions, p: int, above: bool): set<string>
  {
    set k | k in pos && pos[k].Some? && (if above then pos[k].value < p else pos[k].value > p)
  }

  /** The slot for a new row next to `anchor`. */
  function InsertSlot(pos: Positions, anchor: string, above: bool): Option<int>
    requires Distinct(pos) && anchor in pos
  {
    var at := pos[anchor];
    if at.None? then ComputeInsertPosition(None, None)
    else if above then ComputeInsertPosition(Highest(pos, KeysBeyond(pos, at.value, true)), at)
    else ComputeInsertPosition(at, Lowest(pos, KeysBeyond(pos, at.value, false)))
  }

  /** A slot found next to a positioned anchor puts the new row directly above
      (or below) it in the list. */
  lemma InsertSlotIsNeighbour(pos: Positions, order: seq<string>, k: string, anchor: string, above: bool, p: int)
    returns (i: nat)
    requires Distinct(pos) && Lists(pos, order)
    requires k !in pos && anchor in pos && pos[anchor].Some?
    requires InsertSlot(pos, anchor, above) == Some(p)
    ensures i < |order| && order[i] == anchor
    ensures Lists(pos[k := Some(p)], InsertedAt(order, k, if above then i else i + 1))
    ensures !Occupied(pos, k, p)
  {
    hide Distinct, InsertedAt;
    assert anchor in order;
    i :| 0 <= i < |order| && order[i] == anchor;
    assert pos - {k} == pos;
    var at := pos[anchor].value;
    if above && i > 0 {
      assert order[i - 1] in Placed(pos, KeysBeyond(pos, at, true));
    }
    if !above && i + 1 < |order| {
      assert order[i + 1] in Placed(pos, KeysBeyond(pos, at, false));
    }
    var j := if above then i else i + 1;
    InsertAtIndex(pos, order, k, p, j);
    ListedDistinct(pos[k := Some(p)], InsertedAt(order, k, j));
    SlotIsFree(pos, k, p);
  }

  lemma SlotIsFree(pos: Positions, k: string, p: int)
    requires Distinct(pos[k := Some(p)])
    ensures !Occupied(pos, k, p)
  {
    var moved := pos[k := Some(p)];
    assert k in moved && moved[k] == Some(p);
    forall other | other in pos && other != k
      ensures pos[other] != Some(p)
    {
      assert moved[other] == pos[other];
    }
  }

  /** Where a new row goes: 1024 when the anchor has no position; 1024 beyond the anchor
      when no row lies on that side; else the middle of the gap to the nearest row there,
      or nowhere when the gap has none. */
  lemma InsertSlotMeans(pos: Positions, anchor: string, above: bool, near: string)
    requires Distinct(pos) && anchor in pos
    ensures pos[anchor].None? ==> InsertSlot(pos, anchor, above) == Some(1024)
    ensures pos[anchor].Some? && above
            && (forall k | k in pos && pos[k].Some? :: pos[anchor].value <= pos[k].value) ==>
              InsertSlot(pos, anchor, above) == Some(pos[anchor].value - 1024)
    ensures pos[anchor].Some? && !above
            && (forall k | k in pos && pos[k].Some? :: pos[k].value <= pos[anchor].value) ==>
              InsertSlot(pos, anchor, above) == Some(pos[anchor].value + 1024)
    ensures pos[anchor].Some? && near in pos && pos[near].Some? && pos[near] != pos[anchor] ==>
              var at, edge := pos[anchor].value, pos[near].value;
              && (above && edge < at && (forall k | k in pos && pos[k].Some? :: !(edge < pos[k].value < at)) ==>
                    InsertSlot(pos, anchor, above) == if at - edge <= 1 then None else Some(edge + (at - edge) / 2))
              && (!above && at < edge && (forall k | k in pos && pos[k].Some? :: !(at < pos[k].value < edge)) ==>
                    InsertSlot(pos, anchor, above) == if edge - at <= 1 then None else Some(at + (edge - at) / 2))
  {
    if pos[anchor].Some? {
      var beyond := KeysBeyond(pos, pos[anchor].value, above);
      assert forall k :: k in Placed(pos, beyond) <==> k in beyond;
      if near in beyond {
        assert near in Placed(pos, beyond);
      }
    }
  }

  /** Next to a listed row of a re-spaced table there is always room. */
  lemma SpacedInsertSlot(pos: Positions, order: seq<string>, anchor: string, above: bool)
    requires Lists(pos, order) && anchor in pos && pos[anchor].Some?
    ensures var spaced := Respaced(pos, order, |order|);
            && Distinct(spaced) && spaced.Keys == pos.Keys && spaced[anchor].Some?
            && InsertSlot(spaced, anchor, above).Some?
  {
    var spaced := Respaced(pos, order, |order|);
    RespacedKeepsList(pos, order);
    assert anchor in order;
    var i :| 0 <= i < |order| && order[i] == anchor;
    var at := (i + 1) * STEP;
    assert spaced[anchor] == Some(at);
    forall k | k in spaced && spaced[k].Some? && spaced[k].value != at
      ensures spaced[k].value <= at - STEP || at + STEP <= spaced[k].value
    {
      assert k in order;
      var l :| 0 <= l < |order| && order[l] == k;
      assert spaced[k] == Some((l + 1) * STEP);
    }
    RoomBeside(spaced, anchor, at, above);
  }

  lemma RoomBeside(pos: Positions, anchor: string, at: int, above: bool)
    requires Distinct(pos) && anchor in pos && pos[anchor] == Some(at)
    requires forall k | k in pos && pos[k].Some? && pos[k].value != at ::
               pos[k].value <= at - STEP || at + STEP <= pos[k].value
    ensures InsertSlot(pos, anchor, above).Some?
  {
  }

  /** `order` lists what is no longer to do, which all comes before what is. */
  ghost predicate ListedSoFar(pos: Positions, order: seq<string>, todo: set<string>)
  {
    && Ascending(pos, order)
    && (forall k | k in pos && pos[k].Some? :: k in order || k in todo)
    && (forall k | k in todo :: k in pos && pos[k].Some?)
    && (forall a, k | a in order && k in todo :: a in pos && pos[a].Some? && pos[a].value < pos[k].value)
  }

  lemma NextLeast(pos: Positions, order: seq<string>, todo: set<string>, least: string)
    requires Distinct(pos) && ListedSoFar(pos, order, todo)
    requires least in todo && forall j | j in todo :: pos[least].value <= pos[j].value
    ensures ListedSoFar(pos, order + [least], todo - {least})
  {
    NextAscends(pos, order, least);
  }

  lemma NextAscends(pos: Positions, order: seq<string>, least: string)
    requires Ascending(pos, order) && least in pos && pos[least].Some?
    requires forall a | a in order :: pos[a].value < pos[least].value
    ensures Ascending(pos, order + [least])
  {
  }

  lemma SlotDistinct(pos: Positions, k: string, p: int)
    requires Distinct(pos)
    ensures !Occupied(pos, k, p) ==> Distinct(pos[k := Some(p)])
  {
  }

  class ManualTable {
    var pos: Positions

    constructor (pos: Positions)
      ensures this.pos == pos
    {
      this.pos := pos;
    }

    /** One UPDATE of one row's position; the unique index may refuse it. */
    method SetPosition(k: string, p: int) returns (ok: bool)
      requires k in pos
      modifies this
      ensures ok <==> !Occupied(old(pos), k, p)
      ensures pos == if ok then old(pos)[k := Some(p)] else old(pos)
    {
      ok := !(exists j | j in pos :: j != k && pos[j] == Some(p));
      if ok {
        pos := pos[k := Some(p)];
      }
    }

    /** The positioned keys in ascending order of position. */
    method ListKeys() returns (order: seq<string>)
      requires Distinct(pos)
      ensures Lists(pos, order)
    {
      order := [];
      var todo := Placed(pos, pos.Keys);
      while todo != {}
        invariant todo <= Placed(pos, pos.Keys) && ListedSoFar(pos, order, todo)
      {
        ExtremesExist(pos, todo);
        var k :| k in todo && forall j | j in todo :: pos[k].value <= pos[j].value;
        NextLeast(pos, order, todo, k);
        order := order + [k];
        todo := todo - {k};
      }
    }

    /** Re-space every positioned row, one autocommitted UPDATE at a time. */
    method Rebalance() returns (r: Result<nat, Error>)
      requires Distinct(pos)
      modifies this
      ensures Distinct(pos) && pos.Keys == old(pos).Keys
      ensures forall order | Lists(old(pos), order) :: Rebalanced(old(pos), order, pos, r)
    {
      hide Distinct, Occupied, SlotTaken;
      var order := ListKeys();
      var n := 0;
      while n < |order|
        invariant 0 <= n <= |order|
        invariant pos == Respaced(old(pos), order, n)
        invariant Distinct(pos) && pos.Keys == old(pos).Keys
        invariant forall j | 0 <= j < n :: !SlotTaken(old(pos), order, j)
      {
        NextSlotTaken(old(pos), order, n);
        RespacedAt(old(pos), order, n);
        SlotDistinct(pos, order[n], (n + 1) * STEP);
        var ok := SetPosition(order[n], (n + 1) * STEP);
        if !ok {
          RebalancedForAll(old(pos), order, pos, Err(UniqueViolation));
          return Err(UniqueViolation);
        }
        n := n + 1;
      }
      RebalancedForAll(old(pos), order, pos, Ok(|order|));
      return Ok(|order|);
    }

    /** One reorder transaction. */
    method TryReorder(row: string, before: Anchor, after: Anchor) returns (r: Result<Move, Error>)
      requires Distinct(pos)
      modifies this
      ensures r == Reorder(old(pos), row, before, after)
      ensures pos == if r.Ok? && r.value.MoveTo? then old(pos)[row := Some(r.value.at)] else old(pos)
      ensures Distinct(pos)
    {
      r := Reorder(pos, row, before, after);
      if r.Ok? && r.value.MoveTo? {
        var ok := SetPosition(row, r.value.at);
      }
    }

    /** The position route: reorder, and on "too tight" rebalance and retry once.
        Between two named rows a success is exactly the list move, whether or not
        a rebalance was needed; `MovedInList` says what every other success does;
        and a request that is merely too tight fails only when the rebalance itself
        collides. */
    method MoveRow(row: string, before: Anchor, after: Anchor, ghost order: seq<string>)
      returns (r: Result<Move, Error>)
      requires Distinct(pos) && Lists(pos, order)
      modifies this
      ensures Distinct(pos)
      ensures r.Ok? ==> MovedInList(old(pos), order, row, before, after, r.value, pos)
      ensures MerelyTight(old(pos), order, row, before, after) ==> r.Ok?
      ensures Reorder(old(pos), row, before, after) != Err(TooTight) ==>
                r == Reorder(old(pos), row, before, after) && (r.Err? ==> pos == old(pos))
    {
      ghost var start := pos;
      r := TryReorder(row, before, after);
      if r.Ok? {
        ListMove(start, order, row, before, after, r.value, pos);
      } else if r.error == TooTight {
        var spacing := Rebalance();
        assert Rebalanced(start, order, pos, spacing);
        if spacing.Err? {
          return Err(spacing.error);
        }
        ghost var spaced := pos;
        RespacedKeepsList(start, order);
        SpacedKeepsNamed(start, order, row, before, after);
        RetrySucceeds(start, order, row, before, after);
        r := TryReorder(row, before, after);
        if r.Ok? {
          ListMove(spaced, order, row, before, after, r.value, pos);
          RetriedMove(start, order, row, before, after, r.value, pos);
        }
      }
    }

    /** Insert a new row next to an anchor, rebalancing first when there is no
        room.  The anchor -+ 512 fallback after the rebalance is dead code: the
        slot next to the anchor of a re-spaced table always exists. */
    method InsertNextTo(k: string, anchor: string, above: bool, ghost order: seq<string>)
      returns (r: Result<int, Error>)
      requires Distinct(pos) && Lists(pos, order)
      modifies this
      ensures Distinct(pos)
      ensures r.Ok? ==> k !in old(pos) && anchor in old(pos)
      ensures r.Ok? && old(pos)[anchor].Some? ==> exists i :: PutNextTo(order, k, anchor, above, i, pos)
      ensures anchor !in old(pos) ==> r == Err(NotFound)
      ensures anchor in old(pos) && old(pos)[anchor].Some? && k !in old(pos) && r.Err? ==>
                InsertSlot(old(pos), anchor, above).None?
                && exists i | 0 <= i < |order| :: SlotTaken(old(pos), order, i)
      ensures anchor in old(pos) && InsertSlot(old(pos), anchor, above).Some? ==>
                (k in old(pos) ==> r == Err(AlreadyExists)) && (r.Err? ==> pos == old(pos))
    {
      ghost var start := pos;
      if anchor !in pos {
        return Err(NotFound);
      }
      var slot := InsertSlot(pos, anchor, above);
      if slot.None? {
        var spacing := Rebalance();
        assert Rebalanced(start, order, pos, spacing);
        if spacing.Err? {
          return Err(spacing.error);
        }
        SpacedInsertSlot(start, order, anchor, above);
        RespacedKeepsList(start, order);
        slot := InsertSlot(pos, anchor, above);
        assert slot.Some?;
      }
      r := InsertRow(k, slot.value, anchor, above, order);
    }

    /** INSERT ... ON CONFLICT (key) DO NOTHING, under the unique position index. */
    method InsertRow(k: string, p: int, ghost anchor: string, ghost above: bool, ghost order: seq<string>)
      returns (r: Result<int, Error>)
      requires Distinct(pos) && Lists(pos, order)
      requires anchor in pos && InsertSlot(pos, anchor, above) == Some(p)
      modifies this
      ensures Distinct(pos)
      ensures k in old(pos) ==> r == Err(AlreadyExists)
      ensures r.Err? ==> pos == old(pos)
      ensures r.Ok? ==> pos == old(pos)[k := Some(p)]
      ensures k !in old(pos) && old(pos)[anchor].Some? ==>
                r.Ok? && exists i :: PutNextTo(order, k, anchor, above, i, pos)
    {
      if k in pos {
        return Err(AlreadyExists);
      }
      if pos[anchor].Some? {
        ghost var i := InsertSlotIsNeighbour(pos, order, k, anchor, above, p);
        assert PutNextTo(order, k, anchor, above, i, pos[k := Some(p)]);
      }
      if exists j | j in pos :: pos[j] == Some(p) {
        return Err(UniqueViolation);
      }
      pos := pos[k := Some(p)];
      return Ok(p);
    }
  }

  /** A rebalance that fails keeps the list exactly when its first row is the one
      that fails, or the row it stopped at lies below the last slot it gave out. */
  lemma FailedRebalanceOrderIff(before: Positions, order: seq<string>, after: Positions, i: nat)
    requires Lists(before, order) && i < |order|
    requires SlotTaken(before, order, i) && forall j | 0 <= j < i :: !SlotTaken(before, order, j)
    requires Rebalanced(before, order, after, Err(UniqueViolation))
    ensures Lists(after, order) <==> i == 0 || i * STEP < before[order[i]].value
  {
    var stop :| 0 <= stop < |order| && SlotTaken(before, order, stop)
      && after == Respaced(before, order, stop) && forall j | 0 <= j < stop :: !SlotTaken(before, order, j);
    assert stop == i;
    RespacedOrderIff(before, order, i);
  }

  /** Both neighbours are named, positioned, and different from the row. */
  ghost predicate BetweenNamed(pos: Positions, row: string, before: Anchor, after: Anchor)
  {
    && before.Named? && after.Named? && before.key != row && after.key != row
    && before.key in pos && pos[before.key].Some? && after.key in pos && pos[after.key].Some?
  }

  /** A named neighbour without a position bounds nothing. */
  predicate Unplaced(pos: Positions, n: Anchor)
  {
    n.Named? && n.key in pos && pos[n.key].None?
  }

  predicate Anchored(pos: Positions, row: string, n: Anchor)
  {
    n.Named? && n.key != row && n.key in pos && pos[n.key].Some?
  }

  /** Only the row above the new place is given: "after b". */
  predicate OnlyUnder(pos: Positions, row: string, before: Anchor, after: Anchor)
  {
    Anchored(pos, row, before) && (after.Omitted? || Unplaced(pos, after))
  }

  /** Only the row below the new place is given: "before a", at the edge or not. */
  predicate OnlyOver(pos: Positions, row: string, before: Anchor, after: Anchor)
  {
    Anchored(pos, row, after) && (before.Omitted? || before.Edge? || Unplaced(pos, before))
  }

  /** Neither is given. */
  predicate Unanchored(pos: Positions, before: Anchor, after: Anchor)
  {
    && (before.Omitted? || Unplaced(pos, before) || (before.Edge? && after.Named?))
    && (after.Omitted? || Unplaced(pos, after))
  }

  /** What a successful reorder of `start` did to its list `order`.  "Not moved"
      leaves the list alone, and a move leaves the other rows in their order.
      Between two named rows the row is put exactly there; so it is at the bottom,
      and at the top when no row is named.  With one row given it is put a step away
      from that row, next to it exactly when nothing lies between; and a named top
      row is checked by nothing else. */
  ghost predicate MovedInList(start: Positions, order: seq<string>, row: string, before: Anchor, after: Anchor,
                              m: Move, end: Positions)
  {
    var rest := Without(order, row);
    && (m.Stay? ==> Lists(end, order))
    && (m.MoveTo? ==> KeepsOthers(rest, row, end))
    && (BetweenNamed(start, row, before, after) && m.MoveTo? ==>
          exists j :: PutBetween(rest, row, before.key, after.key, j, end))
    && (!before.Edge? && after.Edge? ==> m.MoveTo? && Lists(end, rest + [row]))
    && (before.Edge? && !after.Named? ==> m.MoveTo? && Lists(end, [row] + rest))
    && (OnlyUnder(start, row, before, after) ==>
          && m == MoveTo(start[before.key].value + STEP)
          && (LandsUnder(rest, row, before.key, end) <==> NoneBetween(start, row, start[before.key].value, m.at)))
    && (OnlyOver(start, row, before, after) ==>
          && m == MoveTo(start[after.key].value - STEP)
          && (LandsOver(rest, row, after.key, end) <==> NoneBetween(start, row, m.at, start[after.key].value))
          && (Lists(end, [row] + rest) <==>
                forall k | k in start && k != row && start[k].Some? :: m.at < start[k].value))
    && (Unanchored(start, before, after) ==> m == MoveTo(STEP))
  }

  /** The other rows keep their order around the moved one. */
  ghost predicate KeepsOthers(rest: seq<string>, row: string, end: Positions)
  {
    exists j :: PutAt(rest, row, j, end)
  }

  ghost predicate PutAt(rest: seq<string>, row: string, j: int, end: Positions)
  {
    0 <= j <= |rest| && Lists(end, InsertedAt(rest, row, j))
  }

  ghost predicate PutBetween(rest: seq<string>, row: string, b: string, a: string, j: int, end: Positions)
  {
    0 < j < |rest| && rest[j - 1] == b && rest[j] == a && Lists(end, InsertedAt(rest, row, j))
  }

  /** Two named rows in the right order with no room between them, in a table
      whose rebalance meets no collision. */
  ghost predicate MerelyTight(pos: Positions, order: seq<string>, row: string, before: Anchor, after: Anchor)
    requires Distinct(pos)
  {
    && BetweenNamed(pos, row, before, after)
    && pos[before.key].value < pos[after.key].value
    && Reorder(pos, row, before, after) == Err(TooTight)
    && forall i | 0 <= i < |order| :: !SlotTaken(pos, order, i)
  }

  lemma ListMove(pos: Positions, order: seq<string>, row: string, before: Anchor, after: Anchor,
                 m: Move, end: Positions)
    requires Distinct(pos) && Lists(pos, order)
    requires Reorder(pos, row, before, after) == Ok(m)
    requires end == if m.MoveTo? then pos[row := Some(m.at)] else pos
    ensures MovedInList(pos, order, row, before, after, m, end)
  {
    if m.MoveTo? {
      var i := PlaceFor(pos, order, row, m.at);
      assert PutAt(Without(order, row), row, i, end);
      if BetweenNamed(pos, row, before, after) {
        var j := MoveBetween(pos, order, row, before.key, after.key, m.at);
        assert PutBetween(Without(order, row), row, before.key, after.key, j, end);
      }
    }
    if !before.Edge? && after.Edge? {
      MoveToBottom(pos, order, row, before, m.at);
    }
    if before.Edge? && !after.Named? {
      MoveToTop(pos, order, row, after, m.at);
    }
    OneSidedMove(pos, order, row, before, after, m, end);
  }

  lemma OneSidedMove(pos: Positions, order: seq<string>, row: string, before: Anchor, after: Anchor,
                     m: Move, end: Positions)
    requires Distinct(pos) && Lists(pos, order)
    requires Reorder(pos, row, before, after) == Ok(m)
    requires end == if m.MoveTo? then pos[row := Some(m.at)] else pos
    ensures var rest := Without(order, row);
            && (OnlyUnder(pos, row, before, after) ==>
                  && m == MoveTo(pos[before.key].value + STEP)
                  && (LandsUnder(rest, row, before.key, end) <==> NoneBetween(pos, row, pos[before.key].value, m.at)))
            && (OnlyOver(pos, row, before, after) ==>
                  && m == MoveTo(pos[after.key].value - STEP)
                  && (LandsOver(rest, row, after.key, end) <==> NoneBetween(pos, row, m.at, pos[after.key].value))
                  && (Lists(end, [row] + rest) <==>
                        forall k | k in pos && k != row && pos[k].Some? :: m.at < pos[k].value))
            && (Unanchored(pos, before, after) ==> m == MoveTo(STEP))
  {
    hide Distinct, Lists, Reorder, Occupied, LandsUnder, LandsOver, NoneBetween, Without;
    OneSidedSlot(pos, row, before, after, m);
    if OnlyUnder(pos, row, before, after) {
      UnderIff(pos, order, row, before.key, m.at);
    }
    if OnlyOver(pos, row, before, after) {
      OverIff(pos, order, row, after.key, m.at);
      WithoutLists(pos, order, row);
      ListedFirst(pos, Without(order, row), row, m.at);
    }
  }

  /** With at most one row given, the slot is a step away from it. */
  lemma OneSidedSlot(pos: Positions, row: string, before: Anchor, after: Anchor, m: Move)
    requires Distinct(pos) && Reorder(pos, row, before, after) == Ok(m)
    ensures OnlyUnder(pos, row, before, after) ==> m == MoveTo(pos[before.key].value + STEP)
    ensures OnlyOver(pos, row, before, after) ==> m == MoveTo(pos[after.key].value - STEP)
    ensures Unanchored(pos, before, after) ==> m == MoveTo(STEP)
    ensures m.MoveTo? ==> !Occupied(pos, row, m.at)
  {
  }

  /** "Too tight" needs two bounds, so a move that was retried was between two rows
      that were given and placed. */
  lemma TightIsBounded(pos: Positions, row: string, before: Anchor, after: Anchor)
    requires Distinct(pos) && Reorder(pos, row, before, after) == Err(TooTight)
    ensures before.Named? && after.Named?
    ensures !OnlyUnder(pos, row, before, after) && !OnlyOver(pos, row, before, after) && !Unanchored(pos, before, after)
  {
  }

  lemma RetriedMove(pos: Positions, order: seq<string>, row: string, before: Anchor, after: Anchor,
                    m: Move, end: Positions)
    requires Distinct(pos) && Lists(pos, order) && Reorder(pos, row, before, after) == Err(TooTight)
    requires MovedInList(Respaced(pos, order, |order|), order, row, before, after, m, end)
    ensures MovedInList(pos, order, row, before, after, m, end)
  {
    TightIsBounded(pos, row, before, after);
    SpacedKeepsNamed(pos, order, row, before, after);
  }

  lemma SpacedKeepsNamed(pos: Positions, order: seq<string>, row: string, before: Anchor, after: Anchor)
    requires Lists(pos, order)
    ensures BetweenNamed(pos, row, before, after) ==>
              BetweenNamed(Respaced(pos, order, |order|), row, before, after)
  {
    RespacedKeepsList(pos, order);
    if BetweenNamed(pos, row, before, after) {
      assert before.key in order && after.key in order;
    }
  }

  lemma RetrySucceeds(pos: Positions, order: seq<string>, row: string, before: Anchor, after: Anchor)
    requires Distinct(pos) && Lists(pos, order)
    ensures Distinct(Respaced(pos, order, |order|))
    ensures MerelyTight(pos, order, row, before, after) ==>
              Reorder(Respaced(pos, order, |order|), row, before, after).Ok?
  {
    RespacedKeepsList(pos, order);
    if MerelyTight(pos, order, row, before, after) {
      var i := RetryFindsSlot(pos, order, row, before.key, after.key);
    }
  }

  /** The new row sits directly above (or below) the anchor. */
  ghost predicate PutNextTo(order: seq<string>, k: string, anchor: string, above: bool, i: int, end: Positions)
  {
    0 <= i < |order| && order[i] == anchor && Lists(end, InsertedAt(order, k, if above then i else i + 1))
  }
}
