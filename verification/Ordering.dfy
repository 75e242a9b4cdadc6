/** Manual ordering: sparse integer positions under a unique index, moves that
    pick a free integer, and the row-by-row rebalance that makes room. */
module Ordering {
  import opened Prelude

  /** One entry per record; None is a NULL position. */
  type Positions = map<string, Option<int>>

  /** What the caller passes for a neighbour: nothing (undefined), the edge of
      the list (null), or a key. */
  datatype Anchor = Omitted | Edge | Named(key: string)

  datatype Move = Stay(at: int) | MoveTo(at: int)

  const STEP := 1024

  /** The unique index on non-NULL positions. */
  predicate Distinct(pos: Positions)
  {
    forall a, b | a in pos && b in pos && a != b && pos[a].Some? && pos[b].Some? :: pos[a].value != pos[b].value
  }

  /** The position of a record, where it has one. */
  predicate At(pos: Positions, k: string, p: int)
  {
    k in pos && pos[k] == Some(p)
  }

  ghost predicate Ascending(pos: Positions, order: seq<string>)
  {
    && (forall i | 0 <= i < |order| :: order[i] in pos && pos[order[i]].Some?)
    && (forall i, j | 0 <= i < j < |order| :: pos[order[i]].value < pos[order[j]].value)
  }

  ghost predicate Covers(pos: Positions, order: seq<string>)
  {
    forall k | k in pos && pos[k].Some? :: k in order
  }

  /** `order` lists the positioned records from top to bottom. */
  ghost predicate Lists(pos: Positions, order: seq<string>)
  {
    Ascending(pos, order) && Covers(pos, order)
  }

  /** A free slot between two neighbours, or None when the gap has no room.
      BigInt division truncates; the gap is positive here, so `/` agrees. */
  function ComputeInsertPosition(above: Option<int>, below: Option<int>): (slot: Option<int>)
    ensures slot.None? <==> above.Some? && below.Some? && below.value - above.value <= 1
    ensures slot.Some? && above.Some? ==> above.value < slot.value
    ensures slot.Some? && below.Some? ==> slot.value < below.value
  {
    if above.None? && below.None? then Some(STEP)
    else if above.None? then Some(below.value - STEP)
    else if below.None? then Some(above.value + STEP)
    else
      var gap := below.value - above.value;
      if gap <= 1 then None else Some(above.value + gap / 2)
  }

  function Placed(pos: Positions, keys: set<string>): set<string>
  {
    set k | k in keys && k in pos && pos[k].Some?
  }

  lemma {:induction false} ExtremesExist(pos: Positions, keys: set<string>)
    requires keys != {} && forall k | k in keys :: k in pos && pos[k].Some?
    ensures exists k | k in keys :: forall j | j in keys :: pos[k].value <= pos[j].value
    ensures exists k | k in keys :: forall j | j in keys :: pos[k].value >= pos[j].value
    decreases keys
  {
    var x :| x in keys;
    var rest := keys - {x};
    if rest == {} {
      assert keys == {x};
    } else {
      ExtremesExist(pos, rest);
      var lo :| lo in rest && forall j | j in rest :: pos[lo].value <= pos[j].value;
      var hi :| hi in rest && forall j | j in rest :: pos[hi].value >= pos[j].value;
      var lo' := if pos[x].value < pos[lo].value then x else lo;
      var hi' := if pos[x].value > pos[hi].value then x else hi;
      assert forall j | j in keys :: j == x || j in rest;
      assert lo' in keys && forall j | j in keys :: pos[lo'].value <= pos[j].value;
      assert hi' in keys && forall j | j in keys :: pos[hi'].value >= pos[j].value;
    }
  }

  /** MIN(position) over some rows. */
  function Lowest(pos: Positions, keys: set<string>): (p: Option<int>)
    requires Distinct(pos)
    ensures p.None? <==> Placed(pos, keys) == {}
    ensures p.Some? ==> exists k | k in Placed(pos, keys) :: pos[k] == p
    ensures forall k | k in Placed(pos, keys) :: p.value <= pos[k].value
  {
    var placed := Placed(pos, keys);
    if placed == {} then None
    else
      ExtremesExist(pos, placed);
      var k :| k in placed && forall j | j in placed :: pos[k].value <= pos[j].value;
      pos[k]
  }

  /** MAX(position) over some rows. */
  function Highest(pos: Positions, keys: set<string>): (p: Option<int>)
    requires Distinct(pos)
    ensures p.None? <==> Placed(pos, keys) == {}
    ensures p.Some? ==> exists k | k in Placed(pos, keys) :: pos[k] == p
    ensures forall k | k in Placed(pos, keys) :: p.value >= pos[k].value
  {
    var placed := Placed(pos, keys);
    if placed == {} then None
    else
      ExtremesExist(pos, placed);
      var k :| k in placed && forall j | j in placed :: pos[k].value >= pos[j].value;
      pos[k]
  }

  /** The slot for a row appended at the bottom: above every position in use. */
  function NextPosition(pos: Positions): (p: int)
    requires Distinct(pos)
    ensures forall k | k in pos && pos[k].Some? :: pos[k].value <= p - STEP
    ensures Placed(pos, pos.Keys) == {} ==> p == STEP
  {
    var top := Highest(pos, pos.Keys);
    assert forall k | k in pos && pos[k].Some? :: k in Placed(pos, pos.Keys);
    (if top.None? then 0 else top.value) + STEP
  }

  /** Does a row other than `row` sit at p? */
  predicate Occupied(pos: Positions, row: string, p: int)
  {
    exists k :: k in pos && k != row && pos[k] == Some(p)
  }

  /** The decision of one reorder request: stay, move to a position, or refuse. */
  function Reorder(pos: Positions, row: string, before: Anchor, after: Anchor): Result<Move, Error>
    requires Distinct(pos)
  {
    if row !in pos then Err(NotFound)
    else if before.Named? && before.key !in pos then Err(NotFound)
    else if after.Named? && after.key !in pos then Err(NotFound)
    else
      var others := pos.Keys - {row};
      var toBottom := after.Edge? && !before.Edge?;
      var pBefore :=
        if toBottom then Highest(pos, others)
        else if before.Named? then pos[before.key]
        else None;
      var pAfter :=
        if toBottom then None
        else if after.Named? then pos[after.key]
        else if before.Edge? then Lowest(pos, others)
        else None;
      var bounded := pBefore.Some? && pAfter.Some?;
      if bounded && exists k :: k in others && pos[k].Some? && pBefore.value < pos[k].value < pAfter.value then
        Err(Conflict)
      else if bounded && pos[row].Some? && pBefore.value < pos[row].value < pAfter.value then
        Ok(Stay(pos[row].value))
      else
        match ComputeInsertPosition(pBefore, pAfter)
        case None => Err(TooTight)
        case Some(p) => if Occupied(pos, row, p) then Err(UniqueViolation) else Ok(MoveTo(p))
  }

  // ---------------------------------------------------------------- lists

  /** The list with one key taken out; everything else keeps its order. */
  function Without(order: seq<string>, k: string): (rest: seq<string>)
    ensures forall x :: x in rest <==> x in order && x != k
  {
    if order == [] then []
    else if order[0] == k then Without(order[1..], k)
    else [order[0]] + Without(order[1..], k)
  }

  lemma {:induction false} WithoutAbsent(order: seq<string>, k: string)
    requires k !in order
    ensures Without(order, k) == order
  {
    if order != [] {
      WithoutAbsent(order[1..], k);
    }
  }

  lemma {:induction false} WithoutAt(order: seq<string>, k: string, i: nat)
    requires i < |order| && order[i] == k
    requires k !in order[..i] && k !in order[i + 1..]
    ensures Without(order, k) == order[..i] + order[i + 1..]
  {
    if i == 0 {
      WithoutAbsent(order[1..], k);
    } else {
      assert order[0] == order[..i][0];
      assert order[1..][..i - 1] == order[..i][1..];
      assert order[1..][i..] == order[i + 1..];
      WithoutAt(order[1..], k, i - 1);
    }
  }

  lemma WithoutSplit(pos: Positions, order: seq<string>, k: string)
    returns (i: nat)
    requires Lists(pos, order) && k in order
    ensures i < |order| && order[i] == k && Without(order, k) == order[..i] + order[i + 1..]
  {
    i :| 0 <= i < |order| && order[i] == k;
    assert forall j | 0 <= j < |order| && j != i :: order[j] != k by {
      forall j | 0 <= j < |order| && j != i
        ensures order[j] != k
      {
        if j < i {
          assert pos[order[j]].value < pos[order[i]].value;
        } else {
          assert pos[order[i]].value < pos[order[j]].value;
        }
      }
    }
    WithoutAt(order, k, i);
  }

  lemma WithoutLists(pos: Positions, order: seq<string>, k: string)
    requires Lists(pos, order)
    ensures Lists(pos - {k}, Without(order, k))
  {
    if k in order {
      var i := WithoutSplit(pos, order, k);
    } else {
      WithoutAbsent(order, k);
    }
  }

  lemma HeadIsLeast(pos: Positions, a: seq<string>, k: string)
    requires Lists(pos, a) && k in pos && pos[k].Some?
    ensures |a| > 0 && pos[a[0]].value <= pos[k].value
  {
    assert k in a;
    var i :| 0 <= i < |a| && a[i] == k;
  }

  lemma TailLists(pos: Positions, a: seq<string>)
    requires Lists(pos, a) && |a| > 0
    ensures Lists(pos - {a[0]}, a[1..])
  {
    var rest := pos - {a[0]};
    assert forall i | 0 < i < |a| :: pos[a[0]].value < pos[a[i]].value;
    assert Ascending(rest, a[1..]);
    forall k | k in rest && rest[k].Some?
      ensures k in a[1..]
    {
      assert k in a;
    }
  }

  /** A table has one list: positions are distinct integers. */
  lemma {:induction false} ListUnique(pos: Positions, a: seq<string>, b: seq<string>)
    requires Distinct(pos) && Lists(pos, a) && Lists(pos, b)
    ensures a == b
    decreases |a|
  {
    hide Covers;
    if |b| > 0 {
      HeadIsLeast(pos, a, b[0]);
    }
    if |a| > 0 {
      SameHead(pos, a, b);
      TailLists(pos, a);
      TailLists(pos, b);
      ListUnique(pos - {a[0]}, a[1..], b[1..]);
      assert a == [a[0]] + a[1..] && b == [b[0]] + b[1..];
    }
  }

  lemma SameHead(pos: Positions, a: seq<string>, b: seq<string>)
    requires Distinct(pos) && Lists(pos, a) && Lists(pos, b) && |a| > 0
    ensures |b| > 0 && a[0] == b[0]
  {
    HeadIsLeast(pos, b, a[0]);
    HeadIsLeast(pos, a, b[0]);
  }

  /** The list with `row` put in at index j. */
  function InsertedAt(rest: seq<string>, row: string, j: nat): (list: seq<string>)
    requires j <= |rest|
    ensures |list| == |rest| + 1 && list[j] == row
    ensures forall i | 0 <= i < j :: list[i] == rest[i]
    ensures forall i | j < i < |list| :: list[i] == rest[i - 1]
  {
    rest[..j] + [row] + rest[j..]
  }

  /** Giving `row` a position between rest[j-1] and rest[j] inserts it at index j. */
  lemma InsertAtIndex(pos: Positions, rest: seq<string>, row: string, p: int, j: nat)
    requires Lists(pos - {row}, rest) && j <= |rest|
    requires j > 0 ==> pos[rest[j - 1]].value < p
    requires j < |rest| ==> p < pos[rest[j]].value
    ensures Lists(pos[row := Some(p)], InsertedAt(rest, row, j))
  {
    hide Ascending, Covers, InsertedAt;
    InsertedAscends(pos, rest, row, p, j);
    InsertedCovers(pos, rest, row, p, j);
  }

  lemma InsertedAscends(pos: Positions, rest: seq<string>, row: string, p: int, j: nat)
    requires Ascending(pos - {row}, rest) && j <= |rest|
    requires j > 0 ==> pos[rest[j - 1]].value < p
    requires j < |rest| ==> p < pos[rest[j]].value
    ensures Ascending(pos[row := Some(p)], InsertedAt(rest, row, j))
  {
    var moved := pos[row := Some(p)];
    forall i | 0 <= i < |rest|
      ensures rest[i] in moved && moved[rest[i]] == pos[rest[i]] && pos[rest[i]].Some?
      ensures if i < j then pos[rest[i]].value < p else p < pos[rest[i]].value
    {
      assert rest[i] in pos - {row};
    }
    AscendsAround(moved, rest, row, p, j);
  }

  lemma AscendsAround(moved: Positions, rest: seq<string>, row: string, p: int, j: nat)
    requires Ascending(moved, rest) && j <= |rest| && row in moved && moved[row] == Some(p)
    requires forall i | 0 <= i < |rest| :: if i < j then moved[rest[i]].value < p else p < moved[rest[i]].value
    ensures Ascending(moved, InsertedAt(rest, row, j))
  {
    hide InsertedAt;
    var list := InsertedAt(rest, row, j);
    assert forall i | 0 <= i < |list| :: list[i] == if i < j then rest[i] else if i == j then row else rest[i - 1];
  }

  lemma InsertedCovers(pos: Positions, rest: seq<string>, row: string, p: int, j: nat)
    requires Covers(pos - {row}, rest) && j <= |rest|
    ensures Covers(pos[row := Some(p)], InsertedAt(rest, row, j))
  {
    var moved, list := pos[row := Some(p)], InsertedAt(rest, row, j);
    forall k | k in moved && moved[k].Some?
      ensures k in list
    {
      if k != row {
        assert k in pos - {row};
        var i :| 0 <= i < |rest| && rest[i] == k;
        assert list[if i < j then i else i + 1] == k;
      }
    }
  }

  /** Consecutive in a list: nothing positioned lies strictly between. */
  lemma NeighboursInList(pos: Positions, order: seq<string>, b: string, a: string)
    returns (j: nat)
    requires Lists(pos, order)
    requires b in pos && pos[b].Some? && a in pos && pos[a].Some? && pos[b].value < pos[a].value
    requires forall k | k in pos && pos[k].Some? :: !(pos[b].value < pos[k].value < pos[a].value)
    ensures 0 < j < |order| && order[j - 1] == b && order[j] == a
  {
    assert a in order && b in order;
    j :| 0 <= j < |order| && order[j] == a;
    var i :| 0 <= i < |order| && order[i] == b;
    assert i < j;
    assert pos[order[i]].value < pos[order[i + 1]].value;
    assert !(pos[b].value < pos[order[i + 1]].value < pos[a].value);
    assert i + 1 >= j;
  }

  /** A move between two named neighbours is the list move that puts the row
      directly between them; every other row keeps its relative order. */
  lemma MoveBetween(pos: Positions, order: seq<string>, row: string, b: string, a: string, p: int)
    returns (j: nat)
    requires Distinct(pos) && Lists(pos, order)
    requires b != row && a != row
    requires b in pos && pos[b].Some? && a in pos && pos[a].Some?
    requires Reorder(pos, row, Named(b), Named(a)) == Ok(MoveTo(p))
    ensures var rest := Without(order, row);
            && 0 < j < |rest| && rest[j - 1] == b && rest[j] == a
            && Lists(pos[row := Some(p)], InsertedAt(rest, row, j))
  {
    hide Reorder, Distinct, Lists, InsertedAt, Without;
    var rest := Without(order, row);
    WithoutLists(pos, order, row);
    BetweenIsFree(pos, row, b, a, p);
    j := NeighboursInList(pos - {row}, rest, b, a);
    InsertAtIndex(pos, rest, row, p, j);
  }

  lemma BetweenIsFree(pos: Positions, row: string, b: string, a: string, p: int)
    requires Distinct(pos) && b != row && a != row
    requires b in pos && pos[b].Some? && a in pos && pos[a].Some?
    requires Reorder(pos, row, Named(b), Named(a)) == Ok(MoveTo(p))
    ensures pos[b].value < p < pos[a].value
    ensures forall k | k in pos && k != row && pos[k].Some? :: !(pos[b].value < pos[k].value < pos[a].value)
  {
  }

  /** Staying means the row already sits directly between the two neighbours. */
  lemma StayMeansBetween(pos: Positions, order: seq<string>, row: string, b: string, a: string, p: int)
    returns (j: nat)
    requires Distinct(pos) && Lists(pos, order)
    requires Reorder(pos, row, Named(b), Named(a)) == Ok(Stay(p))
    ensures 0 < j < |order| - 1 && order[j - 1] == b && order[j] == row && order[j + 1] == a
  {
    j := NeighboursInList(pos, order, b, row);
    var l := NeighboursInList(pos, order, row, a);
    assert l - 1 == j;
  }

  /** "Move to bottom" puts the row last, whatever `before` says. */
  lemma MoveToBottom(pos: Positions, order: seq<string>, row: string, before: Anchor, p: int)
    requires Distinct(pos) && Lists(pos, order) && !before.Edge?
    requires Reorder(pos, row, before, Edge) == Ok(MoveTo(p))
    ensures Lists(pos[row := Some(p)], Without(order, row) + [row])
  {
    hide Reorder, Distinct, Without, InsertedAt;
    var rest := Without(order, row);
    WithoutLists(pos, order, row);
    BottomSlot(pos, row, before, p);
    if |rest| > 0 {
      assert rest[|rest| - 1] in pos - {row};
    }
    InsertAtIndex(pos, rest, row, p, |rest|);
    assert InsertedAt(rest, row, |rest|) == rest + [row];
  }

  lemma BottomSlot(pos: Positions, row: string, before: Anchor, p: int)
    requires Distinct(pos) && !before.Edge? && Reorder(pos, row, before, Edge) == Ok(MoveTo(p))
    ensures forall k | k in pos && k != row && pos[k].Some? :: pos[k].value < p
  {
    forall k | k in pos && k != row && pos[k].Some?
      ensures pos[k].value < p
    {
      assert k in Placed(pos, pos.Keys - {row});
    }
  }

  lemma TopSlot(pos: Positions, row: string, after: Anchor, p: int)
    requires Distinct(pos) && !after.Named? && Reorder(pos, row, Edge, after) == Ok(MoveTo(p))
    ensures forall k | k in pos && k != row && pos[k].Some? :: p < pos[k].value
  {
    forall k | k in pos && k != row && pos[k].Some?
      ensures p < pos[k].value
    {
      assert k in Placed(pos, pos.Keys - {row});
    }
  }

  /** "Move to top" without a named `after` puts the row first. */
  lemma MoveToTop(pos: Positions, order: seq<string>, row: string, after: Anchor, p: int)
    requires Distinct(pos) && Lists(pos, order) && !after.Named?
    requires Reorder(pos, row, Edge, after) == Ok(MoveTo(p))
    ensures Lists(pos[row := Some(p)], [row] + Without(order, row))
  {
    hide Reorder, Distinct, Without, InsertedAt;
    var rest := Without(order, row);
    WithoutLists(pos, order, row);
    TopSlot(pos, row, after, p);
    if |rest| > 0 {
      assert rest[0] in pos - {row};
    }
    InsertAtIndex(pos, rest, row, p, 0);
    assert InsertedAt(rest, row, 0) == [row] + rest;
  }

  /** A row is listed first exactly when it sits above every other row. */
  lemma ListedFirst(pos: Positions, rest: seq<string>, row: string, p: int)
    requires Lists(pos - {row}, rest)
    ensures Lists(pos[row := Some(p)], [row] + rest) <==>
            forall k | k in pos && k != row && pos[k].Some? :: p < pos[k].value
  {
    var top := [row] + rest;
    var moved := pos[row := Some(p)];
    if forall k | k in pos && k != row && pos[k].Some? :: p < pos[k].value {
      if |rest| > 0 {
        assert rest[0] in pos - {row};
      }
      InsertAtIndex(pos, rest, row, p, 0);
      assert InsertedAt(rest, row, 0) == top;
    }
    if Lists(moved, top) {
      forall k | k in pos && k != row && pos[k].Some?
        ensures p < pos[k].value
      {
        assert k in moved && moved[k].Some?;
        HeadIsLeast(moved, top, k);
        assert k in top;
        var i :| 0 <= i < |top| && top[i] == k;
        assert top[0] == row && 0 < i;
        assert moved[top[0]].value < moved[top[i]].value;
      }
    }
  }

  /** Wherever a row is put, the others keep their order around it, and the list
      places it by its position. */
  ghost predicate PlacedBy(pos: Positions, rest: seq<string>, row: string, p: int, j: int)
    requires Lists(pos - {row}, rest)
  {
    && 0 <= j <= |rest| && Lists(pos[row := Some(p)], InsertedAt(rest, row, j))
    && (forall i | 0 <= i < j :: pos[rest[i]].value < p)
    && (forall i | j <= i < |rest| :: p < pos[rest[i]].value)
  }

  lemma PlaceFor(pos: Positions, order: seq<string>, row: string, p: int) returns (j: nat)
    requires Lists(pos, order) && !Occupied(pos, row, p)
    ensures Lists(pos - {row}, Without(order, row)) && PlacedBy(pos, Without(order, row), row, p, j)
  {
    var rest := Without(order, row);
    WithoutLists(pos, order, row);
    assert forall i | 0 <= i < |rest| :: rest[i] in pos - {row} && pos[rest[i]] != Some(p);
    j := FirstAbove(pos - {row}, rest, p);
    InsertAtIndex(pos, rest, row, p, j);
  }

  /** Where p belongs among the positions of a list that does not have it. */
  lemma FirstAbove(pos: Positions, rest: seq<string>, p: int) returns (j: nat)
    requires Lists(pos, rest) && forall i | 0 <= i < |rest| :: pos[rest[i]] != Some(p)
    ensures j <= |rest| && forall i | 0 <= i < j :: pos[rest[i]].value < p
    ensures forall i | j <= i < |rest| :: p < pos[rest[i]].value
  {
    j := 0;
    while j < |rest| && pos[rest[j]].value < p
      invariant j <= |rest| && forall i | 0 <= i < j :: pos[rest[i]].value < p
    {
      j := j + 1;
    }
    if j < |rest| {
      assert pos[rest[j]] == Some(pos[rest[j]].value);
      assert forall i | j < i < |rest| :: pos[rest[j]].value < pos[rest[i]].value;
    }
  }

  /** The row sits directly below (or above) `b` in the list `end`. */
  ghost predicate PutUnder(rest: seq<string>, row: string, b: string, j: int, end: Positions)
  {
    0 < j <= |rest| && rest[j - 1] == b && Lists(end, InsertedAt(rest, row, j))
  }

  ghost predicate PutOver(rest: seq<string>, row: string, a: string, j: int, end: Positions)
  {
    0 <= j < |rest| && rest[j] == a && Lists(end, InsertedAt(rest, row, j))
  }

  ghost predicate LandsUnder(rest: seq<string>, row: string, b: string, end: Positions)
  {
    exists j :: PutUnder(rest, row, b, j, end)
  }

  ghost predicate LandsOver(rest: seq<string>, row: string, a: string, end: Positions)
  {
    exists j :: PutOver(rest, row, a, j, end)
  }

  /** No row other than `row` lies strictly between two positions. */
  ghost predicate NoneBetween(pos: Positions, row: string, lo: int, hi: int)
  {
    forall k | k in pos && k != row && pos[k].Some? :: !(lo < pos[k].value < hi)
  }

  /** A position below b puts the row directly below b exactly when no other row
      lies between. */
  lemma UnderIff(pos: Positions, order: seq<string>, row: string, b: string, p: int)
    requires Lists(pos, order) && !Occupied(pos, row, p)
    requires b in pos && b != row && pos[b].Some? && pos[b].value < p
    ensures LandsUnder(Without(order, row), row, b, pos[row := Some(p)]) <==> NoneBetween(pos, row, pos[b].value, p)
  {
    WithoutLists(pos, order, row);
    if NoneBetween(pos, row, pos[b].value, p) {
      var j := PlaceFor(pos, order, row, p);
      PlacedUnder(pos, Without(order, row), row, b, p, j);
    }
    var rest, end := Without(order, row), pos[row := Some(p)];
    if LandsUnder(rest, row, b, end) {
      var j :| PutUnder(rest, row, b, j, end);
      UnderIsNext(pos, rest, row, b, p, j);
    }
  }

  lemma PlacedUnder(pos: Positions, rest: seq<string>, row: string, b: string, p: int, j: int)
    requires Lists(pos - {row}, rest) && PlacedBy(pos, rest, row, p, j)
    requires b in pos && b != row && pos[b].Some? && pos[b].value < p && NoneBetween(pos, row, pos[b].value, p)
    ensures PutUnder(rest, row, b, j, pos[row := Some(p)])
  {
    var less := pos - {row};
    assert b in less && b in rest;
    var i :| 0 <= i < |rest| && rest[i] == b;
    assert rest[j - 1] in less;
    assert rest[i] in less;
  }

  lemma UnderIsNext(pos: Positions, rest: seq<string>, row: string, b: string, p: int, j: int)
    requires Lists(pos - {row}, rest) && b in pos && b != row && pos[b].Some?
    requires PutUnder(rest, row, b, j, pos[row := Some(p)])
    ensures NoneBetween(pos, row, pos[b].value, p)
  {
    var less := pos - {row};
    forall k | k in pos && k != row && pos[k].Some?
      ensures !(pos[b].value < pos[k].value < p)
    {
      assert k in less && k in rest;
      var n :| 0 <= n < |rest| && rest[n] == k;
      NeighbourBounds(pos, rest, row, p, j, n);
      assert n < j - 1 ==> less[rest[n]].value < less[rest[j - 1]].value;
    }
  }

  /** And a position above a puts it directly above a exactly when none does. */
  lemma OverIff(pos: Positions, order: seq<string>, row: string, a: string, p: int)
    requires Lists(pos, order) && !Occupied(pos, row, p)
    requires a in pos && a != row && pos[a].Some? && p < pos[a].value
    ensures LandsOver(Without(order, row), row, a, pos[row := Some(p)]) <==> NoneBetween(pos, row, p, pos[a].value)
  {
    WithoutLists(pos, order, row);
    if NoneBetween(pos, row, p, pos[a].value) {
      var j := PlaceFor(pos, order, row, p);
      PlacedOver(pos, Without(order, row), row, a, p, j);
    }
    var rest, end := Without(order, row), pos[row := Some(p)];
    if LandsOver(rest, row, a, end) {
      var j :| PutOver(rest, row, a, j, end);
      OverIsNext(pos, rest, row, a, p, j);
    }
  }

  lemma PlacedOver(pos: Positions, rest: seq<string>, row: string, a: string, p: int, j: int)
    requires Lists(pos - {row}, rest) && PlacedBy(pos, rest, row, p, j)
    requires a in pos && a != row && pos[a].Some? && p < pos[a].value && NoneBetween(pos, row, p, pos[a].value)
    ensures PutOver(rest, row, a, j, pos[row := Some(p)])
  {
    var less := pos - {row};
    assert a in less && a in rest;
    var i :| 0 <= i < |rest| && rest[i] == a;
    assert rest[j] in less;
  }

  lemma OverIsNext(pos: Positions, rest: seq<string>, row: string, a: string, p: int, j: int)
    requires Lists(pos - {row}, rest) && a in pos && a != row && pos[a].Some?
    requires PutOver(rest, row, a, j, pos[row := Some(p)])
    ensures NoneBetween(pos, row, p, pos[a].value)
  {
    var less := pos - {row};
    forall k | k in pos && k != row && pos[k].Some?
      ensures !(p < pos[k].value < pos[a].value)
    {
      assert k in less && k in rest;
      var n :| 0 <= n < |rest| && rest[n] == k;
      NeighbourBounds(pos, rest, row, p, j, n);
      assert j < n ==> less[rest[j]].value < less[rest[n]].value;
    }
  }

  /** In a list with the row at place m, the others lie on their side of it. */
  lemma NeighbourBounds(pos: Positions, rest: seq<string>, row: string, p: int, m: int, n: nat)
    requires Lists(pos - {row}, rest) && 0 <= m <= |rest| && n < |rest|
    requires Lists(pos[row := Some(p)], InsertedAt(rest, row, m))
    ensures if n < m then pos[rest[n]].value < p else p < pos[rest[n]].value
  {
    var list := InsertedAt(rest, row, m);
    var end := pos[row := Some(p)];
    assert rest[n] in pos - {row};
    assert list[m] == row && end[list[m]].value == p;
    if n < m {
      assert list[n] == rest[n];
    } else {
      assert list[n + 1] == rest[n];
    }
  }

  /** "Move to top" that also names the row expected at the top (the Home key)
      is not checked for staleness: it lands first exactly when every other row
      sits below the slot 1024 before that row. */
  lemma MoveToTopNamed(pos: Positions, order: seq<string>, row: string, a: string, p: int)
    requires Distinct(pos) && Lists(pos, order)
    requires a in pos && pos[a].Some?
    requires Reorder(pos, row, Edge, Named(a)) == Ok(MoveTo(p))
    ensures Lists(pos[row := Some(p)], [row] + Without(order, row)) <==>
            forall k | k in pos && k != row && pos[k].Some? :: pos[a].value - STEP < pos[k].value
  {
    WithoutLists(pos, order, row);
    assert p == pos[a].value - STEP;
    ListedFirst(pos, Without(order, row), row, p);
  }

  /** A stale Home key: "x" was expected at the top but "w" has since been put
      far above it, and "m" lands between them without an error. */
  lemma StaleTopMove()
    ensures var pos: Positions := map["w" := Some(0), "x" := Some(4096), "m" := Some(8192)];
            && Distinct(pos) && Lists(pos, ["w", "x", "m"])
            && Reorder(pos, "m", Edge, Named("x")) == Ok(MoveTo(3072))
            && Lists(pos["m" := Some(3072)], ["w", "m", "x"])
  {
    hide Lists;
    var pos: Positions := map["w" := Some(0), "x" := Some(4096), "m" := Some(8192)];
    assert !Occupied(pos, "m", 3072);
    ThreeRows(pos, "w", "x", "m");
    ThreeRows(pos["m" := Some(3072)], "w", "m", "x");
  }

  lemma ThreeRows(pos: Positions, a: string, b: string, d: string)
    requires pos.Keys == {a, b, d} && pos[a].Some? && pos[b].Some? && pos[d].Some?
    requires pos[a].value < pos[b].value < pos[d].value
    ensures Lists(pos, [a, b, d])
  {
    var list := [a, b, d];
    assert forall k | k in pos :: k == list[0] || k == list[1] || k == list[2];
  }

  // ---------------------------------------------------------------- every request

  /** A request is turned away unread exactly when it names a row that is not there. */
  lemma ReorderNotFoundIff(pos: Positions, row: string, before: Anchor, after: Anchor)
    requires Distinct(pos)
    ensures Reorder(pos, row, before, after) == Err(NotFound) <==>
            row !in pos || (before.Named? && before.key !in pos) || (after.Named? && after.key !in pos)
  {
  }

  /** A move to the bottom is never refused, and goes 1024 beyond the last other row. */
  lemma BottomAccepted(pos: Positions, row: string, before: Anchor) returns (p: int)
    requires Distinct(pos) && row in pos && !before.Edge? && (before.Named? ==> before.key in pos)
    ensures Reorder(pos, row, before, Edge) == Ok(MoveTo(p))
    ensures forall k | k in pos && k != row && pos[k].Some? :: pos[k].value <= p - 1024
    ensures if exists k :: k in pos && k != row && pos[k].Some?
            then exists k :: k in pos && k != row && pos[k] == Some(p - 1024) else p == 1024
  {
    var top := Highest(pos, pos.Keys - {row});
    p := if top.Some? then top.value + STEP else STEP;
    OthersPlaced(pos, row);
  }

  /** So is a move to the top without a named row: 1024 before the first other row. */
  lemma TopAccepted(pos: Positions, row: string, after: Anchor) returns (p: int)
    requires Distinct(pos) && row in pos && !after.Named?
    ensures Reorder(pos, row, Edge, after) == Ok(MoveTo(p))
    ensures forall k | k in pos && k != row && pos[k].Some? :: p + 1024 <= pos[k].value
    ensures if exists k :: k in pos && k != row && pos[k].Some?
            then exists k :: k in pos && k != row && pos[k] == Some(p + 1024) else p == 1024
  {
    var first := Lowest(pos, pos.Keys - {row});
    p := if first.Some? then first.value - STEP else STEP;
    OthersPlaced(pos, row);
  }

  lemma OthersPlaced(pos: Positions, row: string)
    ensures forall k :: k in Placed(pos, pos.Keys - {row}) <==> k in pos && k != row && pos[k].Some?
  {
  }

  /** Between two placed rows: a conflict when another row lies between, nothing to do
      when the row itself does, and otherwise the middle of the gap, if it has one. */
  lemma BetweenOutcome(pos: Positions, row: string, b: string, a: string)
    requires Distinct(pos) && row in pos && b in pos && a in pos && pos[b].Some? && pos[a].Some?
    ensures var lo, hi, r := pos[b].value, pos[a].value, Reorder(pos, row, Named(b), Named(a));
            if exists k :: k in pos && k != row && pos[k].Some? && lo < pos[k].value < hi then r == Err(Conflict)
            else if pos[row].Some? && lo < pos[row].value < hi then r == Ok(Stay(pos[row].value))
            else if hi - lo <= 1 then r == Err(TooTight)
            else r == Ok(MoveTo(lo + (hi - lo) / 2))
  {
  }

  /** With at most one placed row given: 1024 beyond it, or before it, or 1024; refused
      exactly when another row sits there. */
  lemma OneSidedOutcome(pos: Positions, row: string, before: Anchor, after: Anchor, p: int)
    requires Distinct(pos) && row in pos
    requires (before.Named? ==> before.key in pos) && (after.Named? ==> after.key in pos)
    requires var lo := before.Named? && pos[before.key].Some?;
             var hi := after.Named? && pos[after.key].Some?;
             && !(lo && hi) && !after.Edge? && (before.Edge? ==> after.Named?)
             && p == if lo then pos[before.key].value + 1024 else if hi then pos[after.key].value - 1024 else 1024
    ensures Reorder(pos, row, before, after)
            == if exists k :: k in pos && k != row && pos[k] == Some(p) then Err(UniqueViolation) else Ok(MoveTo(p))
  {
  }

  // ---------------------------------------------------------------- rebalance

  /** The table after the first n rows of the list have been re-spaced. */
  function Respaced(pos: Positions, order: seq<string>, n: nat): (spaced: Positions)
    requires n <= |order|
  {
    if n == 0 then pos
    else Respaced(pos, order, n - 1)[order[n - 1] := Some(n * STEP)]
  }

  /** A row waiting behind index i already sits on the slot that index i gets. */
  ghost predicate SlotTaken(pos: Positions, order: seq<string>, i: int)
  {
    exists j :: i < j < |order| && 0 <= j && At(pos, order[j], (i + 1) * STEP)
  }

  lemma {:induction false} RespacedAt(pos: Positions, order: seq<string>, n: nat)
    requires Ascending(pos, order) && n <= |order|
    ensures Respaced(pos, order, n).Keys == pos.Keys
    ensures forall i | 0 <= i < n :: Respaced(pos, order, n)[order[i]] == Some((i + 1) * STEP)
    ensures forall i | n <= i < |order| :: Respaced(pos, order, n)[order[i]] == pos[order[i]]
    ensures forall k | k in pos && Respaced(pos, order, n)[k] != pos[k] :: k in order
  {
    if n > 0 {
      RespacedAt(pos, order, n - 1);
      assert forall i | 0 <= i < |order| && i != n - 1 :: order[i] != order[n - 1] by {
        forall i | 0 <= i < |order| && i != n - 1
          ensures order[i] != order[n - 1]
        {
          assert pos[order[i]].value != pos[order[n - 1]].value;
        }
      }
    }
  }

  lemma ListedDistinct(pos: Positions, order: seq<string>)
    requires Lists(pos, order)
    ensures Distinct(pos)
  {
    forall x, y | x in pos && y in pos && x != y && pos[x].Some? && pos[y].Some?
      ensures pos[x].value != pos[y].value
    {
      assert x in order && y in order;
      var i :| 0 <= i < |order| && order[i] == x;
      var j :| 0 <= j < |order| && order[j] == y;
    }
  }

  /** A completed rebalance keeps the list and leaves every gap 1024 wide. */
  lemma RespacedKeepsList(pos: Positions, order: seq<string>)
    requires Lists(pos, order)
    ensures var spaced := Respaced(pos, order, |order|);
            && Lists(spaced, order) && Distinct(spaced) && spaced.Keys == pos.Keys
            && forall i | 0 <= i < |order| :: spaced[order[i]] == Some((i + 1) * STEP)
  {
    RespacedAt(pos, order, |order|);
    var spaced := Respaced(pos, order, |order|);
    forall k | k in spaced && spaced[k].Some?
      ensures k in order
    {
      assert k in pos;
    }
    ListedDistinct(spaced, order);
  }

  /** The update of row n collides exactly when a waiting row holds its slot. */
  lemma NextSlotTaken(pos: Positions, order: seq<string>, n: nat)
    requires Lists(pos, order) && n < |order|
    ensures Occupied(Respaced(pos, order, n), order[n], (n + 1) * STEP) <==> SlotTaken(pos, order, n)
  {
    var spaced := Respaced(pos, order, n);
    RespacedAt(pos, order, n);
    if Occupied(spaced, order[n], (n + 1) * STEP) {
      var k :| k in spaced && k != order[n] && spaced[k] == Some((n + 1) * STEP);
      assert k in pos;
      var j :| 0 <= j < |order| && order[j] == k;
      assert n < j && At(pos, order[j], (n + 1) * STEP);
    }
    if SlotTaken(pos, order, n) {
      var j :| n < j < |order| && At(pos, order[j], (n + 1) * STEP);
      assert pos[order[n]].value < pos[order[j]].value;
      assert spaced[order[j]] == Some((n + 1) * STEP);
    }
  }

  /** After a completed rebalance the slot 512 below a listed row is free. */
  lemma HalfStepFree(pos: Positions, order: seq<string>, i: nat, row: string)
    requires Lists(pos, order) && i < |order|
    ensures !Occupied(Respaced(pos, order, |order|), row, (i + 1) * STEP + STEP / 2)
  {
    var spaced := Respaced(pos, order, |order|);
    RespacedKeepsList(pos, order);
    forall k | k in spaced
      ensures spaced[k] != Some((i + 1) * STEP + STEP / 2)
    {
      if spaced[k].Some? {
        assert k in order;
        var l :| 0 <= l < |order| && order[l] == k;
        assert spaced[k] == Some((l + 1) * STEP);
      }
    }
  }

  /** A request between two positioned neighbours with room succeeds. */
  lemma RoomMeansMove(pos: Positions, row: string, b: string, a: string, p: int)
    requires Distinct(pos) && row in pos && b in pos && a in pos
    requires pos[b].Some? && pos[a].Some?
    requires forall k | k in pos && pos[k].Some? :: !(pos[b].value < pos[k].value < pos[a].value)
    requires ComputeInsertPosition(pos[b], pos[a]) == Some(p) && !Occupied(pos, row, p)
    ensures Reorder(pos, row, Named(b), Named(a)) == Ok(MoveTo(p))
  {
  }

  lemma TooTightMeansAdjacent(pos: Positions, row: string, b: string, a: string)
    requires Distinct(pos) && b in pos && a in pos && pos[b].Some? && pos[a].Some?
    requires Reorder(pos, row, Named(b), Named(a)) == Err(TooTight)
    ensures row in pos && pos[a].value - pos[b].value <= 1
  {
  }

  /** After a completed rebalance, a request between two rows that are neighbours
      in the list always finds a slot, so the retry never fails for lack of room. */
  lemma RetryFindsSlot(pos: Positions, order: seq<string>, row: string, b: string, a: string)
    returns (i: nat)
    requires Distinct(pos) && Lists(pos, order)
    requires b in pos && pos[b].Some? && a in pos && pos[a].Some? && pos[b].value < pos[a].value
    requires Reorder(pos, row, Named(b), Named(a)) == Err(TooTight)
    ensures i < |order| && order[i] == b
    ensures var spaced := Respaced(pos, order, |order|);
            Distinct(spaced) &&
            Reorder(spaced, row, Named(b), Named(a)) == Ok(MoveTo((i + 1) * STEP + STEP / 2))
  {
    hide Reorder, Respaced;
    TooTightMeansAdjacent(pos, row, b, a);
    var j := NeighboursInList(pos, order, b, a);
    i := j - 1;
    SpacedNeighbours(pos, order, row, i);
    RoomMeansMove(Respaced(pos, order, |order|), row, b, a, (i + 1) * STEP + STEP / 2);
  }

  /** Re-spaced rows keep a whole step from the slot between row i and the next. */
  lemma SpacedApart(pos: Positions, order: seq<string>, i: nat, k: string)
    requires Lists(pos, order) && i + 1 < |order|
    requires k in Respaced(pos, order, |order|) && Respaced(pos, order, |order|)[k].Some?
    ensures var p := Respaced(pos, order, |order|)[k].value; p <= (i + 1) * STEP || (i + 2) * STEP <= p
  {
    RespacedKeepsList(pos, order);
    assert k in order;
    var l :| 0 <= l < |order| && order[l] == k;
    assert Respaced(pos, order, |order|)[k] == Some((l + 1) * STEP);
  }

  lemma SpacedNeighbours(pos: Positions, order: seq<string>, row: string, i: nat)
    requires Lists(pos, order) && i + 1 < |order|
    ensures var spaced := Respaced(pos, order, |order|);
            var b, a := order[i], order[i + 1];
            && Distinct(spaced) && spaced.Keys == pos.Keys
            && spaced[b].Some? && spaced[a].Some?
            && (forall k | k in spaced && spaced[k].Some? :: !(spaced[b].value < spaced[k].value < spaced[a].value))
            && ComputeInsertPosition(spaced[b], spaced[a]) == Some((i + 1) * STEP + STEP / 2)
            && !Occupied(spaced, row, (i + 1) * STEP + STEP / 2)
  {
    var spaced := Respaced(pos, order, |order|);
    RespacedKeepsList(pos, order);
    HalfStepFree(pos, order, i, row);
    assert spaced[order[i]] == Some((i + 1) * STEP) && spaced[order[i + 1]] == Some((i + 2) * STEP);
    forall k | k in spaced && spaced[k].Some?
      ensures spaced[k].value <= (i + 1) * STEP || (i + 2) * STEP <= spaced[k].value
    {
      SpacedApart(pos, order, i, k);
    }
  }

  /** A rebalance that stops before row n leaves the list as it was exactly when
      nothing had been moved, or row n still lies below the last slot given out. */
  lemma RespacedOrderIff(pos: Positions, order: seq<string>, n: nat)
    requires Lists(pos, order) && n < |order|
    ensures Lists(Respaced(pos, order, n), order) <==> n == 0 || n * STEP < pos[order[n]].value
  {
    if n > 0 {
      LastSlot(pos, order, n);
      if n * STEP < pos[order[n]].value {
        PartlySpacedLists(pos, order, n);
      }
    }
  }

  lemma LastSlot(pos: Positions, order: seq<string>, n: nat)
    requires Lists(pos, order) && 0 < n < |order|
    ensures Lists(Respaced(pos, order, n), order) ==> n * STEP < pos[order[n]].value
  {
    RespacedAt(pos, order, n);
    assert Respaced(pos, order, n)[order[n - 1]] == Some((n - 1 + 1) * STEP);
  }

  lemma PartlySpacedLists(pos: Positions, order: seq<string>, n: nat)
    requires Lists(pos, order) && 0 < n < |order| && n * STEP < pos[order[n]].value
    ensures Lists(Respaced(pos, order, n), order)
  {
    RespacedAt(pos, order, n);
    StillAscending(pos, order, n, Respaced(pos, order, n));
  }

  /** Slots for the first n rows, old positions beyond the last slot for the rest. */
  lemma StillAscending(pos: Positions, order: seq<string>, n: nat, spaced: Positions)
    requires Lists(pos, order) && 0 < n < |order| && n * STEP < pos[order[n]].value
    requires spaced.Keys == pos.Keys
    requires forall i | 0 <= i < n :: spaced[order[i]] == Some((i + 1) * STEP)
    requires forall i | n <= i < |order| :: spaced[order[i]] == pos[order[i]]
    requires forall k | k in pos && spaced[k] != pos[k] :: k in order
    ensures Lists(spaced, order)
  {
    forall i, j | 0 <= i < j < |order|
      ensures spaced[order[i]].value < spaced[order[j]].value
    {
      if i < n <= j {
        assert pos[order[n]].value <= pos[order[j]].value;
      }
    }
  }

  /** The rebalance can stop half-way on a collision and leave the rows in a
      different order: here the first two rows have swapped. */
  lemma FailedRebalanceScrambles()
    ensures var pos: Positions := map["a" := Some(1), "b" := Some(2), "c" := Some(2048)];
            && Lists(pos, ["a", "b", "c"])
            && !SlotTaken(pos, ["a", "b", "c"], 0) && SlotTaken(pos, ["a", "b", "c"], 1)
            && Lists(Respaced(pos, ["a", "b", "c"], 1), ["b", "a", "c"])
  {
    var pos: Positions := map["a" := Some(1), "b" := Some(2), "c" := Some(2048)];
    var order := ["a", "b", "c"];
    hide Lists;
    ThreeRows(pos, "a", "b", "c");
    assert At(pos, order[2], (1 + 1) * STEP);
    var partly := Respaced(pos, order, 1);
    assert partly == Respaced(pos, order, 0)["a" := Some(1 * STEP)];
    assert partly == map["a" := Some(1024), "b" := Some(2), "c" := Some(2048)];
    ThreeRows(partly, "b", "a", "c");
  }
}
