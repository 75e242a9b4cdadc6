/** The scan feed with a cap.  Each page joins the scanned values with the mapping
    table on the lower-cased raw, so a value that is mapped under several spellings
    is several rows of the page, all with one sort key. */
module CappedFeed {
  import opened Prelude
  import opened Keyset

  /** The spellings under which a scanned value is mapped. */
  function Spellings(lower: string -> string, raws: set<string>, value: string): set<string>
  {
    set m | m in raws && lower(m) == value
  }

  /** LEFT JOIN: one row per spelling, or one row when there is none. */
  function JoinRows(lower: string -> string, raws: set<string>, v: RowKey): (n: nat)
    ensures n >= 1 && (n > 1 <==> |Spellings(lower, raws, v.1)| > 1)
  {
    var n := |Spellings(lower, raws, v.1)|;
    if n == 0 then 1 else n
  }

  /** Each mapped spelling of a value is a row of its own. */
  lemma OneRowEach(lower: string -> string, raws: set<string>, v: RowKey)
    ensures (exists m | m in raws :: lower(m) == v.1) ==> JoinRows(lower, raws, v) == |Spellings(lower, raws, v.1)|
  {
    assert forall m | m in raws && lower(m) == v.1 :: m in Spellings(lower, raws, v.1);
  }

  function Repeat(r: RowKey, n: nat): (rows: seq<RowKey>)
    ensures |rows| == n && forall i | 0 <= i < n :: rows[i] == r
  {
    seq(n, _ => r)
  }

  /** The joined rows in the order of the query. */
  function Expand(values: seq<RowKey>, times: RowKey -> nat): seq<RowKey>
  {
    if values == [] then [] else Repeat(values[0], times(values[0])) + Expand(values[1..], times)
  }

  /** WHERE: the rows beyond the cursor, in order. */
  function BeyondRows(joined: seq<RowKey>, mark: Mark): seq<RowKey>
  {
    if joined == [] then []
    else if Beyond(mark, joined[0]) then [joined[0]] + BeyondRows(joined[1..], mark)
    else BeyondRows(joined[1..], mark)
  }

  function FirstRows(rows: seq<RowKey>, n: nat): (first: seq<RowKey>)
    ensures |first| == if |rows| < n then |rows| else n
  {
    if |rows| < n then rows else rows[..n]
  }

  lemma {:induction false} BeyondSplits(a: seq<RowKey>, b: seq<RowKey>, mark: Mark)
    ensures BeyondRows(a + b, mark) == BeyondRows(a, mark) + BeyondRows(b, mark)
  {
    if a == [] {
      assert a + b == b;
    } else {
      assert (a + b)[0] == a[0] && (a + b)[1..] == a[1..] + b;
      BeyondSplits(a[1..], b, mark);
    }
  }

  lemma FirstOfPrefix(rows: seq<RowKey>, rest: seq<RowKey>, limit: nat)
    requires rest == [] || |rows| == limit + 1
    ensures FirstRows(rows + rest, limit) == FirstRows(rows, limit)
    ensures |rows + rest| > limit <==> |rows| > limit
  {
  }

  /** One page of the joined query: LIMIT limit + 1, the sentinel, and the cursor. */
  method ReadJoinedPage(joined: seq<RowKey>, mark: Mark, limit: nat)
    returns (items: seq<RowKey>, hasMore: bool, next: Option<RowKey>)
    requires limit > 0
    ensures items == FirstRows(BeyondRows(joined, mark), limit)
    ensures hasMore <==> |BeyondRows(joined, mark)| > limit
    ensures next == if hasMore then Some(items[limit - 1]) else None
  {
    hide FirstRows;
    var rows: seq<RowKey> := [];
    var i := 0;
    while i < |joined| && |rows| <= limit
      invariant 0 <= i <= |joined| && |rows| <= limit + 1
      invariant BeyondRows(joined, mark) == rows + BeyondRows(joined[i..], mark)
    {
      assert joined[i..][0] == joined[i] && joined[i..][1..] == joined[i + 1..];
      if Beyond(mark, joined[i]) {
        rows := rows + [joined[i]];
      }
      i := i + 1;
    }
    assert i == |joined| ==> joined[i..] == [];
    FirstOfPrefix(rows, BeyondRows(joined[i..], mark), limit);
    hasMore := |rows| > limit;
    items := FirstRows(rows, limit);
    next := if hasMore then Some(items[limit - 1]) else None;
  }

  /** How many values have a row among the first n. */
  function Touched(values: seq<RowKey>, times: RowKey -> nat, n: nat): (k: nat)
    ensures k <= |values|
  {
    if n == 0 || values == [] then 0
    else
      var t := times(values[0]);
      1 + Touched(values[1..], times, if n < t then 0 else n - t)
  }

  lemma {:induction false} LastTouched(values: seq<RowKey>, times: RowKey -> nat, n: nat)
    requires 0 < n <= |Expand(values, times)| && forall v :: times(v) >= 1
    ensures var k := Touched(values, times, n); k >= 1 && Expand(values, times)[n - 1] == values[k - 1]
  {
    var t := times(values[0]);
    if n > t {
      LastTouched(values[1..], times, n - t);
      assert Touched(values, times, n) == 1 + Touched(values[1..], times, n - t);
    } else {
      assert Touched(values[1..], times, 0) == 0;
    }
  }

  lemma {:induction false} AllBeyond(joined: seq<RowKey>, mark: Mark)
    requires forall r | r in joined :: Beyond(mark, r)
    ensures BeyondRows(joined, mark) == joined
  {
    if joined != [] {
      AllBeyond(joined[1..], mark);
    }
  }

  lemma {:induction false} NoneBeyond(joined: seq<RowKey>, mark: Mark)
    requires forall r | r in joined :: !Beyond(mark, r)
    ensures BeyondRows(joined, mark) == []
  {
    if joined != [] {
      NoneBeyond(joined[1..], mark);
    }
  }

  lemma {:induction false} ExpandSplits(a: seq<RowKey>, b: seq<RowKey>, times: RowKey -> nat)
    ensures Expand(a + b, times) == Expand(a, times) + Expand(b, times)
  {
    if a == [] {
      assert a + b == b;
    } else {
      assert (a + b)[0] == a[0] && (a + b)[1..] == a[1..] + b;
      ExpandSplits(a[1..], b, times);
    }
  }

  lemma {:induction false} ExpandIn(values: seq<RowKey>, times: RowKey -> nat)
    ensures forall r | r in Expand(values, times) :: r in values
  {
    if values != [] {
      ExpandIn(values[1..], times);
    }
  }

  lemma EarlierBehind(values: seq<RowKey>, times: RowKey -> nat, k: nat)
    requires Ascending(values) && 0 < k <= |values|
    ensures BeyondRows(Expand(values[..k], times), Past(values[k - 1])) == []
  {
    var mark := Past(values[k - 1]);
    ExpandIn(values[..k], times);
    forall r | r in values[..k]
      ensures !Beyond(mark, r)
    {
      LessIsTotal(r, values[k - 1]);
    }
    NoneBeyond(Expand(values[..k], times), mark);
  }

  lemma LaterAhead(values: seq<RowKey>, times: RowKey -> nat, k: nat)
    requires Ascending(values) && 0 < k <= |values|
    ensures BeyondRows(Expand(values[k..], times), Past(values[k - 1])) == Expand(values[k..], times)
  {
    ExpandIn(values[k..], times);
    assert forall r | r in values[k..] :: Less(values[k - 1], r);
    AllBeyond(Expand(values[k..], times), Past(values[k - 1]));
  }

  lemma SkipsFirst(a: seq<RowKey>, b: seq<RowKey>, mark: Mark)
    requires BeyondRows(a, mark) == [] && BeyondRows(b, mark) == b
    ensures BeyondRows(a + b, mark) == b
  {
    BeyondSplits(a, b, mark);
  }

  /** The rows beyond value k - 1 are those of the values from k on: what is left of
      the repetitions of that value is skipped. */
  lemma BeyondValue(values: seq<RowKey>, times: RowKey -> nat, k: nat)
    requires Ascending(values) && 0 < k <= |values|
    ensures BeyondRows(Expand(values, times), Past(values[k - 1])) == Expand(values[k..], times)
  {
    assert values == values[..k] + values[k..];
    ExpandSplits(values[..k], values[k..], times);
    EarlierBehind(values, times, k);
    LaterAhead(values, times, k);
    SkipsFirst(Expand(values[..k], times), Expand(values[k..], times), Past(values[k - 1]));
  }

  /** What the paging loop collects from some values when `room` rows are wanted. */
  function Collected(values: seq<RowKey>, times: RowKey -> nat, room: nat, limit: nat): (seq<RowKey>, bool)
    requires limit > 0
    decreases |values|
  {
    var rows := Expand(values, times);
    var page := FirstRows(rows, limit);
    if |page| >= room then (page[..room], |rows| > limit || |page| > room)
    else if |rows| <= limit then (page, false)
    else
      var k := Touched(values, times, limit);
      if k == 0 then (page, false)
      else
        var rest := Collected(values[k..], times, room - |page|, limit);
        (page + rest.0, rest.1)
  }

  /** `all` is what the pages before value k gave. */
  ghost predicate SoFar(values: seq<RowKey>, times: RowKey -> nat, cap: nat, limit: nat, k: nat, all: seq<RowKey>)
    requires limit > 0
  {
    && k <= |values| && |all| <= cap
    && var rest := Collected(values[k..], times, cap - |all|, limit);
       Collected(values, times, cap, limit) == (all + rest.0, rest.1)
  }

  lemma NothingYet(values: seq<RowKey>, times: RowKey -> nat, cap: nat, limit: nat)
    requires limit > 0
    ensures SoFar(values, times, cap, limit, 0, [])
  {
    assert values[0..] == values;
    var whole := Collected(values, times, cap, limit);
    assert [] + whole.0 == whole.0;
  }

  /** The page that reaches the cap ends the loop. */
  lemma CapReached(values: seq<RowKey>, times: RowKey -> nat, cap: nat, limit: nat, k: nat, all: seq<RowKey>,
                   rows: seq<RowKey>, items: seq<RowKey>)
    requires limit > 0 && SoFar(values, times, cap, limit, k, all)
    requires rows == Expand(values[k..], times) && items == FirstRows(rows, limit) && |all| + |items| >= cap
    ensures Collected(values, times, cap, limit) == ((all + items)[..cap], |rows| > limit || |all + items| > cap)
  {
    assert (all + items)[..cap] == all + items[..cap - |all|];
  }

  /** So does the last page. */
  lemma RowsDone(values: seq<RowKey>, times: RowKey -> nat, cap: nat, limit: nat, k: nat, all: seq<RowKey>,
                 rows: seq<RowKey>, items: seq<RowKey>)
    requires limit > 0 && SoFar(values, times, cap, limit, k, all)
    requires rows == Expand(values[k..], times) && items == FirstRows(rows, limit)
    requires |all| + |items| < cap && |rows| <= limit
    ensures Collected(values, times, cap, limit) == (all + items, false)
  {
  }

  /** Any other page is added, and the loop goes on with the value after it. */
  lemma MovesOn(values: seq<RowKey>, times: RowKey -> nat, cap: nat, limit: nat, k: nat, all: seq<RowKey>,
                rows: seq<RowKey>, items: seq<RowKey>, n: nat)
    requires limit > 0 && SoFar(values, times, cap, limit, k, all)
    requires rows == Expand(values[k..], times) && items == FirstRows(rows, limit)
    requires |all| + |items| < cap && |rows| > limit
    requires n == Touched(values[k..], times, limit) && n >= 1 && k + n <= |values|
    requires values[k..][n..] == values[k + n..]
    ensures SoFar(values, times, cap, limit, k + n, all + items)
  {
    hide Expand, Touched, FirstRows;
    var rest := Collected(values[k + n..], times, cap - |all| - |items|, limit);
    assert Collected(values[k..], times, cap - |all|, limit) == (items + rest.0, rest.1);
    assert all + (items + rest.0) == (all + items) + rest.0;
  }

  /** getSourceScanValuesAll: page until the end or the cap, and cut. */
  method ReadCapped(lower: string -> string, raws: set<string>, values: seq<RowKey>, cap: nat, limit: nat)
    returns (all: seq<RowKey>, truncated: bool)
    requires limit > 0 && Ascending(values)
    ensures (all, truncated) == Collected(values, v => JoinRows(lower, raws, v), cap, limit)
  {
    var times := (v: RowKey) => JoinRows(lower, raws, v);
    all, truncated := ReadJoined(values, times, Expand(values, times), cap, limit);
  }

  /** The loop at value k: what it has, and where its cursor stands. */
  ghost predicate LoopAt(values: seq<RowKey>, times: RowKey -> nat, joined: seq<RowKey>, cap: nat, limit: nat,
                         k: nat, all: seq<RowKey>, mark: Mark)
    requires limit > 0
  {
    SoFar(values, times, cap, limit, k, all) && BeyondRows(joined, mark) == Expand(values[k..], times)
  }

  lemma LoopStarts(values: seq<RowKey>, times: RowKey -> nat, cap: nat, limit: nat)
    requires limit > 0
    ensures LoopAt(values, times, Expand(values, times), cap, limit, 0, [], Start)
  {
    NothingYet(values, times, cap, limit);
    AllBeyond(Expand(values, times), Start);
    assert values[0..] == values;
  }

  lemma LoopEnds(values: seq<RowKey>, times: RowKey -> nat, joined: seq<RowKey>, cap: nat, limit: nat,
                 k: nat, all: seq<RowKey>, mark: Mark, rows: seq<RowKey>, items: seq<RowKey>)
    requires limit > 0 && LoopAt(values, times, joined, cap, limit, k, all, mark)
    requires rows == BeyondRows(joined, mark) && items == FirstRows(rows, limit)
    ensures |all| + |items| >= cap ==>
              Collected(values, times, cap, limit) == ((all + items)[..cap], |rows| > limit || |all + items| > cap)
    ensures |all| + |items| < cap && |rows| <= limit ==> Collected(values, times, cap, limit) == (all + items, false)
  {
    if |all| + |items| >= cap {
      CapReached(values, times, cap, limit, k, all, rows, items);
    } else if |rows| <= limit {
      RowsDone(values, times, cap, limit, k, all, rows, items);
    }
  }

  /** After a full page the cursor is at a value, and the rest begins with the next. */
  lemma NextStart(values: seq<RowKey>, times: RowKey -> nat, k: nat, limit: nat, rows: seq<RowKey>) returns (n: nat)
    requires Ascending(values) && k <= |values| && limit > 0 && forall v :: times(v) >= 1
    requires rows == Expand(values[k..], times) && |rows| > limit
    ensures n == Touched(values[k..], times, limit) && n >= 1 && k + n <= |values|
    ensures values[k..][n..] == values[k + n..] && rows[limit - 1] == values[k + n - 1]
  {
    n := Touched(values[k..], times, limit);
    LastTouched(values[k..], times, limit);
  }

  lemma LoopMovesOn(values: seq<RowKey>, times: RowKey -> nat, joined: seq<RowKey>, cap: nat, limit: nat,
                    k: nat, all: seq<RowKey>, mark: Mark, rows: seq<RowKey>, items: seq<RowKey>) returns (next: nat)
    requires limit > 0 && Ascending(values) && forall v :: times(v) >= 1
    requires joined == Expand(values, times) && LoopAt(values, times, joined, cap, limit, k, all, mark)
    requires rows == BeyondRows(joined, mark) && items == FirstRows(rows, limit)
    requires |all| + |items| < cap && |rows| > limit
    ensures k < next <= |values|
    ensures LoopAt(values, times, joined, cap, limit, next, all + items, Past(items[limit - 1]))
  {
    hide Expand, Collected, Touched;
    var n := NextStart(values, times, k, limit, rows);
    next := k + n;
    MovesOn(values, times, cap, limit, k, all, rows, items, n);
    BeyondValue(values, times, next);
  }

  /** The loop, for any number of join rows per value. */
  method ReadJoined(ghost values: seq<RowKey>, ghost times: RowKey -> nat, joined: seq<RowKey>, cap: nat, limit: nat)
    returns (all: seq<RowKey>, truncated: bool)
    requires limit > 0 && Ascending(values) && (forall v :: times(v) >= 1) && joined == Expand(values, times)
    ensures (all, truncated) == Collected(values, times, cap, limit)
  {
    all := [];
    var mark := Start;
    ghost var k := 0;
    LoopStarts(values, times, cap, limit);
    while true
      invariant LoopAt(values, times, joined, cap, limit, k, all, mark)
      decreases |values| - k
    {
      var items, hasMore, next := ReadJoinedPage(joined, mark, limit);
      LoopEnds(values, times, joined, cap, limit, k, all, mark, BeyondRows(joined, mark), items);
      if |all| + |items| >= cap {
        all := all + items;
        return all[..cap], hasMore || |all| > cap;
      }
      if next.None? {
        return all + items, false;
      }
      k := LoopMovesOn(values, times, joined, cap, limit, k, all, mark, BeyondRows(joined, mark), items);
      all := all + items;
      mark := Past(next.value);
    }
  }

  // ------------------------------------------------------------- when it is right

  /** The first min(cap, n) values, once each, and the flag that says whether there
      are more. */
  function Wanted(values: seq<RowKey>, cap: nat): (seq<RowKey>, bool)
  {
    (FirstRows(values, cap), |values| > cap)
  }

  /** Is i the last index of a page? */
  predicate EndsPage(i: nat, limit: nat)
    requires limit > 0
  {
    if i < limit then i == limit - 1 else EndsPage(i - limit, limit)
  }

  /** Every value within the cap that is mapped under several spellings is the last
      of its page, where the cursor skips its other rows; or it is the last that the
      cap admits, and more values follow anyway. */
  ghost predicate CleanCuts(values: seq<RowKey>, times: RowKey -> nat, cap: nat, limit: nat)
    requires limit > 0
  {
    forall i | 0 <= i < |values| && i < cap && times(values[i]) > 1 ::
      if i == cap - 1 then |values| > cap else EndsPage(i, limit)
  }

  /** The index of the first value with several rows, or the number of values. */
  function FirstDouble(values: seq<RowKey>, times: RowKey -> nat): (d: nat)
    ensures d <= |values| && forall i | 0 <= i < d :: times(values[i]) <= 1
    ensures d < |values| ==> times(values[d]) > 1
  {
    if values == [] || times(values[0]) > 1 then 0
    else
      var d := FirstDouble(values[1..], times);
      assert forall i | 0 < i < 1 + d :: values[i] == values[1..][i - 1];
      1 + d
  }

  /** Up to its first double the joined rows are the values; then it repeats. */
  lemma PrefixShifts(first: RowKey, rows: seq<RowKey>, values: seq<RowKey>, d: nat)
    requires d < |values| < |rows| && rows[..d + 1] == values[..d + 1] && rows[d + 1] == values[d]
    ensures ([first] + rows)[..d + 2] == ([first] + values)[..d + 2]
    ensures ([first] + rows)[d + 2] == ([first] + values)[d + 1]
  {
    assert ([first] + rows)[..d + 2] == [first] + rows[..d + 1];
    assert ([first] + values)[..d + 2] == [first] + values[..d + 1];
  }

  lemma {:induction false} ExpandPrefix(values: seq<RowKey>, times: RowKey -> nat)
    requires forall v :: times(v) >= 1
    ensures var d, rows := FirstDouble(values, times), Expand(values, times);
            if d == |values| then rows == values
            else |rows| > |values| && rows[..d + 1] == values[..d + 1] && rows[d + 1] == values[d]
  {
    if values != [] {
      var d, rows := FirstDouble(values, times), Expand(values, times);
      AtLeastOneEach(values[1..], times);
      if d == 0 {
        assert rows[0] == values[0] && rows[1] == values[0];
      } else {
        ExpandPrefix(values[1..], times);
        assert rows == [values[0]] + Expand(values[1..], times);
        assert values == [values[0]] + values[1..];
        if d < |values| {
          PrefixShifts(values[0], Expand(values[1..], times), values[1..], d - 1);
        }
      }
    }
  }

  lemma {:induction false} AtLeastOneEach(values: seq<RowKey>, times: RowKey -> nat)
    requires forall v :: times(v) >= 1
    ensures |Expand(values, times)| >= |values|
  {
    if values != [] {
      AtLeastOneEach(values[1..], times);
    }
  }

  /** A page that shows no double touches as many values as it has rows. */
  lemma {:induction false} TouchedPlain(values: seq<RowKey>, times: RowKey -> nat, n: nat)
    requires n <= |values| && n <= FirstDouble(values, times) + 1 && forall v :: times(v) >= 1
    ensures Touched(values, times, n) == n
  {
    if n > 1 {
      assert times(values[0]) == 1;
      TouchedPlain(values[1..], times, n - 1);
    } else if n == 1 {
      assert Touched(values[1..], times, 0) == 0;
    }
  }

  /** A double that shows spoils the result. */
  lemma DoubleShows(values: seq<RowKey>, times: RowKey -> nat, room: nat, limit: nat, d: nat)
    requires limit > 0 && Ascending(values) && forall v :: times(v) >= 1
    requires d == FirstDouble(values, times) < |values| && d + 1 < limit && d + 1 < room
    ensures Collected(values, times, room, limit) != Wanted(values, room)
    ensures !CleanCuts(values, times, room, limit)
  {
    ExpandPrefix(values, times);
    var rows := Expand(values, times);
    var got := Collected(values, times, room, limit).0;
    var page := FirstRows(rows, limit);
    assert page[d + 1] == rows[d + 1] == values[d];
    assert got[d + 1] == values[d];
    if d + 1 < |values| {
      assert Less(values[d], values[d + 1]);
      LessIsTotal(values[d], values[d]);
    }
  }

  /** Does the loop go on after a page that is as it should be? */
  ghost predicate GoesOn(values: seq<RowKey>, times: RowKey -> nat, cap: nat, limit: nat)
  {
    limit < cap
    && if FirstDouble(values, times) == |values| then |values| > limit
       else FirstDouble(values, times) + 1 >= limit
  }

  lemma OnePageIff(values: seq<RowKey>, times: RowKey -> nat, cap: nat, limit: nat)
    requires limit > 0 && Ascending(values) && forall v :: times(v) >= 1
    requires !GoesOn(values, times, cap, limit)
    ensures Collected(values, times, cap, limit) == Wanted(values, cap) <==> CleanCuts(values, times, cap, limit)
  {
    var d := FirstDouble(values, times);
    if d < |values| && d + 1 < limit && d + 1 < cap {
      DoubleShows(values, times, cap, limit, d);
    } else if limit >= cap {
      LastPageIff(values, times, cap, limit);
    } else {
      ShortFeedIff(values, times, cap, limit);
    }
  }

  lemma RestDecides(values: seq<RowKey>, times: RowKey -> nat, cap: nat, limit: nat)
    requires limit > 0 && (forall v :: times(v) >= 1) && GoesOn(values, times, cap, limit)
    ensures |values| >= limit
    ensures Collected(values, times, cap, limit) == Wanted(values, cap) <==>
            Collected(values[limit..], times, cap - limit, limit) == Wanted(values[limit..], cap - limit)
    ensures CleanCuts(values, times, cap, limit) <==> CleanCuts(values[limit..], times, cap - limit, limit)
  {
    FullPageIff(values, times, cap, limit);
    CutsShift(values, times, cap, limit);
  }

  /** Exactly when the capped feed is right: it is the first min(cap, n) values, once
      each, with a correct flag, iff every value mapped under several spellings falls
      on a clean cut. */
  lemma {:induction false} CappedExactIff(values: seq<RowKey>, times: RowKey -> nat, cap: nat, limit: nat)
    requires limit > 0 && Ascending(values) && forall v :: times(v) >= 1
    ensures Collected(values, times, cap, limit) == Wanted(values, cap) <==> CleanCuts(values, times, cap, limit)
    decreases |values|
  {
    if GoesOn(values, times, cap, limit) {
      RestDecides(values, times, cap, limit);
      CappedExactIff(values[limit..], times, cap - limit, limit);
    } else {
      OnePageIff(values, times, cap, limit);
    }
  }

  /** A feed of one page without doubles. */
  lemma ShortFeedIff(values: seq<RowKey>, times: RowKey -> nat, cap: nat, limit: nat)
    requires 0 < limit < cap && forall v :: times(v) >= 1
    requires |values| <= limit && FirstDouble(values, times) == |values|
    ensures Collected(values, times, cap, limit) == Wanted(values, cap) && CleanCuts(values, times, cap, limit)
  {
    ExpandPrefix(values, times);
    assert FirstRows(values, limit) == values;
  }

  /** The page that reaches the cap. */
  lemma LastPageIff(values: seq<RowKey>, times: RowKey -> nat, cap: nat, limit: nat)
    requires limit > 0 && forall v :: times(v) >= 1 && limit >= cap
    requires FirstDouble(values, times) + 1 >= cap || FirstDouble(values, times) == |values|
    ensures Collected(values, times, cap, limit) == Wanted(values, cap) <==> CleanCuts(values, times, cap, limit)
  {
    ExpandPrefix(values, times);
    var d, rows := FirstDouble(values, times), Expand(values, times);
    var page := FirstRows(rows, limit);
    if d == |values| {
      if |values| >= cap {
        assert page[..cap] == values[..cap];
      } else {
        assert page == values;
      }
    } else {
      assert rows[..cap] == rows[..d + 1][..cap] == values[..cap];
      assert page[..cap] == rows[..cap];
      assert |rows| > cap;
    }
  }

  /** A full page before the cap: the page is the first values, and the rest decides. */
  lemma FullPage(values: seq<RowKey>, times: RowKey -> nat, cap: nat, limit: nat)
    requires 0 < limit < cap && forall v :: times(v) >= 1
    requires var d := FirstDouble(values, times);
             if d == |values| then |values| > limit else d + 1 >= limit
    ensures |values| >= limit
    ensures var rest := Collected(values[limit..], times, cap - limit, limit);
            Collected(values, times, cap, limit) == (values[..limit] + rest.0, rest.1)
  {
    TouchedPlain(values, times, limit);
    PlainStart(values, times, limit);
    var rows := Expand(values, times);
    CollectedOn(values, times, cap, limit, rows);
  }

  /** The joined rows begin like the values, and there are more of them. */
  lemma PlainStart(values: seq<RowKey>, times: RowKey -> nat, limit: nat)
    requires forall v :: times(v) >= 1
    requires var d := FirstDouble(values, times);
             if d == |values| then |values| > limit else d + 1 >= limit
    ensures |Expand(values, times)| > limit && |values| >= limit && Expand(values, times)[..limit] == values[..limit]
  {
    ExpandPrefix(values, times);
    var d, rows := FirstDouble(values, times), Expand(values, times);
    if d < |values| {
      assert rows[..limit] == rows[..d + 1][..limit] && values[..limit] == values[..d + 1][..limit];
    }
  }

  lemma CollectedOn(values: seq<RowKey>, times: RowKey -> nat, cap: nat, limit: nat, rows: seq<RowKey>)
    requires 0 < limit < cap && |values| >= limit && rows == Expand(values, times)
    requires |rows| > limit && rows[..limit] == values[..limit] && Touched(values, times, limit) == limit
    ensures var rest := Collected(values[limit..], times, cap - limit, limit);
            Collected(values, times, cap, limit) == (values[..limit] + rest.0, rest.1)
  {
  }

  lemma FullPageIff(values: seq<RowKey>, times: RowKey -> nat, cap: nat, limit: nat)
    requires 0 < limit < cap && forall v :: times(v) >= 1
    requires var d := FirstDouble(values, times);
             if d == |values| then |values| > limit else d + 1 >= limit
    ensures |values| >= limit
    ensures Collected(values, times, cap, limit) == Wanted(values, cap) <==>
            Collected(values[limit..], times, cap - limit, limit) == Wanted(values[limit..], cap - limit)
  {
    FullPage(values, times, cap, limit);
    WantedSplits(values, cap, limit, Collected(values[limit..], times, cap - limit, limit));
  }

  lemma WantedSplits(values: seq<RowKey>, cap: nat, limit: nat, rest: (seq<RowKey>, bool))
    requires limit < cap && |values| >= limit
    ensures (values[..limit] + rest.0, rest.1) == Wanted(values, cap) <==> rest == Wanted(values[limit..], cap - limit)
  {
    var want := FirstRows(values[limit..], cap - limit);
    assert FirstRows(values, cap) == values[..limit] + want;
    SamePrefix(values[..limit], rest.0, want);
  }

  lemma SamePrefix(a: seq<RowKey>, b: seq<RowKey>, d: seq<RowKey>)
    ensures a + b == a + d <==> b == d
  {
    assert (a + b)[|a|..] == b && (a + d)[|a|..] == d;
  }

  lemma CutsShift(values: seq<RowKey>, times: RowKey -> nat, cap: nat, limit: nat)
    requires 0 < limit < cap && |values| >= limit
    requires forall i | 0 <= i < limit - 1 :: times(values[i]) <= 1
    ensures CleanCuts(values, times, cap, limit) <==> CleanCuts(values[limit..], times, cap - limit, limit)
  {
    var rest := values[limit..];
    forall i: nat | i < |rest|
      ensures rest[i] == values[i + limit] && EndsPage(i + limit, limit) == EndsPage(i, limit)
    {
    }
    forall i: nat | limit <= i < |values|
      ensures values[i] == rest[i - limit]
    {
    }
  }

  /** So a mapping table without two spellings of a scanned value is enough. */
  lemma OneSpellingIsExact(lower: string -> string, raws: set<string>, values: seq<RowKey>, cap: nat, limit: nat)
    requires limit > 0 && Ascending(values)
    requires forall i | 0 <= i < |values| && i < cap :: |Spellings(lower, raws, values[i].1)| <= 1
    ensures Collected(values, v => JoinRows(lower, raws, v), cap, limit) == Wanted(values, cap)
  {
    CappedExactIff(values, v => JoinRows(lower, raws, v), cap, limit);
  }

  lemma DoubledValue(r: RowKey, times: RowKey -> nat)
    requires times(r) == 2
    ensures Collected([r], times, 1, 500) == ([r], true)
    ensures Collected([r], times, 5000, 500) == ([r, r], false)
  {
    assert [r][1..] == [];
    assert Expand([r], times) == Repeat(r, 2) + [];
    assert Expand([r], times) == [r, r];
    assert [r, r][..1] == [r];
  }

  /** One scanned value mapped as "Red" and "red": with a cap of one the feed claims
      that more exist, and with room for more it shows the value twice. */
  lemma TwoSpellings(lower: string -> string, raws: set<string>, r: RowKey)
    requires lower("Red") == "red" && lower("red") == "red"
    requires raws == {"Red", "red"} && r == (-2, "red")
    ensures Collected([r], v => JoinRows(lower, raws, v), 1, 500) == ([r], true)
    ensures Collected([r], v => JoinRows(lower, raws, v), 5000, 500) == ([r, r], false)
    ensures Wanted([r], 1) == Wanted([r], 5000) == ([r], false)
  {
    assert "Red"[0] != "red"[0];
    assert Spellings(lower, raws, "red") == raws;
    DoubledValue(r, v => JoinRows(lower, raws, v));
    assert [r][..1] == [r];
  }
}
