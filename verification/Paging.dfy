/** Keyset paging over any strict total order of rows: a request fetches one row
    more than the page holds, drops that sentinel, and hands back the last kept row
    as the cursor; a reader asks again until there is no cursor. */
module Paging {
  import opened Prelude

  ghost predicate StrictTotal<K(!new)>(less: (K, K) -> bool)
  {
    && (forall a :: !less(a, a))
    && (forall a, b :: a == b || less(a, b) || less(b, a))
    && (forall a, b, d :: less(a, b) && less(b, d) ==> less(a, d))
  }

  ghost predicate Ascending<K>(less: (K, K) -> bool, page: seq<K>)
  {
    forall i, j | 0 <= i < j < |page| :: less(page[i], page[j])
  }

  /** `page` is the first `limit` of the rows ahead, in order; the cursor is its last
      row when more rows follow, and null otherwise. */
  ghost predicate IsPage<K>(ahead: set<K>, less: (K, K) -> bool, limit: nat, page: seq<K>, next: Option<K>)
  {
    && Ascending(less, page) && |page| <= limit
    && (forall r | r in page :: r in ahead)
    && match next
       case None => forall r | r in ahead :: r in page
       case Some(last) =>
         && |page| == limit > 0 && last == page[limit - 1]
         && (forall r | r in ahead :: r in page || less(last, r))
         && (exists r | r in ahead :: less(last, r))
  }

  lemma {:induction false} LeastExists<K(!new)>(rows: set<K>, less: (K, K) -> bool) returns (least: K)
    requires StrictTotal(less) && rows != {}
    ensures least in rows && forall r | r in rows :: r == least || less(least, r)
    decreases rows
  {
    var x :| x in rows;
    var rest := rows - {x};
    if rest == {} {
      least := x;
      assert rows == {x};
    } else {
      var y := LeastExists(rest, less);
      least := if less(x, y) then x else y;
      forall r | r in rows
        ensures r == least || less(least, r)
      {
        assert r == x || r in rest;
      }
    }
  }

  /** ORDER BY ... LIMIT n over the rows ahead. */
  method Fetch<K(==,!new)>(ahead: set<K>, less: (K, K) -> bool, n: nat) returns (page: seq<K>)
    requires StrictTotal(less)
    ensures Ascending(less, page) && |page| <= n
    ensures forall r | r in page :: r in ahead
    ensures forall r, i | r in ahead && r !in page && 0 <= i < |page| :: less(page[i], r)
    ensures |page| < n ==> forall r | r in ahead :: r in page
  {
    page := [];
    var todo := ahead;
    while |page| < n && todo != {}
      invariant todo <= ahead && |page| <= n && Ascending(less, page)
      invariant forall r | r in ahead :: r in page || r in todo
      invariant forall r | r in page :: r in ahead
      invariant forall r, i | r in todo && 0 <= i < |page| :: less(page[i], r)
    {
      ghost var least0 := LeastExists(todo, less);
      var least :| least in todo && forall r | r in todo :: r == least || less(least, r);
      page := page + [least];
      todo := todo - {least};
    }
  }

  /** One page request.  A page of no rows has no last row to make a cursor of: the
      request fails as soon as there is anything to read. */
  method ReadPage<K(==,!new)>(ahead: set<K>, less: (K, K) -> bool, limit: nat)
    returns (failed: bool, page: seq<K>, next: Option<K>)
    requires StrictTotal(less)
    ensures failed <==> limit == 0 && ahead != {}
    ensures !failed ==> IsPage(ahead, less, limit, page, next)
  {
    page := Fetch(ahead, less, limit + 1);
    failed, next := false, None;
    if |page| > limit {
      ghost var sentinel := page[limit];
      assert forall r | r in page :: r in page[..limit] || r == sentinel;
      assert sentinel in page;
      page := page[..limit];
      if limit == 0 {
        return true, [], None;
      }
      next := Some(page[limit - 1]);
      assert less(page[limit - 1], sentinel);
    }
  }

  /** WHERE key > cursor. */
  function Ahead<K>(rows: set<K>, less: (K, K) -> bool, cursor: Option<K>): set<K>
  {
    set r | r in rows && (cursor.Some? ==> less(cursor.value, r))
  }

  lemma PageAdvances<K(!new)>(rows: set<K>, less: (K, K) -> bool, cursor: Option<K>, limit: nat, page: seq<K>, last: K)
    requires StrictTotal(less) && IsPage(Ahead(rows, less, cursor), less, limit, page, Some(last))
    ensures Ahead(rows, less, Some(last)) < Ahead(rows, less, cursor)
    ensures last in Ahead(rows, less, cursor)
    ensures forall r | r in Ahead(rows, less, cursor) :: r in page || less(last, r)
    ensures forall r | r in page :: r == last || less(r, last)
  {
    assert last in page && last !in Ahead(rows, less, Some(last));
  }

  /** Page from no cursor until the cursor is null: the loop ends, and the reader
      has every row exactly once, in order. */
  method ReadAll<K(==,!new)>(rows: set<K>, less: (K, K) -> bool, limit: nat) returns (all: seq<K>)
    requires StrictTotal(less) && limit > 0
    ensures Ascending(less, all)
    ensures forall r :: r in all <==> r in rows
  {
    all := [];
    var cursor: Option<K> := None;
    while true
      invariant Ascending(less, all)
      invariant forall r | r in all :: r in rows && r !in Ahead(rows, less, cursor)
      invariant forall r | r in rows :: r in all || r in Ahead(rows, less, cursor)
      invariant forall r, s | r in Ahead(rows, less, cursor) && s in all :: less(s, r)
      decreases Ahead(rows, less, cursor)
    {
      var failed, page, next := ReadPage(Ahead(rows, less, cursor), less, limit);
      JoinAscending(less, all, page);
      all := all + page;
      if next.None? {
        break;
      }
      PageAdvances(rows, less, cursor, limit, page, next.value);
      cursor := next;
    }
  }

  lemma JoinAscending<K>(less: (K, K) -> bool, before: seq<K>, page: seq<K>)
    requires Ascending(less, before) && Ascending(less, page)
    requires forall r, s | r in page && s in before :: less(s, r)
    ensures Ascending(less, before + page)
  {
  }

  // ------------------------------------------------------------- the drafts feed

  /** (reference_table_id, raw, user_id), the key and the cursor of the drafts. */
  type DraftKey = (string, string, string)

  /** Row-wise comparison in SQL. */
  predicate DraftBefore(a: DraftKey, b: DraftKey)
  {
    if a.0 != b.0 then LexLess(a.0, b.0)
    else if a.1 != b.1 then LexLess(a.1, b.1)
    else LexLess(a.2, b.2)
  }

  lemma TextIsTotal(a: string, b: string, d: string)
    ensures !LexLess(a, a) && (a == b || LexLess(a, b) || LexLess(b, a)) && !(LexLess(a, b) && LexLess(b, a))
    ensures LexLess(a, b) && LexLess(b, d) ==> LexLess(a, d)
  {
    LexIrreflexive(a);
    LexTotal(a, b);
    if LexLess(a, b) {
      LexAsymmetric(a, b);
      if LexLess(b, d) {
        LexTransitive(a, b, d);
      }
    }
  }

  lemma DraftBeforeIsTotal()
    ensures StrictTotal(DraftBefore)
    ensures forall a, b | DraftBefore(a, b) ::
              && (a.0 == b.0 || LexLess(a.0, b.0))
              && (a.0 == b.0 ==> a.1 == b.1 || LexLess(a.1, b.1))
              && (a.0 == b.0 && a.1 == b.1 ==> LexLess(a.2, b.2))
  {
    forall a, b, d: DraftKey
      ensures !DraftBefore(a, a) && (a == b || DraftBefore(a, b) || DraftBefore(b, a))
      ensures DraftBefore(a, b) && DraftBefore(b, d) ==> DraftBefore(a, d)
    {
      TextIsTotal(a.0, b.0, d.0);
      TextIsTotal(a.1, b.1, d.1);
      TextIsTotal(a.2, b.2, d.2);
    }
  }

  /** The key under which the browser files a draft: an author without a user row is
      shown as "unknown". */
  function ShownKey(users: set<string>, k: DraftKey): DraftKey
  {
    (k.0, k.1, if k.2 in users then k.2 else "unknown")
  }

  /** k is the last of the drafts that share its shown key. */
  ghost predicate IsLastShown(users: set<string>, keys: seq<DraftKey>, k: DraftKey)
  {
    k in keys && forall j | j in keys && ShownKey(users, j) == ShownKey(users, k) && j != k :: DraftBefore(j, k)
  }

  /** What the browser has filed of `keys`: of those with one shown key, the last. */
  ghost predicate Filed<D(!new)>(users: set<string>, drafts: map<DraftKey, D>, keys: seq<DraftKey>,
                                 flat: map<DraftKey, D>)
  {
    && flat.Keys == (set k | k in keys :: ShownKey(users, k))
    && forall k | IsLastShown(users, keys, k) ::
         k in drafts && ShownKey(users, k) in flat && flat[ShownKey(users, k)] == drafts[k]
  }

  /** What the browser holds after loading the drafts page by page, in their order. */
  method LoadDrafts<D(!new)>(drafts: map<DraftKey, D>, users: set<string>, limit: nat)
    returns (flat: map<DraftKey, D>, ghost keys: seq<DraftKey>)
    requires limit > 0
    ensures Ascending(DraftBefore, keys) && forall k :: k in keys <==> k in drafts
    ensures Filed(users, drafts, keys, flat)
  {
    hide Filed, DraftBefore, StrictTotal, Ascending;
    DraftBeforeIsTotal();
    var order := ReadAll(drafts.Keys, DraftBefore, limit);
    keys := order;
    flat := map[];
    assert Filed(users, drafts, [], flat) by {
      NothingFiled(users, drafts);
    }
    for i := 0 to |order|
      invariant Filed(users, drafts, order[..i], flat)
    {
      assert order[i] in order;
      FilesNext(users, drafts, order, i, flat);
      flat := flat[ShownKey(users, order[i]) := drafts[order[i]]];
    }
    assert order[..|order|] == order;
  }

  lemma NothingFiled<D(!new)>(users: set<string>, drafts: map<DraftKey, D>)
    ensures Filed(users, drafts, [], map[])
  {
  }

  lemma FilesNext<D(!new)>(users: set<string>, drafts: map<DraftKey, D>, keys: seq<DraftKey>, i: nat,
                           flat: map<DraftKey, D>)
    requires StrictTotal(DraftBefore) && Ascending(DraftBefore, keys) && i < |keys| && keys[i] in drafts
    requires Filed(users, drafts, keys[..i], flat)
    ensures Filed(users, drafts, keys[..i + 1], flat[ShownKey(users, keys[i]) := drafts[keys[i]]])
  {
    hide IsLastShown, DraftBefore, ShownKey;
    NextIsLast(users, keys, i);
    assert keys[..i + 1] == keys[..i] + [keys[i]];
  }

  /** Drafts come in order, so each replaces what its shown key had. */
  lemma NextIsLast(users: set<string>, keys: seq<DraftKey>, i: nat)
    requires StrictTotal(DraftBefore) && Ascending(DraftBefore, keys) && i < |keys|
    ensures forall k | IsLastShown(users, keys[..i + 1], k) ::
              k == keys[i] || (ShownKey(users, k) != ShownKey(users, keys[i]) && IsLastShown(users, keys[..i], k))
  {
    var some := keys[..i + 1];
    assert some == keys[..i] + [keys[i]];
    forall k | IsLastShown(users, some, k) && k != keys[i]
      ensures ShownKey(users, k) != ShownKey(users, keys[i]) && IsLastShown(users, keys[..i], k)
    {
      assert keys[i] in some;
      var l :| 0 <= l < i && keys[l] == k;
      assert DraftBefore(k, keys[i]);
    }
  }

  /** So no draft is lost exactly when, of each value, at most one draft is shown as
      unknown. */
  lemma ShownApartIff(users: set<string>, drafts: set<DraftKey>)
    ensures (forall a, b | a in drafts && b in drafts && ShownKey(users, a) == ShownKey(users, b) :: a == b) <==>
            forall a, b | a in drafts && b in drafts && a.0 == b.0 && a.1 == b.1 && a != b ::
              (a.2 in users && a.2 != "unknown") || (b.2 in users && b.2 != "unknown")
  {
    forall a, b | a in drafts && b in drafts
      ensures ShownKey(users, a) == ShownKey(users, b) && a != b <==>
              && a.0 == b.0 && a.1 == b.1 && a != b
              && (a.2 in users ==> a.2 == "unknown") && (b.2 in users ==> b.2 == "unknown")
    {
    }
  }

  /** Then the browser holds every draft. */
  lemma NothingLost<D(!new)>(users: set<string>, drafts: map<DraftKey, D>, keys: seq<DraftKey>, flat: map<DraftKey, D>)
    requires (forall k :: k in keys <==> k in drafts) && Filed(users, drafts, keys, flat)
    requires forall a, b | a in drafts && b in drafts && a.0 == b.0 && a.1 == b.1 && a != b ::
               (a.2 in users && a.2 != "unknown") || (b.2 in users && b.2 != "unknown")
    ensures forall k | k in drafts :: ShownKey(users, k) in flat && flat[ShownKey(users, k)] == drafts[k]
  {
    ShownApartIff(users, drafts.Keys);
    forall k | k in drafts
      ensures IsLastShown(users, keys, k)
    {
    }
  }
}
