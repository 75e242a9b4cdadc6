/** Materialising a scan: two folds of the same occurrences, one by value and one by
    value, table and column, inserted in chunks. */
module ScanFold {
  import CappedFeed

  datatype Occurrence = Occurrence(raw: string, table: string, column: string, rows: int)

  /** One entry of a fold: its map key, its rows, and what else is stored with it. */
  datatype Entry<T> = Entry(key: string, rows: int, info: T)

  /** The rows of the entries whose key satisfies p. */
  function SumIf<T>(entries: seq<Entry<T>>, p: string -> bool): int
  {
    if entries == [] then 0 else (if p(entries[0].key) then entries[0].rows else 0) + SumIf(entries[1..], p)
  }

  lemma {:induction false} SumIfAppends<T>(a: seq<Entry<T>>, b: seq<Entry<T>>, p: string -> bool)
    ensures SumIf(a + b, p) == SumIf(a, p) + SumIf(b, p)
  {
    if a == [] {
      assert a + b == b;
    } else {
      assert (a + b)[0] == a[0] && (a + b)[1..] == a[1..] + b;
      SumIfAppends(a[1..], b, p);
    }
  }

  ghost predicate DistinctKeys<T>(entries: seq<Entry<T>>)
  {
    forall i, j | 0 <= i < j < |entries| :: entries[i].key != entries[j].key
  }

  ghost predicate HasKey<T>(entries: seq<Entry<T>>, key: string)
  {
    exists i | 0 <= i < |entries| :: entries[i].key == key
  }

  /** `info` came with the first entry of the key. */
  ghost predicate HasInfo<T(!new)>(entries: seq<Entry<T>>, key: string, info: T)
  {
    exists i | 0 <= i < |entries| :: entries[i].key == key && entries[i].info == info && NotBefore(entries, i, key)
  }

  ghost predicate NotBefore<T>(entries: seq<Entry<T>>, i: nat, key: string)
  {
    forall j | 0 <= j < i && j < |entries| :: entries[j].key != key
  }

  /** One entry for each key that occurs, with what came with it first. */
  ghost predicate SameKeys<T(!new)>(entries: seq<Entry<T>>, out: seq<Entry<T>>)
  {
    && DistinctKeys(out)
    && (forall i | 0 <= i < |entries| :: HasKey(out, entries[i].key))
    && (forall i | 0 <= i < |out| :: HasInfo(entries, out[i].key, out[i].info))
  }

  /** For every way of choosing keys the total is the same. */
  ghost predicate SameTotals<T(!new)>(entries: seq<Entry<T>>, out: seq<Entry<T>>)
  {
    forall p: string -> bool :: SumIf(out, p) == SumIf(entries, p)
  }

  /** `out` is the fold of `entries`. */
  ghost predicate IsFold<T(!new)>(entries: seq<Entry<T>>, out: seq<Entry<T>>)
  {
    SameKeys(entries, out) && SameTotals(entries, out)
  }

  lemma AddedRows<T(!new)>(out: seq<Entry<T>>, i: nat, rows: int, p: string -> bool)
    requires i < |out|
    ensures SumIf(out[i := out[i].(rows := out[i].rows + rows)], p) == SumIf(out, p) + if p(out[i].key) then rows else 0
  {
    var after := out[i := out[i].(rows := out[i].rows + rows)];
    assert out == out[..i] + ([out[i]] + out[i + 1..]);
    assert after == out[..i] + ([after[i]] + out[i + 1..]);
    SumIfAppends(out[..i], [out[i]] + out[i + 1..], p);
    SumIfAppends(out[..i], [after[i]] + out[i + 1..], p);
    SumIfAppends([out[i]], out[i + 1..], p);
    SumIfAppends([after[i]], out[i + 1..], p);
  }

  lemma HasMore<T(!new)>(entries: seq<Entry<T>>, more: seq<Entry<T>>, key: string, info: T)
    requires HasInfo(entries, key, info)
    ensures HasInfo(entries + more, key, info)
  {
    var i :| 0 <= i < |entries| && entries[i].key == key && entries[i].info == info && NotBefore(entries, i, key);
    assert (entries + more)[i] == entries[i] && NotBefore(entries + more, i, key);
  }

  lemma HasMoreKeys<T(!new)>(entries: seq<Entry<T>>, more: seq<Entry<T>>, key: string)
    requires HasKey(entries, key)
    ensures HasKey(entries + more, key)
  {
    var i :| 0 <= i < |entries| && entries[i].key == key;
    assert (entries + more)[i] == entries[i];
  }

  lemma JoinsKeys<T(!new)>(entries: seq<Entry<T>>, out: seq<Entry<T>>, e: Entry<T>, i: nat)
    requires SameKeys(entries, out) && i < |out| && out[i].key == e.key
    ensures SameKeys(entries + [e], out[i := out[i].(rows := out[i].rows + e.rows)])
  {
    var all, after := entries + [e], out[i := out[i].(rows := out[i].rows + e.rows)];
    forall k | HasKey(out, k)
      ensures HasKey(after, k)
    {
      var j :| 0 <= j < |out| && out[j].key == k;
      assert after[j].key == k;
    }
    assert after[i].key == e.key;
    forall j | 0 <= j < |after|
      ensures HasInfo(all, after[j].key, after[j].info)
    {
      HasMore(entries, [e], out[j].key, out[j].info);
    }
  }

  lemma JoinsTotals<T(!new)>(entries: seq<Entry<T>>, out: seq<Entry<T>>, e: Entry<T>, i: nat)
    requires SameTotals(entries, out) && i < |out| && out[i].key == e.key
    ensures SameTotals(entries + [e], out[i := out[i].(rows := out[i].rows + e.rows)])
  {
    forall p: string -> bool
      ensures SumIf(out[i := out[i].(rows := out[i].rows + e.rows)], p) == SumIf(entries + [e], p)
    {
      AddedRows(out, i, e.rows, p);
      SumIfAppends(entries, [e], p);
    }
  }

  lemma OpensKeys<T(!new)>(entries: seq<Entry<T>>, out: seq<Entry<T>>, e: Entry<T>)
    requires SameKeys(entries, out) && !HasKey(out, e.key)
    ensures SameKeys(entries + [e], out + [e])
  {
    var all, after := entries + [e], out + [e];
    assert after[|out|] == e && all[|entries|] == e;
    forall j | 0 <= j < |entries|
      ensures HasKey(after, entries[j].key)
    {
      HasMoreKeys(out, [e], entries[j].key);
    }
    assert NotBefore(all, |entries|, e.key);
    forall j | 0 <= j < |out|
      ensures HasInfo(all, out[j].key, out[j].info) && out[j].key != e.key
    {
      HasMore(entries, [e], out[j].key, out[j].info);
    }
  }

  lemma OpensTotals<T(!new)>(entries: seq<Entry<T>>, out: seq<Entry<T>>, e: Entry<T>)
    requires SameTotals(entries, out)
    ensures SameTotals(entries + [e], out + [e])
  {
    forall p: string -> bool
      ensures SumIf(out + [e], p) == SumIf(entries + [e], p)
    {
      SumIfAppends(out, [e], p);
      SumIfAppends(entries, [e], p);
    }
  }

  /** Where each key is in the output. */
  ghost predicate Indexes<T>(out: seq<Entry<T>>, index: map<string, nat>)
  {
    && (forall k | k in index :: index[k] < |out| && out[index[k]].key == k)
    && (forall i | 0 <= i < |out| :: out[i].key in index)
  }

  lemma NothingFolded<T(!new)>()
    ensures SameKeys<T>([], []) && SameTotals<T>([], []) && Indexes<T>([], map[])
  {
  }

  lemma FindsKey<T(!new)>(out: seq<Entry<T>>, index: map<string, nat>, key: string)
    requires Indexes(out, index)
    ensures key in index ==> index[key] < |out| && out[index[key]].key == key
    ensures key !in index ==> !HasKey(out, key)
  {
  }

  lemma JoinsIndex<T(!new)>(out: seq<Entry<T>>, index: map<string, nat>, i: nat, rows: int)
    requires Indexes(out, index) && i < |out|
    ensures Indexes(out[i := out[i].(rows := rows)], index)
  {
  }

  lemma OpensIndex<T(!new)>(out: seq<Entry<T>>, index: map<string, nat>, e: Entry<T>)
    requires Indexes(out, index) && e.key !in index
    ensures Indexes(out + [e], index[e.key := |out|])
  {
  }

  /** The Map loop: add to the entry of the key, or open one at the end. */
  method Fold<T(!new)>(entries: seq<Entry<T>>) returns (out: seq<Entry<T>>)
    ensures IsFold(entries, out)
  {
    hide SameKeys, SameTotals, SumIf, Indexes, HasKey;
    out := [];
    var index: map<string, nat> := map[];
    NothingFolded<T>();
    for n := 0 to |entries|
      invariant SameKeys(entries[..n], out) && SameTotals(entries[..n], out)
      invariant Indexes(out, index)
    {
      var e := entries[n];
      assert entries[..n + 1] == entries[..n] + [e];
      FindsKey(out, index, e.key);
      if e.key in index {
        var i := index[e.key];
        JoinsKeys(entries[..n], out, e, i);
        JoinsTotals(entries[..n], out, e, i);
        JoinsIndex(out, index, i, out[i].rows + e.rows);
        out := out[i := out[i].(rows := out[i].rows + e.rows)];
      } else {
        OpensKeys(entries[..n], out, e);
        OpensTotals(entries[..n], out, e);
        OpensIndex(out, index, e);
        index := index[e.key := |out|];
        out := out + [e];
      }
    }
    assert entries[..|entries|] == entries;
  }

  // ------------------------------------------------------------- the two folds

  predicate NoNul(s: string)
  {
    forall i | 0 <= i < |s| :: s[i] != '\0'
  }

  /** The key of the second fold: value, table and column with NULs between. */
  function OccKey(lower: string, table: string, column: string): string
  {
    lower + "\0" + table + "\0" + column
  }

  /** The text before the last NUL. */
  function BeforeLastNul(s: string): string
  {
    if s == [] then [] else if s[|s| - 1] == '\0' then s[..|s| - 1] else BeforeLastNul(s[..|s| - 1])
  }

  lemma {:induction false} LastNul(a: string, b: string)
    requires NoNul(b)
    ensures BeforeLastNul(a + "\0" + b) == a
  {
    var s := a + "\0" + b;
    if b == [] {
      assert s[..|s| - 1] == a;
    } else {
      assert s[..|s| - 1] == a + "\0" + b[..|b| - 1];
      LastNul(a, b[..|b| - 1]);
    }
  }

  /** The value part of a key. */
  function ValueOf(key: string): string
  {
    BeforeLastNul(BeforeLastNul(key))
  }

  /** The joined key determines its three parts when tables and columns contain no
      NUL, whatever the value contains. */
  lemma OccKeyParts(lower: string, table: string, column: string)
    requires NoNul(table) && NoNul(column)
    ensures BeforeLastNul(OccKey(lower, table, column)) == lower + "\0" + table
    ensures ValueOf(OccKey(lower, table, column)) == lower
  {
    LastNul(lower + "\0" + table, column);
    assert OccKey(lower, table, column) == (lower + "\0" + table) + "\0" + column;
    LastNul(lower, table);
  }

  lemma OccKeyInjective(a: (string, string, string), b: (string, string, string))
    requires NoNul(a.1) && NoNul(a.2) && NoNul(b.1) && NoNul(b.2)
    requires OccKey(a.0, a.1, a.2) == OccKey(b.0, b.1, b.2)
    ensures a == b
  {
    OccKeyParts(a.0, a.1, a.2);
    OccKeyParts(b.0, b.1, b.2);
    var s := OccKey(a.0, a.1, a.2);
    var head := a.0 + "\0" + a.1;
    assert s[|head| + 1..] == a.2 && s[|head| + 1..] == b.2;
    assert head[|a.0| + 1..] == a.1 && head[|a.0| + 1..] == b.1;
  }

  function ByValue(lower: string -> string, occs: seq<Occurrence>): seq<Entry<string>>
  {
    seq(|occs|, i requires 0 <= i < |occs| => Entry(lower(occs[i].raw), occs[i].rows, occs[i].raw))
  }

  function ByPlace(lower: string -> string, occs: seq<Occurrence>): seq<Entry<(string, string, string)>>
  {
    seq(|occs|, i requires 0 <= i < |occs| =>
      var o := occs[i];
      Entry(OccKey(lower(o.raw), o.table, o.column), o.rows, (lower(o.raw), o.table, o.column)))
  }

  function TotalRows(occs: seq<Occurrence>): int
  {
    if occs == [] then 0 else occs[0].rows + TotalRows(occs[1..])
  }

  /** materializeSourceScanValues: the rows of source_scan_value (raw and total per
      folded value) and of source_scan_occurrence (rows per value, table, column). */
  method Materialize(lower: string -> string, occs: seq<Occurrence>)
    returns (values: seq<Entry<string>>, places: seq<Entry<(string, string, string)>>)
    ensures IsFold(ByValue(lower, occs), values)
    ensures IsFold(ByPlace(lower, occs), places)
  {
    values := Fold(ByValue(lower, occs));
    places := Fold(ByPlace(lower, occs));
  }

  lemma {:induction false} SameSums(lower: string -> string, occs: seq<Occurrence>, value: string)
    requires forall o | o in occs :: NoNul(o.table) && NoNul(o.column)
    ensures SumIf(ByPlace(lower, occs), k => ValueOf(k) == value) == SumIf(ByValue(lower, occs), k => k == value)
  {
    if occs != [] {
      var o := occs[0];
      assert o in occs;
      OccKeyParts(lower(o.raw), o.table, o.column);
      assert ByPlace(lower, occs)[1..] == ByPlace(lower, occs[1..]);
      assert ByValue(lower, occs)[1..] == ByValue(lower, occs[1..]);
      SameSums(lower, occs[1..], value);
    }
  }

  lemma {:induction false} OnlyOne<T>(entries: seq<Entry<T>>, i: nat)
    requires DistinctKeys(entries) && i < |entries|
    ensures SumIf(entries, k => k == entries[i].key) == entries[i].rows
  {
    var p := k => k == entries[i].key;
    if i == 0 {
      NoneOf(entries[1..], p);
    } else {
      OnlyOne(entries[1..], i - 1);
      SamePredicate(entries[1..], k => k == entries[1..][i - 1].key, p);
    }
  }

  lemma {:induction false} NoneOf<T>(entries: seq<Entry<T>>, p: string -> bool)
    requires forall i | 0 <= i < |entries| :: !p(entries[i].key)
    ensures SumIf(entries, p) == 0
  {
    if entries != [] {
      NoneOf(entries[1..], p);
    }
  }

  lemma {:induction false} SamePredicate<T>(entries: seq<Entry<T>>, p: string -> bool, q: string -> bool)
    requires forall i | 0 <= i < |entries| :: p(entries[i].key) == q(entries[i].key)
    ensures SumIf(entries, p) == SumIf(entries, q)
  {
    if entries != [] {
      SamePredicate(entries[1..], p, q);
    }
  }

  lemma TotalsWhere<T(!new)>(entries: seq<Entry<T>>, out: seq<Entry<T>>, p: string -> bool)
    requires IsFold(entries, out)
    ensures SumIf(out, p) == SumIf(entries, p)
  {
  }

  /** The two folds agree: a value's total is the sum of the rows of its places. */
  lemma FoldsAgree(lower: string -> string, occs: seq<Occurrence>,
                   values: seq<Entry<string>>, places: seq<Entry<(string, string, string)>>, i: nat)
    requires IsFold(ByValue(lower, occs), values) && IsFold(ByPlace(lower, occs), places)
    requires forall o | o in occs :: NoNul(o.table) && NoNul(o.column)
    requires i < |values|
    ensures values[i].rows == SumIf(places, k => ValueOf(k) == values[i].key)
  {
    var value := values[i].key;
    var byValue: string -> bool := k => k == value;
    var byPlace: string -> bool := k => ValueOf(k) == value;
    TotalsWhere(ByValue(lower, occs), values, byValue);
    TotalsWhere(ByPlace(lower, occs), places, byPlace);
    OneValue(values, i, byValue);
    ValueSums(lower, occs, value, byValue, byPlace);
    SamePredicate(places, byPlace, k => ValueOf(k) == values[i].key);
  }

  lemma OneValue(values: seq<Entry<string>>, i: nat, p: string -> bool)
    requires DistinctKeys(values) && i < |values| && forall k :: p(k) <==> k == values[i].key
    ensures SumIf(values, p) == values[i].rows
  {
    OnlyOne(values, i);
    SamePredicate(values, p, k => k == values[i].key);
  }

  lemma ValueSums(lower: string -> string, occs: seq<Occurrence>, value: string,
                  byValue: string -> bool, byPlace: string -> bool)
    requires forall o | o in occs :: NoNul(o.table) && NoNul(o.column)
    requires forall k :: byValue(k) <==> k == value
    requires forall k :: byPlace(k) <==> ValueOf(k) == value
    ensures SumIf(ByPlace(lower, occs), byPlace) == SumIf(ByValue(lower, occs), byValue)
  {
    SameSums(lower, occs, value);
    SamePredicate(ByPlace(lower, occs), byPlace, k => ValueOf(k) == value);
    SamePredicate(ByValue(lower, occs), byValue, k => k == value);
  }

  /** And the value in a place's key is the value stored beside it. */
  lemma PlaceKeys(lower: string -> string, occs: seq<Occurrence>, places: seq<Entry<(string, string, string)>>, i: nat)
    requires IsFold(ByPlace(lower, occs), places) && i < |places|
    requires forall o | o in occs :: NoNul(o.table) && NoNul(o.column)
    ensures places[i].key == OccKey(places[i].info.0, places[i].info.1, places[i].info.2)
    ensures ValueOf(places[i].key) == places[i].info.0
  {
    var es := ByPlace(lower, occs);
    assert HasInfo(es, places[i].key, places[i].info);
    var j :| 0 <= j < |es| && es[j].key == places[i].key && es[j].info == places[i].info
             && NotBefore(es, j, places[i].key);
    assert occs[j] in occs;
    OccKeyParts(lower(occs[j].raw), occs[j].table, occs[j].column);
  }

  lemma {:induction false} EverythingByValue(lower: string -> string, occs: seq<Occurrence>)
    ensures SumIf(ByValue(lower, occs), k => true) == TotalRows(occs)
  {
    if occs != [] {
      assert ByValue(lower, occs)[1..] == ByValue(lower, occs[1..]);
      EverythingByValue(lower, occs[1..]);
    }
  }

  lemma {:induction false} EverythingByPlace(lower: string -> string, occs: seq<Occurrence>)
    ensures SumIf(ByPlace(lower, occs), k => true) == TotalRows(occs)
  {
    if occs != [] {
      assert ByPlace(lower, occs)[1..] == ByPlace(lower, occs[1..]);
      EverythingByPlace(lower, occs[1..]);
    }
  }

  /** Neither fold loses or invents rows. */
  lemma GrandTotals(lower: string -> string, occs: seq<Occurrence>,
                    values: seq<Entry<string>>, places: seq<Entry<(string, string, string)>>)
    requires IsFold(ByValue(lower, occs), values) && IsFold(ByPlace(lower, occs), places)
    ensures SumIf(values, k => true) == TotalRows(occs)
    ensures SumIf(places, k => true) == TotalRows(occs)
  {
    EverythingByValue(lower, occs);
    EverythingByPlace(lower, occs);
    TotalsWhere(ByValue(lower, occs), values, k => true);
    TotalsWhere(ByPlace(lower, occs), places, k => true);
  }

  /** No insert list names one primary key twice, which ON CONFLICT DO UPDATE would
      refuse: values are distinct, and so are (value, table, column) triples. */
  lemma PrimaryKeysOnce(lower: string -> string, occs: seq<Occurrence>,
                        values: seq<Entry<string>>, places: seq<Entry<(string, string, string)>>)
    requires IsFold(ByValue(lower, occs), values) && IsFold(ByPlace(lower, occs), places)
    requires forall o | o in occs :: NoNul(o.table) && NoNul(o.column)
    ensures forall i, j | 0 <= i < j < |values| :: values[i].key != values[j].key
    ensures forall i, j | 0 <= i < j < |places| :: places[i].info != places[j].info
  {
    forall i | 0 <= i < |places|
      ensures places[i].key == OccKey(places[i].info.0, places[i].info.1, places[i].info.2)
    {
      PlaceKeys(lower, occs, places, i);
    }
  }

  // ------------------------------------------------------------- the rows written

  /** The rows of the occurrences that satisfy p. */
  function RowsWhere(occs: seq<Occurrence>, p: Occurrence -> bool): int
  {
    if occs == [] then 0 else (if p(occs[0]) then occs[0].rows else 0) + RowsWhere(occs[1..], p)
  }

  lemma {:induction false} ValueSumIs(lower: string -> string, occs: seq<Occurrence>, p: string -> bool,
                                      q: Occurrence -> bool)
    requires forall o :: q(o) <==> p(lower(o.raw))
    ensures SumIf(ByValue(lower, occs), p) == RowsWhere(occs, q)
  {
    if occs != [] {
      assert ByValue(lower, occs)[1..] == ByValue(lower, occs[1..]);
      ValueSumIs(lower, occs[1..], p, q);
    }
  }

  lemma {:induction false} PlaceSumIs(lower: string -> string, occs: seq<Occurrence>, p: string -> bool,
                                      q: Occurrence -> bool)
    requires forall o | o in occs :: q(o) <==> p(OccKey(lower(o.raw), o.table, o.column))
    ensures SumIf(ByPlace(lower, occs), p) == RowsWhere(occs, q)
  {
    if occs != [] {
      assert ByPlace(lower, occs)[1..] == ByPlace(lower, occs[1..]);
      assert occs[0] in occs;
      PlaceSumIs(lower, occs[1..], p, q);
    }
  }

  /** A row of source_scan_value: a folded value, the spelling in which it occurred first,
      and all rows of the occurrences that fold to it. */
  lemma ValueRowMeans(lower: string -> string, occs: seq<Occurrence>, values: seq<Entry<string>>, i: nat)
    requires IsFold(ByValue(lower, occs), values) && i < |values|
    ensures exists j :: && 0 <= j < |occs| && lower(occs[j].raw) == values[i].key && occs[j].raw == values[i].info
                        && forall m | 0 <= m < j :: lower(occs[m].raw) != values[i].key
    ensures values[i].rows == RowsWhere(occs, (o: Occurrence) => lower(o.raw) == values[i].key)
  {
    var es, key := ByValue(lower, occs), values[i].key;
    assert HasInfo(es, key, values[i].info);
    var j :| 0 <= j < |es| && es[j].key == key && es[j].info == values[i].info && NotBefore(es, j, key);
    forall m | 0 <= m < j
      ensures lower(occs[m].raw) != key
    {
      assert es[m].key != key;
    }
    assert lower(occs[j].raw) == key && occs[j].raw == values[i].info;
    var p: string -> bool := k => k == key;
    TotalsWhere(es, values, p);
    OneValue(values, i, p);
    ValueSumIs(lower, occs, p, (o: Occurrence) => lower(o.raw) == values[i].key);
  }

  /** A row of source_scan_occurrence: a folded value, a table and a column, and all rows
      of the occurrences there that fold to it. */
  lemma PlaceRowMeans(lower: string -> string, occs: seq<Occurrence>, places: seq<Entry<(string, string, string)>>,
                      i: nat)
    requires IsFold(ByPlace(lower, occs), places) && i < |places|
    requires forall o | o in occs :: NoNul(o.table) && NoNul(o.column)
    ensures exists o | o in occs :: (lower(o.raw), o.table, o.column) == places[i].info
    ensures places[i].rows == RowsWhere(occs, (o: Occurrence) => (lower(o.raw), o.table, o.column) == places[i].info)
  {
    var es, key := ByPlace(lower, occs), places[i].key;
    assert HasInfo(es, key, places[i].info);
    var j :| 0 <= j < |es| && es[j].key == key && es[j].info == places[i].info && NotBefore(es, j, key);
    assert occs[j] in occs && (lower(occs[j].raw), occs[j].table, occs[j].column) == places[i].info;
    var p: string -> bool := k => k == key;
    TotalsWhere(es, places, p);
    OnlyOne(places, i);
    SamePredicate(places, p, k => k == places[i].key);
    forall o | o in occs
      ensures (lower(o.raw), o.table, o.column) == places[i].info <==> p(OccKey(lower(o.raw), o.table, o.column))
    {
      if p(OccKey(lower(o.raw), o.table, o.column)) {
        OccKeyInjective((lower(o.raw), o.table, o.column), places[i].info);
      }
    }
    PlaceSumIs(lower, occs, p, (o: Occurrence) => (lower(o.raw), o.table, o.column) == places[i].info);
  }

  /** Every occurrence is in a row of each kind. */
  lemma EveryOccurrenceWritten(lower: string -> string, occs: seq<Occurrence>, o: Occurrence,
                               values: seq<Entry<string>>, places: seq<Entry<(string, string, string)>>)
    requires IsFold(ByValue(lower, occs), values) && IsFold(ByPlace(lower, occs), places) && o in occs
    requires forall x | x in occs :: NoNul(x.table) && NoNul(x.column)
    ensures exists i :: 0 <= i < |values| && values[i].key == lower(o.raw)
    ensures exists i :: 0 <= i < |places| && places[i].info == (lower(o.raw), o.table, o.column)
  {
    var j :| 0 <= j < |occs| && occs[j] == o;
    var vs, ps := ByValue(lower, occs), ByPlace(lower, occs);
    assert HasKey(values, vs[j].key) && HasKey(places, ps[j].key);
    var i :| 0 <= i < |places| && places[i].key == ps[j].key;
    PlaceKeys(lower, occs, places, i);
    var first :| 0 <= first < |ps| && ps[first].key == places[i].key && ps[first].info == places[i].info
                 && NotBefore(ps, first, places[i].key);
    assert occs[first] in occs;
    OccKeyInjective(ps[first].info, (lower(o.raw), o.table, o.column));
  }

  // ------------------------------------------------------------- chunks

  const CHUNK := 500
  const PARAMS_PER_ROW := 6
  const MAX_PARAMS := 65535

  function Flatten<T>(chunks: seq<seq<T>>): seq<T>
  {
    if chunks == [] then [] else Flatten(chunks[..|chunks| - 1]) + chunks[|chunks| - 1]
  }

  /** bulkInsertChunked: the rows of each statement. */
  method BulkInsertChunked<T>(rows: seq<T>) returns (statements: seq<seq<T>>)
    ensures Flatten(statements) == rows
    ensures forall s | s in statements :: 0 < |s| <= CHUNK && |s| * PARAMS_PER_ROW <= 3000 < MAX_PARAMS
    ensures |statements| == (|rows| + CHUNK - 1) / CHUNK
  {
    statements := [];
    var i := 0;
    while i < |rows|
      invariant i == |statements| * CHUNK
      invariant Flatten(statements) == rows[..if i < |rows| then i else |rows|]
      invariant forall s | s in statements :: 0 < |s| <= CHUNK
      invariant i < |rows| + CHUNK
    {
      var end := if i + CHUNK < |rows| then i + CHUNK else |rows|;
      var chunk := rows[i..end];
      assert rows[..end] == rows[..i] + chunk;
      assert (statements + [chunk])[..|statements|] == statements;
      statements := statements + [chunk];
      i := i + CHUNK;
    }
    assert rows[..|rows|] == rows;
  }

  // ------------------------------------------------------------- scalars

  /** The mapped raws that join a scanned value: the rows that COUNT(*) counts. */
  function Joined(lower: string -> string, values: set<string>, raws: set<string>): set<string>
  {
    set m | m in raws && lower(m) in values
  }

  /** The scanned values that are mapped. */
  function MappedValues(lower: string -> string, values: set<string>, raws: set<string>): set<string>
  {
    set m | m in raws && lower(m) in values :: lower(m)
  }

  ghost predicate FoldsApart(lower: string -> string, raws: set<string>)
  {
    forall a, b | a in raws && b in raws && lower(a) == lower(b) :: a == b
  }

  function Image(lower: string -> string, raws: set<string>): set<string>
  {
    set m | m in raws :: lower(m)
  }

  lemma {:induction false} ImageSize(lower: string -> string, raws: set<string>)
    ensures |Image(lower, raws)| <= |raws|
    ensures |Image(lower, raws)| == |raws| <==> FoldsApart(lower, raws)
    decreases raws
  {
    if raws != {} {
      var x :| x in raws;
      ImageSize(lower, raws - {x});
      ImageGrows(lower, raws, x);
    }
  }

  lemma ImageGrows(lower: string -> string, raws: set<string>, x: string)
    requires x in raws
    ensures Image(lower, raws) == Image(lower, raws - {x}) + {lower(x)}
    ensures FoldsApart(lower, raws) <==> FoldsApart(lower, raws - {x}) && lower(x) !in Image(lower, raws - {x})
  {
    var rest := raws - {x};
    assert raws == rest + {x};
    assert forall y | y in rest :: lower(y) in Image(lower, rest);
  }

  /** The mapped count is never too small, and it is the number of mapped values
      exactly when no two mapped raws fold to one scanned value. */
  lemma MappedCountExactIff(lower: string -> string, values: set<string>, raws: set<string>)
    ensures |MappedValues(lower, values, raws)| <= |Joined(lower, values, raws)|
    ensures |Joined(lower, values, raws)| == |MappedValues(lower, values, raws)| <==>
            FoldsApart(lower, Joined(lower, values, raws))
  {
    var joined := Joined(lower, values, raws);
    ImageSize(lower, joined);
    assert MappedValues(lower, values, raws) == Image(lower, joined);
  }

  /** Two spellings of one value in the mapping table, as seeding leaves them, make
      the count of new values negative. */
  lemma NewCountCanBeNegative(lower: string -> string)
    requires lower("Red") == "red" && lower("red") == "red"
    ensures |{"red"}| - |Joined(lower, {"red"}, {"Red", "red"})| == -1
  {
    assert Joined(lower, {"red"}, {"Red", "red"}) == {"Red", "red"};
    assert "Red"[0] != "red"[0];
  }

  /** COALESCE(SUM(v.total_rows), 0) over the join: a value's rows come once for each
      spelling that it is mapped under. */
  function JoinedRows(lower: string -> string, raws: set<string>, values: seq<Entry<string>>): int
  {
    if values == [] then 0
    else
      values[0].rows * |CappedFeed.Spellings(lower, raws, values[0].key)| + JoinedRows(lower, raws, values[1..])
  }

  /** Every mapped spelling counts the rows of its value once. */
  lemma {:induction false} SpellingCounts(lower: string -> string, raws: set<string>, m: string,
                                          values: seq<Entry<string>>, p: string -> bool)
    requires m !in raws && forall k :: p(k) <==> k == lower(m)
    ensures JoinedRows(lower, raws + {m}, values) == JoinedRows(lower, raws, values) + SumIf(values, p)
    ensures JoinedRows(lower, {}, values) == 0
  {
    if values != [] {
      hide CappedFeed.Spellings;
      SpellingCounts(lower, raws, m, values[1..], p);
      var key := values[0].key;
      OneSpellingMore(lower, raws, m, key);
      var n := |CappedFeed.Spellings(lower, raws, key)|;
      assert values[0].rows * (n + 1) == values[0].rows * n + values[0].rows;
    }
  }

  lemma OneSpellingMore(lower: string -> string, raws: set<string>, m: string, key: string)
    requires m !in raws
    ensures |CappedFeed.Spellings(lower, raws + {m}, key)|
            == |CappedFeed.Spellings(lower, raws, key)| + if lower(m) == key then 1 else 0
    ensures |CappedFeed.Spellings(lower, {}, key)| == 0
  {
    var before, after := CappedFeed.Spellings(lower, raws, key), CappedFeed.Spellings(lower, raws + {m}, key);
    assert after == if lower(m) == key then before + {m} else before;
    assert CappedFeed.Spellings(lower, {}, key) == {};
  }

  predicate IsMapped(lower: string -> string, raws: set<string>, value: string)
  {
    CappedFeed.Spellings(lower, raws, value) != {}
  }

  /** What the join adds up for one value, against its rows. */
  lemma ManySpellings(rows: int, n: nat)
    requires rows >= 0
    ensures n >= 1 ==> rows * n >= rows && (rows * n == rows <==> rows == 0 || n == 1)
  {
    if n >= 1 {
      assert rows * n == rows + rows * (n - 1);
    }
  }

  /** `mappedRowsTotal` is never too small and `unmappedRowsTotal`, which is what
      remains of all rows, never too large; both are exact exactly when each scanned
      value with rows is mapped under one spelling at most. */
  lemma {:induction false} MappedRowsExactIff(lower: string -> string, raws: set<string>, values: seq<Entry<string>>)
    requires forall e | e in values :: e.rows >= 0
    ensures var mapped := SumIf(values, k => IsMapped(lower, raws, k));
            var unmapped := SumIf(values, k => !IsMapped(lower, raws, k));
            var all := SumIf(values, _ => true);
            && mapped <= JoinedRows(lower, raws, values)
            && all - JoinedRows(lower, raws, values) <= unmapped
            && (JoinedRows(lower, raws, values) == mapped <==>
                forall e | e in values :: e.rows == 0 || |CappedFeed.Spellings(lower, raws, e.key)| <= 1)
            && (all - JoinedRows(lower, raws, values) == unmapped <==>
                forall e | e in values :: e.rows == 0 || |CappedFeed.Spellings(lower, raws, e.key)| <= 1)
  {
    if values != [] {
      MappedRowsExactIff(lower, raws, values[1..]);
      ManySpellings(values[0].rows, |CappedFeed.Spellings(lower, raws, values[0].key)|);
    }
  }

  /** With the same two spellings, one row counts as two mapped and minus one unmapped. */
  lemma UnmappedRowsCanBeNegative(lower: string -> string)
    requires lower("Red") == "red" && lower("red") == "red"
    ensures var values := [Entry("red", 1, "Red")];
            SumIf(values, _ => true) - JoinedRows(lower, {"Red", "red"}, values) == -1
  {
    var values := [Entry("red", 1, "Red")];
    assert CappedFeed.Spellings(lower, {"Red", "red"}, "red") == {"Red", "red"};
    assert "Red"[0] != "red"[0];
    assert JoinedRows(lower, {"Red", "red"}, values[1..]) == 0;
    assert SumIf(values[1..], _ => true) == 0;
  }
}
