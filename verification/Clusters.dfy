/** Deterministic clustering of scanned values by a conservative fold key. */
module Clusters {
  import opened Prelude

  /** Fold a value to its cluster key.  `clean` stands for the Unicode part: NFKD,
      strip diacritics, lower-case, drop what is not a letter or digit. */
  function NormalizeKey(clean: string -> string, raw: string): string
  {
    if clean(raw) == "" then "\0" + raw else clean(raw)
  }

  predicate Alphanumeric(s: string)
  {
    forall i | 0 <= i < |s| :: 'a' <= s[i] <= 'z' || '0' <= s[i] <= '9'
  }

  /** A value without letters or digits merges with nothing but itself. */
  lemma PunctuationStaysAlone(clean: string -> string, a: string, b: string)
    requires Alphanumeric(clean(b)) && clean(a) == ""
    requires NormalizeKey(clean, a) == NormalizeKey(clean, b)
    ensures a == b
  {
    var key := NormalizeKey(clean, a);
    assert key[0] == '\0' && key[1..] == a;
    assert clean(b) == "";
    assert key[1..] == b;
  }

  /** Values with letters or digits merge exactly when these are the same. */
  lemma FoldTogetherIff(clean: string -> string, a: string, b: string)
    requires Alphanumeric(clean(a)) && Alphanumeric(clean(b))
    ensures NormalizeKey(clean, a) == NormalizeKey(clean, b) <==>
            clean(a) == clean(b) && (clean(a) == "" ==> a == b)
  {
    if NormalizeKey(clean, a) == NormalizeKey(clean, b) {
      if clean(a) == "" {
        PunctuationStaysAlone(clean, a, b);
      } else if clean(b) == "" {
        PunctuationStaysAlone(clean, b, a);
      }
    }
  }

  // ------------------------------------------------------------- sorting

  /** What the two comparators look at: a weight, descending, then a text, ascending. */
  type Rank = (int, string)

  predicate Ahead(a: Rank, b: Rank)
  {
    a.0 > b.0 || (a.0 == b.0 && (a.1 == b.1 || LexLess(a.1, b.1)))
  }

  lemma AheadOrder(a: Rank, b: Rank, d: Rank)
    ensures Ahead(a, b) || Ahead(b, a)
    ensures Ahead(a, b) && Ahead(b, a) ==> a == b
    ensures Ahead(a, b) && Ahead(b, d) ==> Ahead(a, d)
  {
    LexTotal(a.1, b.1);
    if LexLess(a.1, b.1) {
      LexAsymmetric(a.1, b.1);
      if LexLess(b.1, d.1) {
        LexTransitive(a.1, b.1, d.1);
      }
    }
  }

  ghost predicate Sorted<T(!new)>(s: seq<T>, rank: T -> Rank)
  {
    forall i, j | 0 <= i < j < |s| :: Ahead(rank(s[i]), rank(s[j]))
  }

  /** Array.sort with a comparator on ranks. */
  method SortBy<T(!new)>(s: seq<T>, rank: T -> Rank) returns (r: seq<T>)
    ensures multiset(r) == multiset(s) && Sorted(r, rank)
  {
    r := [];
    for i := 0 to |s|
      invariant multiset(r) == multiset(s[..i]) && Sorted(r, rank)
    {
      var j := 0;
      while j < |r| && Ahead(rank(r[j]), rank(s[i]))
        invariant j <= |r| && forall m | 0 <= m < j :: Ahead(rank(r[m]), rank(s[i]))
      {
        j := j + 1;
      }
      InsertedSorted(r, rank, j, s[i]);
      assert s[..i + 1] == s[..i] + [s[i]];
      assert r == r[..j] + r[j..];
      r := r[..j] + [s[i]] + r[j..];
    }
    assert s[..|s|] == s;
  }

  lemma InsertedSorted<T(!new)>(r: seq<T>, rank: T -> Rank, j: nat, x: T)
    requires Sorted(r, rank) && j <= |r|
    requires forall m | 0 <= m < j :: Ahead(rank(r[m]), rank(x))
    requires j < |r| ==> !Ahead(rank(r[j]), rank(x))
    ensures Sorted(r[..j] + [x] + r[j..], rank)
  {
    forall m | j <= m < |r|
      ensures Ahead(rank(x), rank(r[m]))
    {
      AheadOrder(rank(x), rank(r[j]), rank(r[m]));
    }
  }

  /** A multiset whose elements have different ranks can be sorted in one way only. */
  lemma {:induction false} SortedUnique<T(!new)>(a: seq<T>, b: seq<T>, rank: T -> Rank)
    requires multiset(a) == multiset(b) && Sorted(a, rank) && Sorted(b, rank)
    requires forall x, y | x in a && y in a && rank(x) == rank(y) :: x == y
    ensures a == b
  {
    assert |multiset(a)| == |a| && |multiset(b)| == |b|;
    if a != [] {
      SortedHeads(a, b, rank);
      TailsMatch(a, b);
      forall x, y | x in a[1..] && y in a[1..] && rank(x) == rank(y)
        ensures x == y
      {
        assert x in a && y in a;
      }
      SortedUnique(a[1..], b[1..], rank);
      assert a == [a[0]] + a[1..] && b == [b[0]] + b[1..];
    }
  }

  lemma SortedHeads<T(!new)>(a: seq<T>, b: seq<T>, rank: T -> Rank)
    requires a != [] && b != [] && multiset(a) == multiset(b) && Sorted(a, rank) && Sorted(b, rank)
    requires forall x, y | x in a && y in a && rank(x) == rank(y) :: x == y
    ensures a[0] == b[0]
  {
    assert a[0] in multiset(b) && b[0] in multiset(a);
    var i :| 0 <= i < |b| && b[i] == a[0];
    var j :| 0 <= j < |a| && a[j] == b[0];
    AheadOrder(rank(a[0]), rank(b[0]), rank(a[0]));
  }

  lemma TailsMatch<T(!new)>(a: seq<T>, b: seq<T>)
    requires a != [] && b != [] && a[0] == b[0] && multiset(a) == multiset(b)
    ensures multiset(a[1..]) == multiset(b[1..])
  {
    assert a == [a[0]] + a[1..] && b == [b[0]] + b[1..];
    assert multiset(a[1..]) == multiset(a) - multiset{a[0]};
    assert multiset(b[1..]) == multiset(b) - multiset{b[0]};
  }

  /** Take a's first element out of a permutation of a. */
  lemma TakeOut<T(!new)>(a: seq<T>, b: seq<T>) returns (i: nat)
    requires a != [] && multiset(a) == multiset(b)
    ensures i < |b| && b[i] == a[0] && b == b[..i] + ([b[i]] + b[i + 1..])
    ensures multiset(a[1..]) == multiset(b[..i] + b[i + 1..])
  {
    assert a[0] in multiset(b);
    i :| 0 <= i < |b| && b[i] == a[0];
    var rest := b[..i] + b[i + 1..];
    assert b == b[..i] + ([b[i]] + b[i + 1..]);
    assert multiset(b) == multiset(rest) + multiset{a[0]};
    TailsMatch(a, [a[0]] + rest);
    assert ([a[0]] + rest)[1..] == rest;
  }

  // ------------------------------------------------------------- clusters

  /** A value with its weight in rows, and whatever else is known about it. */
  datatype Member<T> = Member(raw: string, rows: int, info: T)

  datatype Cluster<T> = Cluster(key: string, rep: string, members: seq<Member<T>>, rows: int)

  function MemberRank<T>(m: Member<T>): Rank { (m.rows, m.raw) }

  function ClusterRank<T>(c: Cluster<T>): Rank { (c.rows, c.rep) }

  function Sum<T>(members: seq<Member<T>>): int
  {
    if members == [] then 0 else members[0].rows + Sum(members[1..])
  }

  predicate Has<T>(clean: string -> string, v: Member<T>, key: string)
  {
    NormalizeKey(clean, v.raw) == key
  }

  /** The values with one key, in their order. */
  function Of<T>(clean: string -> string, values: seq<Member<T>>, key: string): seq<Member<T>>
  {
    if values == [] then []
    else if Has(clean, values[0], key) then [values[0]] + Of(clean, values[1..], key)
    else Of(clean, values[1..], key)
  }

  /** One finished cluster of some values. */
  ghost predicate IsCluster<T(!new)>(clean: string -> string, values: seq<Member<T>>, c: Cluster<T>)
  {
    && c.members != [] && Sorted(c.members, MemberRank)
    && multiset(c.members) == multiset(Of(clean, values, c.key))
    && c.rep == c.members[0].raw && c.rows == Sum(c.members)
  }

  ghost predicate HasKey<T(!new)>(clusters: seq<Cluster<T>>, key: string)
  {
    exists c | c in clusters :: c.key == key
  }

  /** Clusters that hold all the values: right, with different keys, and complete. */
  ghost predicate Covering<T(!new)>(clean: string -> string, values: seq<Member<T>>, out: seq<Cluster<T>>)
  {
    && (forall c | c in out :: IsCluster(clean, values, c))
    && (forall i, j | 0 <= i < j < |out| :: out[i].key != out[j].key)
    && (forall v | v in values :: HasKey(out, NormalizeKey(clean, v.raw)))
  }

  /** The whole result: a partition of the values by key, in canonical order. */
  ghost predicate IsClustering<T(!new)>(clean: string -> string, values: seq<Member<T>>, out: seq<Cluster<T>>)
  {
    Covering(clean, values, out) && Sorted(out, ClusterRank)
  }

  lemma {:induction false} OfAppends<T(!new)>(clean: string -> string, values: seq<Member<T>>,
                                                  v: Member<T>, key: string)
    ensures Has(clean, v, key) ==> Of(clean, values + [v], key) == Of(clean, values, key) + [v]
    ensures !Has(clean, v, key) ==> Of(clean, values + [v], key) == Of(clean, values, key)
  {
    var all := values + [v];
    if values == [] {
      assert all == [v] && all[1..] == [];
    } else {
      assert all[0] == values[0] && all[1..] == values[1..] + [v];
      OfAppends(clean, values[1..], v, key);
    }
  }

  /** How often a value occurs among those of a key. */
  lemma {:induction false} OfCounts<T(!new)>(clean: string -> string, values: seq<Member<T>>, key: string, v: Member<T>)
    ensures multiset(Of(clean, values, key))[v] ==
            if NormalizeKey(clean, v.raw) == key then multiset(values)[v] else 0
  {
    if values != [] {
      assert values == [values[0]] + values[1..];
      OfCounts(clean, values[1..], key, v);
    }
  }

  /** byKey: the groups in first-seen order, each with its values in order. */
  ghost predicate Grouped<T(!new)>(clean: string -> string, values: seq<Member<T>>,
                                   order: seq<string>, byKey: map<string, seq<Member<T>>>)
  {
    && (forall i, j | 0 <= i < j < |order| :: order[i] != order[j])
    && (forall k :: k in order <==> k in byKey)
    && (forall k | k in byKey :: byKey[k] == Of(clean, values, k) && byKey[k] != [])
    && (forall k | k !in byKey :: Of(clean, values, k) == [])
  }

  lemma JoinsGroup<T(!new)>(clean: string -> string, values: seq<Member<T>>, v: Member<T>,
                            order: seq<string>, byKey: map<string, seq<Member<T>>>, key: string)
    requires Grouped(clean, values, order, byKey) && Has(clean, v, key) && key in byKey
    ensures Grouped(clean, values + [v], order, byKey[key := byKey[key] + [v]])
  {
    forall k
      ensures Of(clean, values + [v], k) == if k == key then Of(clean, values, k) + [v] else Of(clean, values, k)
    {
      OfAppends(clean, values, v, k);
    }
  }

  lemma OpensGroup<T(!new)>(clean: string -> string, values: seq<Member<T>>, v: Member<T>,
                            order: seq<string>, byKey: map<string, seq<Member<T>>>, key: string)
    requires Grouped(clean, values, order, byKey) && Has(clean, v, key) && key !in byKey
    ensures Grouped(clean, values + [v], order + [key], byKey[key := [v]])
  {
    forall k
      ensures Of(clean, values + [v], k) == if k == key then [v] else Of(clean, values, k)
    {
      OfAppends(clean, values, v, k);
    }
    assert forall i | 0 <= i < |order| :: order[i] in order;
  }

  method GroupByKey<T(!new)>(clean: string -> string, values: seq<Member<T>>)
    returns (order: seq<string>, byKey: map<string, seq<Member<T>>>)
    ensures Grouped(clean, values, order, byKey)
  {
    order, byKey := [], map[];
    for i := 0 to |values|
      invariant Grouped(clean, values[..i], order, byKey)
    {
      var v := values[i];
      var key := NormalizeKey(clean, v.raw);
      assert values[..i + 1] == values[..i] + [v];
      if key in byKey {
        JoinsGroup(clean, values[..i], v, order, byKey, key);
        byKey := byKey[key := byKey[key] + [v]];
      } else {
        OpensGroup(clean, values[..i], v, order, byKey, key);
        byKey := byKey[key := [v]];
        order := order + [key];
      }
    }
    assert values[..|values|] == values;
  }

  method SumRows<T(!new)>(members: seq<Member<T>>) returns (rows: int)
    ensures rows == Sum(members)
  {
    rows := 0;
    for i := 0 to |members|
      invariant rows + Sum(members[i..]) == Sum(members)
    {
      assert members[i..][0] == members[i] && members[i..][1..] == members[i + 1..];
      rows := rows + members[i].rows;
    }
  }

  /** clusterValues (with no further information) and clusterScanRows. */
  method ClusterValues<T(!new)>(clean: string -> string, values: seq<Member<T>>) returns (out: seq<Cluster<T>>)
    ensures IsClustering(clean, values, out)
  {
    var order, byKey := GroupByKey(clean, values);
    var clusters: seq<Cluster<T>> := [];
    for i := 0 to |order|
      invariant |clusters| == i && forall j | 0 <= j < i :: clusters[j].key == order[j]
      invariant forall j | 0 <= j < i :: IsCluster(clean, values, clusters[j])
    {
      assert order[i] in byKey;
      var members := SortBy(byKey[order[i]], MemberRank);
      assert |multiset(members)| == |members| && |multiset(byKey[order[i]])| == |byKey[order[i]]|;
      var rows := SumRows(members);
      clusters := clusters + [Cluster(order[i], members[0].raw, members, rows)];
    }
    out := SortBy(clusters, ClusterRank);
    SameClusters(clean, values, clusters, out);
    forall v | v in values
      ensures HasKey(out, NormalizeKey(clean, v.raw))
    {
      OfCounts(clean, values, NormalizeKey(clean, v.raw), v);
      assert v in multiset(values);
      var i :| 0 <= i < |order| && order[i] == NormalizeKey(clean, v.raw);
      assert clusters[i] in multiset(out);
    }
  }

  lemma {:induction false} OnceEach<T(!new)>(s: seq<T>, x: T)
    requires forall i, j | 0 <= i < j < |s| :: s[i] != s[j]
    ensures multiset(s)[x] <= 1
  {
    if s != [] {
      assert s == [s[0]] + s[1..];
      OnceEach(s[1..], x);
      assert s[0] !in s[1..];
    }
  }

  lemma TwiceInside<T(!new)>(s: seq<T>, i: nat, j: nat)
    requires i < j < |s| && s[i] == s[j]
    ensures multiset(s)[s[i]] >= 2
  {
    assert s == s[..j] + s[j..];
    assert s[i] in s[..j] && s[j] in s[j..];
  }

  lemma StillDistinct<T(!new)>(a: seq<T>, b: seq<T>)
    requires multiset(a) == multiset(b) && forall i, j | 0 <= i < j < |a| :: a[i] != a[j]
    ensures forall i, j | 0 <= i < j < |b| :: b[i] != b[j]
  {
    forall i, j | 0 <= i < j < |b|
      ensures b[i] != b[j]
    {
      OnceEach(a, b[i]);
      if b[i] == b[j] {
        TwiceInside(b, i, j);
      }
    }
  }

  /** Sorting clusters keeps what holds of each, and their keys apart. */
  lemma SameClusters<T(!new)>(clean: string -> string, values: seq<Member<T>>, a: seq<Cluster<T>>, b: seq<Cluster<T>>)
    requires multiset(a) == multiset(b)
    requires forall i | 0 <= i < |a| :: IsCluster(clean, values, a[i])
    requires forall i, j | 0 <= i < j < |a| :: a[i].key != a[j].key
    ensures forall c | c in b :: IsCluster(clean, values, c)
    ensures forall i, j | 0 <= i < j < |b| :: b[i].key != b[j].key
  {
    forall c | c in b
      ensures c in a
    {
      assert c in multiset(b);
    }
    StillDistinct(a, b);
    forall i, j | 0 <= i < j < |b|
      ensures b[i].key != b[j].key
    {
      assert b[i] in b && b[j] in b;
      var x :| 0 <= x < |a| && a[x] == b[i];
      var y :| 0 <= y < |a| && a[y] == b[j];
      assert x != y;
    }
  }

  // ------------------------------------------------------------- what it means

  lemma MemberOf<T(!new)>(clean: string -> string, values: seq<Member<T>>, c: Cluster<T>, m: Member<T>)
    requires IsCluster(clean, values, c)
    ensures m in c.members <==> m in values && NormalizeKey(clean, m.raw) == c.key
  {
    OfCounts(clean, values, c.key, m);
    assert m in c.members <==> m in multiset(c.members);
    assert m in values <==> m in multiset(values);
  }

  lemma RepHasKey<T(!new)>(clean: string -> string, values: seq<Member<T>>, c: Cluster<T>)
    requires IsCluster(clean, values, c)
    ensures NormalizeKey(clean, c.rep) == c.key
  {
    MemberOf(clean, values, c, c.members[0]);
  }

  /** Every value is in exactly one cluster, with everything that shares its key and
      nothing else, as often as it was given. */
  lemma Partition<T(!new)>(clean: string -> string, values: seq<Member<T>>, out: seq<Cluster<T>>, v: Member<T>)
    requires IsClustering(clean, values, out) && v in values
    ensures exists i :: 0 <= i < |out| && v in out[i].members && multiset(out[i].members)[v] == multiset(values)[v]
    ensures forall i, j | 0 <= i < |out| && 0 <= j < |out| && v in out[i].members && v in out[j].members :: i == j
    ensures forall i, w | 0 <= i < |out| && v in out[i].members && w in values ::
              w in out[i].members <==> NormalizeKey(clean, w.raw) == NormalizeKey(clean, v.raw)
  {
    var c :| c in out && c.key == NormalizeKey(clean, v.raw);
    var at :| 0 <= at < |out| && out[at] == c;
    OfCounts(clean, values, c.key, v);
    MemberOf(clean, values, c, v);
    forall i, w | 0 <= i < |out|
      ensures w in out[i].members <==> w in values && NormalizeKey(clean, w.raw) == out[i].key
    {
      assert out[i] in out;
      MemberOf(clean, values, out[i], w);
    }
  }

  // ------------------------------------------------------------- conservation

  /** The representative is the value with the most rows of those that fold together, and
      of equals the one that sorts first. */
  lemma RepLeads<T(!new)>(clean: string -> string, values: seq<Member<T>>, out: seq<Cluster<T>>,
                          c: Cluster<T>, v: Member<T>)
    requires IsClustering(clean, values, out) && c in out
    requires v in values && NormalizeKey(clean, v.raw) == NormalizeKey(clean, c.rep)
    ensures exists m | m in values :: m.raw == c.rep && Outweighs(m.rows, m.raw, v.rows, v.raw)
    ensures v in c.members
  {
    RepHasKey(clean, values, c);
    MemberOf(clean, values, c, v);
    var m := c.members[0];
    MemberOf(clean, values, c, m);
    var i :| 0 <= i < |c.members| && c.members[i] == v;
    assert i > 0 ==> Ahead(MemberRank(m), MemberRank(v));
    assert m in values && Outweighs(m.rows, m.raw, v.rows, v.raw);
  }

  /** More rows, or as many and a text that does not sort later. */
  predicate Outweighs(rows: int, text: string, thanRows: int, thanText: string)
  {
    rows > thanRows || (rows == thanRows && (text == thanText || LexLess(text, thanText)))
  }

  /** Clusters come by their rows, most first, and of equals by representative; so do the
      values within one. */
  lemma ClustersInOrder<T(!new)>(clean: string -> string, values: seq<Member<T>>, out: seq<Cluster<T>>, i: nat, j: nat)
    requires IsClustering(clean, values, out) && i < j < |out|
    ensures out[i].rep != out[j].rep && Outweighs(out[i].rows, out[i].rep, out[j].rows, out[j].rep)
    ensures forall a, b | 0 <= a < b < |out[i].members| ::
              var x, y := out[i].members[a], out[i].members[b]; Outweighs(x.rows, x.raw, y.rows, y.raw)
  {
    assert out[i] in out && out[j] in out;
    RepHasKey(clean, values, out[i]);
    RepHasKey(clean, values, out[j]);
    assert Ahead(ClusterRank(out[i]), ClusterRank(out[j]));
    forall a, b | 0 <= a < b < |out[i].members|
      ensures var x, y := out[i].members[a], out[i].members[b]; Outweighs(x.rows, x.raw, y.rows, y.raw)
    {
      assert Ahead(MemberRank(out[i].members[a]), MemberRank(out[i].members[b]));
    }
  }

  lemma SumOfOne<T>(m: Member<T>)
    ensures Sum([m]) == m.rows
  {
    assert Sum([m]) == m.rows + Sum([m][1..]) && Sum([m][1..]) == 0;
  }

  lemma {:induction false} SumOfParts<T(!new)>(a: seq<Member<T>>, b: seq<Member<T>>)
    ensures Sum(a + b) == Sum(a) + Sum(b)
  {
    if a == [] {
      assert a + b == b;
    } else {
      assert (a + b)[0] == a[0] && (a + b)[1..] == a[1..] + b;
      SumOfParts(a[1..], b);
    }
  }

  lemma {:induction false} SumOfPermuted<T(!new)>(a: seq<Member<T>>, b: seq<Member<T>>)
    requires multiset(a) == multiset(b)
    ensures Sum(a) == Sum(b)
  {
    assert |multiset(a)| == |a| && |multiset(b)| == |b|;
    if a != [] {
      var i := TakeOut(a, b);
      SumOfPermuted(a[1..], b[..i] + b[i + 1..]);
      SumOfParts(b[..i], [b[i]] + b[i + 1..]);
      SumOfParts(b[..i], b[i + 1..]);
      assert ([b[i]] + b[i + 1..])[1..] == b[i + 1..];
    }
  }

  function Total<T>(out: seq<Cluster<T>>): int
  {
    if out == [] then 0 else out[0].rows + Total(out[1..])
  }

  /** Values not among the given keys. */
  function Others<T>(clean: string -> string, values: seq<Member<T>>, key: string): seq<Member<T>>
  {
    if values == [] then []
    else if Has(clean, values[0], key) then Others(clean, values[1..], key)
    else [values[0]] + Others(clean, values[1..], key)
  }

  lemma {:induction false} SplitSum<T(!new)>(clean: string -> string, values: seq<Member<T>>, key: string)
    ensures Sum(values) == Sum(Of(clean, values, key)) + Sum(Others(clean, values, key))
    ensures forall v :: v in Others(clean, values, key) <==> v in values && !Has(clean, v, key)
  {
    if values != [] {
      SplitSum(clean, values[1..], key);
      assert forall v :: v in values <==> v == values[0] || v in values[1..];
      if Has(clean, values[0], key) {
        SumOfParts([values[0]], Of(clean, values[1..], key));
      } else {
        SumOfParts([values[0]], Others(clean, values[1..], key));
      }
    }
  }

  lemma {:induction false} OthersKeep<T(!new)>(clean: string -> string, values: seq<Member<T>>,
                                                   key: string, other: string)
    requires other != key
    ensures Of(clean, Others(clean, values, key), other) == Of(clean, values, other)
  {
    if values != [] {
      OthersKeep(clean, values[1..], key, other);
      if !Has(clean, values[0], key) {
        assert Others(clean, values, key)[1..] == Others(clean, values[1..], key);
      }
    }
  }

  /** The later clusters hold the values that the first does not. */
  lemma RestCovers<T(!new)>(clean: string -> string, values: seq<Member<T>>, out: seq<Cluster<T>>)
    requires Covering(clean, values, out) && out != []
    ensures Covering(clean, Others(clean, values, out[0].key), out[1..])
  {
    var rest := Others(clean, values, out[0].key);
    SplitSum(clean, values, out[0].key);
    forall c | c in out[1..]
      ensures IsCluster(clean, rest, c)
    {
      assert c in out && c.key != out[0].key;
      OthersKeep(clean, values, out[0].key, c.key);
    }
    forall v | v in rest
      ensures HasKey(out[1..], NormalizeKey(clean, v.raw))
    {
      var c :| c in out && c.key == NormalizeKey(clean, v.raw);
      assert c in out[1..];
    }
  }

  /** The clusters of a value list hold all its rows: none lost, none counted twice. */
  lemma {:induction false} TotalsConserved<T(!new)>(clean: string -> string, values: seq<Member<T>>,
                                                        out: seq<Cluster<T>>)
    requires Covering(clean, values, out)
    ensures Total(out) == Sum(values)
    decreases |out|
  {
    if out == [] {
      assert values == [] || values[0] in values;
    } else {
      SplitSum(clean, values, out[0].key);
      assert out[0] in out;
      SumOfPermuted(out[0].members, Of(clean, values, out[0].key));
      RestCovers(clean, values, out);
      TotalsConserved(clean, Others(clean, values, out[0].key), out[1..]);
    }
  }

  // ------------------------------------------------------------- canonical

  /** Values that agree on raw and rows are the same value: always so for plain
      inputs, and for scan rows because each raw occurs once. */
  ghost predicate NoLookalikes<T(!new)>(values: seq<Member<T>>)
  {
    forall v, w | v in values && w in values && v.raw == w.raw && v.rows == w.rows :: v == w
  }

  lemma SameCluster<T(!new)>(clean: string -> string, a: seq<Member<T>>, b: seq<Member<T>>,
                             x: Cluster<T>, y: Cluster<T>)
    requires multiset(a) == multiset(b) && NoLookalikes(a)
    requires IsCluster(clean, a, x) && IsCluster(clean, b, y) && x.key == y.key
    ensures x == y
  {
    forall m
      ensures multiset(x.members)[m] == multiset(y.members)[m]
    {
      OfCounts(clean, a, x.key, m);
      OfCounts(clean, b, y.key, m);
    }
    assert multiset(x.members) == multiset(y.members);
    forall m | m in x.members
      ensures m in a
    {
      MemberOf(clean, a, x, m);
    }
    SortedUnique(x.members, y.members, MemberRank);
  }

  lemma ClusterFound<T(!new)>(clean: string -> string, a: seq<Member<T>>, b: seq<Member<T>>,
                        out: seq<Cluster<T>>, other: seq<Cluster<T>>, c: Cluster<T>)
    requires multiset(a) == multiset(b) && NoLookalikes(a)
    requires IsClustering(clean, a, out) && IsClustering(clean, b, other) && c in out
    ensures c in other
  {
    var m := c.members[0];
    MemberOf(clean, a, c, m);
    assert m in multiset(b);
    var d :| d in other && d.key == NormalizeKey(clean, m.raw);
    SameCluster(clean, a, b, c, d);
  }

  lemma SameElements<T(!new)>(a: seq<T>, b: seq<T>)
    requires forall x :: x in a <==> x in b
    requires forall i, j | 0 <= i < j < |a| :: a[i] != a[j]
    requires forall i, j | 0 <= i < j < |b| :: b[i] != b[j]
    ensures multiset(a) == multiset(b)
  {
    forall x
      ensures multiset(a)[x] == multiset(b)[x]
    {
      OnceEach(a, x);
      OnceEach(b, x);
      assert x in a <==> x in multiset(a);
      assert x in b <==> x in multiset(b);
    }
  }

  /** The clustering does not depend on the order of the input: there is only one
      for each collection of values. */
  lemma ClusteringIsCanonical<T(!new)>(clean: string -> string, a: seq<Member<T>>, b: seq<Member<T>>,
                                 out: seq<Cluster<T>>, other: seq<Cluster<T>>)
    requires multiset(a) == multiset(b) && NoLookalikes(a)
    requires IsClustering(clean, a, out) && IsClustering(clean, b, other)
    ensures out == other
  {
    forall v, w | v in b && w in b && v.raw == w.raw && v.rows == w.rows
      ensures v == w
    {
      assert v in multiset(a) && w in multiset(a);
    }
    forall c
      ensures c in out <==> c in other
    {
      if c in out {
        ClusterFound(clean, a, b, out, other, c);
      }
      if c in other {
        ClusterFound(clean, b, a, other, out, c);
      }
    }
    SameElements(out, other);
    forall x, y | x in out && y in out && ClusterRank(x) == ClusterRank(y)
      ensures x == y
    {
      RepHasKey(clean, a, x);
      RepHasKey(clean, a, y);
      SameCluster(clean, a, a, x, y);
    }
    SortedUnique(out, other, ClusterRank);
  }

  /** For plain inputs nothing is asked of the values. */
  lemma PlainClusteringIsCanonical(clean: string -> string, a: seq<Member<()>>, b: seq<Member<()>>,
                                   out: seq<Cluster<()>>, other: seq<Cluster<()>>)
    requires multiset(a) == multiset(b)
    requires IsClustering(clean, a, out) && IsClustering(clean, b, other)
    ensures out == other
  {
    forall v, w | v in a && w in a && v.raw == w.raw && v.rows == w.rows
      ensures v == w
    {
      assert v.info == () && w.info == ();
    }
    ClusteringIsCanonical(clean, a, b, out, other);
  }

  // ------------------------------------------------------------- projection

  function PlainMember<T>(m: Member<T>): Member<()>
  {
    Member(m.raw, m.rows, ())
  }

  function PlainAll<T>(ms: seq<Member<T>>): seq<Member<()>>
  {
    seq(|ms|, i requires 0 <= i < |ms| => PlainMember(ms[i]))
  }

  function PlainCluster<T>(c: Cluster<T>): Cluster<()>
  {
    Cluster(c.key, c.rep, PlainAll(c.members), c.rows)
  }

  function PlainClusters<T>(out: seq<Cluster<T>>): seq<Cluster<()>>
  {
    seq(|out|, i requires 0 <= i < |out| => PlainCluster(out[i]))
  }

  lemma {:induction false} PlainSum<T(!new)>(ms: seq<Member<T>>)
    ensures Sum(PlainAll(ms)) == Sum(ms)
  {
    if ms != [] {
      PlainSum(ms[1..]);
      assert PlainAll(ms)[1..] == PlainAll(ms[1..]);
    }
  }

  lemma {:induction false} PlainOf<T(!new)>(clean: string -> string, values: seq<Member<T>>, key: string)
    ensures Of(clean, PlainAll(values), key) == PlainAll(Of(clean, values, key))
  {
    if values != [] {
      PlainOf(clean, values[1..], key);
      assert PlainAll(values)[1..] == PlainAll(values[1..]);
    }
  }

  lemma {:induction false} PlainPermuted<T(!new)>(a: seq<Member<T>>, b: seq<Member<T>>)
    requires multiset(a) == multiset(b)
    ensures multiset(PlainAll(a)) == multiset(PlainAll(b))
  {
    assert |multiset(a)| == |a| && |multiset(b)| == |b|;
    if a != [] {
      var i := TakeOut(a, b);
      PlainPermuted(a[1..], b[..i] + b[i + 1..]);
      assert PlainAll(a) == [PlainMember(a[0])] + PlainAll(a[1..]);
      assert PlainAll(b) == PlainAll(b[..i]) + ([PlainMember(b[i])] + PlainAll(b[i + 1..]));
      assert PlainAll(b[..i] + b[i + 1..]) == PlainAll(b[..i]) + PlainAll(b[i + 1..]);
    }
  }

  lemma PlainIsCluster<T(!new)>(clean: string -> string, values: seq<Member<T>>, c: Cluster<T>)
    requires IsCluster(clean, values, c)
    ensures IsCluster(clean, PlainAll(values), PlainCluster(c))
  {
    PlainOf(clean, values, c.key);
    PlainPermuted(c.members, Of(clean, values, c.key));
    PlainSum(c.members);
  }

  lemma PlainCovers<T(!new)>(clean: string -> string, values: seq<Member<T>>, out: seq<Cluster<T>>)
    requires Covering(clean, values, out)
    ensures Covering(clean, PlainAll(values), PlainClusters(out))
  {
    var forgotten := PlainClusters(out);
    forall c | c in forgotten
      ensures IsCluster(clean, PlainAll(values), c)
    {
      var i :| 0 <= i < |out| && forgotten[i] == c;
      assert out[i] in out;
      PlainIsCluster(clean, values, out[i]);
    }
    forall v | v in PlainAll(values)
      ensures HasKey(forgotten, NormalizeKey(clean, v.raw))
    {
      var i :| 0 <= i < |values| && PlainAll(values)[i] == v;
      assert values[i] in values;
      var c :| c in out && c.key == NormalizeKey(clean, values[i].raw);
      var j :| 0 <= j < |out| && out[j] == c;
      assert forgotten[j] in forgotten;
    }
  }

  /** Clustering scan rows and then forgetting what is known about each member is
      clustering the plain values. */
  lemma ScanRowsProject<T(!new)>(clean: string -> string, values: seq<Member<T>>,
                                 out: seq<Cluster<T>>, plain: seq<Cluster<()>>)
    requires IsClustering(clean, values, out) && IsClustering(clean, PlainAll(values), plain)
    ensures PlainClusters(out) == plain
  {
    PlainCovers(clean, values, out);
    assert Sorted(PlainClusters(out), ClusterRank);
    PlainClusteringIsCanonical(clean, PlainAll(values), PlainAll(values), PlainClusters(out), plain);
  }
}
