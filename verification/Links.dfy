/** Single-valued links between records: `next[k]` is the record that `k` points
    to.  Both the self-linked parent column and the `retired_into` column of a
    tombstone have this shape.  A link may dangle (point to a key that has no
    link of its own, or no record at all). */
module Links {
  import opened Prelude

  /** The key reached by following n links from a, if there are that many. */
  function Follow(next: map<string, string>, a: string, n: nat): Option<string>
    decreases n
  {
    if n == 0 then Some(a)
    else if a in next then Follow(next, next[a], n - 1)
    else None
  }

  ghost predicate Acyclic(next: map<string, string>)
  {
    forall a: string, n: nat | n > 0 :: Follow(next, a, n) != Some(a)
  }

  /** b is a proper ancestor of a. */
  ghost predicate Above(next: map<string, string>, a: string, b: string)
  {
    exists n: nat :: n > 0 && Follow(next, a, n) == Some(b)
  }

  lemma {:induction false} FollowAdds(next: map<string, string>, a: string, m: nat, n: nat)
    ensures Follow(next, a, m + n) ==
            match Follow(next, a, m) case None => None case Some(b) => Follow(next, b, n)
    decreases m
  {
    if m > 0 && a in next {
      FollowAdds(next, next[a], m - 1, n);
    }
  }

  /** Following is monotone: fewer links, fewer paths. */
  lemma {:induction false} FollowSubmap(small: map<string, string>, big: map<string, string>, a: string, n: nat)
    requires forall k | k in small :: k in big && big[k] == small[k]
    requires Follow(small, a, n).Some?
    ensures Follow(big, a, n) == Follow(small, a, n)
    decreases n
  {
    if n > 0 {
      FollowSubmap(small, big, small[a], n - 1);
    }
  }

  lemma SubmapAcyclic(small: map<string, string>, big: map<string, string>)
    requires Acyclic(big)
    requires forall k | k in small :: k in big && big[k] == small[k]
    ensures Acyclic(small)
  {
    forall a: string, n: nat | n > 0
      ensures Follow(small, a, n) != Some(a)
    {
      if Follow(small, a, n) == Some(a) {
        FollowSubmap(small, big, a, n);
      }
    }
  }

  /** A walk that never sits on k is the same before and after k is re-linked,
      so a walk after re-linking either is the old walk or passes k earlier. */
  lemma {:induction false} FollowAvoiding(next: map<string, string>, k: string, p: string, a: string, n: nat)
    returns (hit: nat)
    ensures hit <= n
    ensures hit < n ==> Follow(next, a, hit) == Some(k) && Follow(next[k := p], a, hit) == Some(k)
    ensures hit == n ==> Follow(next[k := p], a, n) == Follow(next, a, n)
    decreases n
  {
    if n == 0 || a == k {
      hit := 0;
    } else if a !in next {
      hit := n;
    } else {
      var rest := FollowAvoiding(next, k, p, next[a], n - 1);
      hit := rest + 1;
    }
  }

  /** Linking k to p closes a loop exactly when p is k or k is already above p. */
  lemma LinkCloses(next: map<string, string>, k: string, p: string)
    requires Acyclic(next)
    ensures Acyclic(next[k := p]) <==> p != k && !Above(next, p, k)
  {
    var linked := next[k := p];
    if p == k {
      assert Follow(linked, k, 1) == Follow(linked, p, 0);
    } else if Above(next, p, k) {
      var n: nat :| n > 0 && Follow(next, p, n) == Some(k);
      var hit := FollowAvoiding(next, k, p, p, n);
      assert Follow(linked, p, hit) == Some(k);
      assert Follow(linked, k, hit + 1) == Some(k);
    } else {
      forall a: string, n: nat | n > 0
        ensures Follow(linked, a, n) != Some(a)
      {
        if Follow(linked, a, n) == Some(a) {
          LoopPassesLink(next, k, p, a, n);
        }
      }
    }
  }

  /** A loop in the re-linked map must use the new link. */
  lemma LoopPassesLink(next: map<string, string>, k: string, p: string, a: string, n: nat)
    requires Acyclic(next)
    requires n > 0 && Follow(next[k := p], a, n) == Some(a)
    ensures p == k || Above(next, p, k)
  {
    var linked := next[k := p];
    var i := FollowAvoiding(next, k, p, a, n);
    if i < n {
      // Rotate the loop so that it starts at k, then drop the new link.
      FollowAdds(linked, a, i, n - i);
      FollowAdds(linked, k, n - i, i);
      assert Follow(linked, k, n) == Some(k);
      assert Follow(linked, p, n - 1) == Some(k);
      var j := FollowAvoiding(next, k, p, p, n - 1);
      assert Follow(next, p, j) == Some(k);
      if j > 0 {
        assert Above(next, p, k);
      }
    }
  }

  /** The keys sat on by the first n steps of a walk. */
  ghost function Visited(next: map<string, string>, a: string, n: nat): set<string>
  {
    set i: nat | i < n && Follow(next, a, i).Some? :: Follow(next, a, i).value
  }

  lemma {:induction false} WalkPrefix(next: map<string, string>, a: string, i: nat, n: nat)
    requires i <= n && Follow(next, a, n).Some?
    ensures Follow(next, a, i).Some?
    ensures i < n ==> Follow(next, a, i).value in next
  {
    FollowAdds(next, a, i, n - i);
  }

  /** Pigeonhole: a walk of n steps in an acyclic map sits on n different linked keys. */
  lemma {:induction false} VisitedSize(next: map<string, string>, a: string, n: nat)
    requires Acyclic(next)
    requires Follow(next, a, n).Some?
    ensures Visited(next, a, n) <= next.Keys
    ensures |Visited(next, a, n)| == n
  {
    if n > 0 {
      WalkPrefix(next, a, n - 1, n);
      VisitedSize(next, a, n - 1);
      var last := Follow(next, a, n - 1).value;
      if last in Visited(next, a, n - 1) {
        var i: nat :| i < n - 1 && Follow(next, a, i) == Some(last);
        FollowAdds(next, a, i, n - 1 - i);
        assert false;
      }
      assert Visited(next, a, n) == Visited(next, a, n - 1) + {last};
    } else {
      assert Visited(next, a, 0) == {};
    }
  }

  /** Every walk in an acyclic map ends within as many steps as there are links. */
  lemma WalkEnds(next: map<string, string>, a: string, n: nat)
    requires Acyclic(next)
    requires Follow(next, a, n).Some?
    ensures n <= |next|
  {
    VisitedSize(next, a, n);
    SubsetSize(Visited(next, a, n), next.Keys);
  }

  /** Going round a loop any number of times never ends. */
  lemma {:induction false} LoopNeverEnds(next: map<string, string>, a: string, n: nat, rounds: nat)
    requires n > 0 && Follow(next, a, n) == Some(a)
    ensures Follow(next, a, rounds * n) == Some(a)
  {
    if rounds > 0 {
      LoopNeverEnds(next, a, n, rounds - 1);
      assert rounds * n == (rounds - 1) * n + n;
      FollowAdds(next, a, (rounds - 1) * n, n);
    }
  }

  ghost predicate WalkStops(next: map<string, string>, a: string)
  {
    exists n: nat :: Follow(next, a, n).None?
  }

  /** An unguarded walk ends from every start exactly when the links are acyclic. */
  lemma TerminationIffAcyclic(next: map<string, string>)
    ensures Acyclic(next) <==> forall a: string :: WalkStops(next, a)
  {
    if Acyclic(next) {
      forall a: string
        ensures WalkStops(next, a)
      {
        if Follow(next, a, |next| + 1).Some? {
          WalkEnds(next, a, |next| + 1);
        }
      }
    } else {
      var a: string, n: nat :| n > 0 && Follow(next, a, n) == Some(a);
      forall m: nat
        ensures Follow(next, a, m).Some?
      {
        LoopNeverEnds(next, a, n, m);
        assert m <= m * n;
        WalkPrefix(next, a, m, m * n);
      }
      assert !WalkStops(next, a);
    }
  }

  /** The recursive ancestor query: start at the parent of `start`, climb until
      the links run out, and report whether `key` was met.  There is no visited
      check and no depth limit, as in the query. */
  method HasAncestor(next: map<string, string>, start: string, key: string) returns (found: bool)
    requires Acyclic(next)
    ensures found <==> Above(next, start, key)
  {
    found := false;
    var p := if start in next then Some(next[start]) else None;
    ghost var n: nat := 1;
    assert start in next ==> Follow(next, start, 1) == Follow(next, next[start], 0);
    while p.Some?
      invariant n >= 1 && Follow(next, start, n) == p
      invariant found ==> Above(next, start, key)
      invariant forall i: nat | 0 < i < n && Follow(next, start, i) == Some(key) :: found
      decreases |next| + 1 - n, p.Some?
    {
      WalkEnds(next, start, n);
      FollowAdds(next, start, n, 1);
      if p.value == key {
        found := true;
      }
      p := if p.value in next then Some(next[p.value]) else None;
      assert p.Some? ==> Follow(next, p.value, 0) == p;
      n := n + 1;
      if p.Some? {
        WalkEnds(next, start, n);
      }
    }
    forall i: nat | i >= n
      ensures Follow(next, start, i).None?
    {
      FollowAdds(next, start, n, i - n);
    }
    if Above(next, start, key) {
      var i: nat :| i > 0 && Follow(next, start, i) == Some(key);
      assert i < n;
      assert found;
    }
  }
}
