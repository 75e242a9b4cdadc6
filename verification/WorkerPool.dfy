/** The promise pool: workers share one cursor over the items.  Between two awaits
    a worker runs alone; which pending call settles next is up to the outside. */
module WorkerPool {
  import opened Prelude

  function Cap(max: int, n: nat): (cap: nat)
    ensures 1 <= cap && (n > 0 ==> cap <= n) && (1 <= max <= n ==> cap == max)
    ensures (max < 1 || n == 0 ==> cap == 1) && (max > n > 0 ==> cap == n)
  {
    var m := if max < n then max else n;
    if m > 1 then m else 1
  }

  class Pool<R> {
    const n: nat
    const cap: nat
    /** What the call for item i comes to: its value, or None when it fails. */
    const fn: nat -> Option<R>
    const results: array<Option<R>>
    var cursor: nat
    /** The item each worker is waiting for; a worker without one has not begun or
        has returned. */
    var waiting: map<nat, nat>
    /** The items in the order in which their calls were made. */
    ghost var started: seq<nat>
    ghost var settled: set<nat>
    /** The most calls that were ever in flight together. */
    ghost var peak: nat

    ghost predicate Valid()
      reads this, results
    {
      Calls() && Slots()
    }

    /** A slot is filled when its call has settled. */
    ghost predicate Slots()
      reads this, results
    {
      results.Length == n && forall i | 0 <= i < n :: results[i] == if i in settled then fn(i) else None
    }

    ghost predicate Calls()
      reads this
    {
      && 1 <= cap
      && HandedOut(n, cursor, started)
      && OneEach(cap, waiting, started, settled)
      && |waiting| <= peak <= cap
    }

    constructor (n: nat, max: int, fn: nat -> Option<R>)
      requires n > 0
      ensures Valid() && fresh(results) && this.n == n && this.fn == fn && cap == Cap(max, n)
      ensures cursor == 0 && waiting == map[]
    {
      this.n, this.cap, this.fn := n, Cap(max, n), fn;
      results := new Option<R>[n](_ => None);
      cursor, waiting, started, settled, peak := 0, map[], [], {}, 0;
    }

    /** const i = cursor++; return when past the end, else call fn for item i. */
    method TakeNext(w: nat)
      requires Valid() && w < cap && w !in waiting
      modifies this
      ensures Valid() && settled == old(settled) && cursor == old(cursor) + 1
      ensures old(cursor) < n ==> waiting == old(waiting)[w := old(cursor)] && started == old(started) + [old(cursor)]
      ensures old(cursor) >= n ==> waiting == old(waiting) && started == old(started)
      ensures peak == if |waiting| > old(peak) then |waiting| else old(peak)
    {
      hide OneEach;
      var i := cursor;
      cursor := cursor + 1;
      if i >= n {
        return;
      }
      TakenOnce(cap, waiting, started, settled, w, i);
      waiting := waiting[w := i];
      started := started + [i];
      FewWorkers(waiting.Keys, cap);
      assert |waiting| == |waiting.Keys| <= cap;
      if |waiting| > peak {
        peak := |waiting|;
      }
    }

    /** results[i] = ..., or null when the call failed. */
    method Fill(i: nat)
      requires Slots() && i < n
      modifies this`settled, results
      ensures Slots() && settled == old(settled) + {i}
    {
      results[i] := fn(i);
      settled := settled + {i};
    }

    /** Worker w waits no longer; its call is the one that just settled. */
    method Leave(w: nat)
      requires w in waiting && waiting[w] in settled && 1 <= cap
      requires forall i :: i in settled <==> 0 <= i < |started| && (!InFlight(waiting, i) || i == waiting[w])
      requires |started| == (if cursor <= n then cursor else n) && forall i | 0 <= i < |started| :: started[i] == i
      requires forall v | v in waiting :: v < cap && waiting[v] < |started|
      requires forall u, v | u in waiting && v in waiting && u != v :: waiting[u] != waiting[v]
      requires |waiting| <= peak <= cap
      modifies this`waiting
      ensures Calls() && waiting == old(waiting) - {w} && |waiting| == |old(waiting)| - 1
    {
      SettledInFlight(waiting, w);
      waiting := waiting - {w};
    }

    /** The call that worker w waits for settles; the worker stores its outcome and
        goes round. */
    method Settle(w: nat)
      requires Valid() && w in waiting
      modifies this, results
      ensures Valid() && settled == old(settled) + {old(waiting)[w]}
      ensures cursor == old(cursor) + 1 && old(started) <= started
      ensures |waiting| == |old(waiting)| - if old(cursor) < n then 0 else 1
      ensures peak >= old(peak)
    {
      Fill(waiting[w]);
      Leave(w);
      TakeNext(w);
    }

    /** As many calls are in flight as the cap allows, until the items run out and
        workers begin to return. */
    ghost predicate Busy()
      reads this
    {
      |waiting| == if cursor <= n then cap else n + cap - cursor
    }

    /** Start the workers; each makes its first call. */
    method Launch()
      requires Valid() && cursor == 0 && waiting == map[] && cap <= n
      modifies this
      ensures Valid() && Busy() && cursor == cap
    {
      for w := 0 to cap
        invariant Valid() && cursor == w && |waiting| == w
        invariant forall v | v in waiting :: v < w
      {
        TakeNext(w);
      }
    }

    /** Let calls settle, in any order, until every worker has returned. */
    method Drain()
      requires Valid() && Busy() && cursor <= n
      modifies this, results
      ensures Valid() && waiting == map[] && cursor >= n && peak >= old(peak)
    {
      while waiting != map[]
        invariant Valid() && Busy() && cursor <= n + cap && peak >= old(peak)
        decreases n + cap - cursor
      {
        var w :| w in waiting;
        Settle(w);
      }
    }
  }

  /** Does some worker wait for item i? */
  ghost predicate InFlight(waiting: map<nat, nat>, i: int)
  {
    exists w :: w in waiting && waiting[w] == i
  }

  /** The cursor hands out each index once, in order. */
  ghost predicate HandedOut(n: nat, cursor: nat, started: seq<nat>)
  {
    && |started| == (if cursor <= n then cursor else n)
    && forall i | 0 <= i < |started| :: started[i] == i
  }

  /** Every call made is in flight or has settled; at most one call per worker is in
      flight, and no two are for one item. */
  ghost predicate OneEach(cap: nat, waiting: map<nat, nat>, started: seq<nat>, settled: set<nat>)
  {
    && (forall i :: i in settled <==> 0 <= i < |started| && !InFlight(waiting, i))
    && (forall w | w in waiting :: w < cap && waiting[w] < |started|)
    && (forall v, w | v in waiting && w in waiting && v != w :: waiting[v] != waiting[w])
  }

  lemma TakenOnce(cap: nat, waiting: map<nat, nat>, started: seq<nat>, settled: set<nat>, w: nat, i: nat)
    requires OneEach(cap, waiting, started, settled) && w < cap && w !in waiting && i == |started|
    ensures var after := waiting[w := i];
            OneEach(cap, after, started + [i], settled) && forall v | v in after :: v < cap
  {
    hide InFlight;
    TakenInFlight(waiting, w, i);
    assert |started + [i]| == |started| + 1;
    assert i !in settled;
  }

  lemma TakenInFlight(waiting: map<nat, nat>, w: nat, i: nat)
    requires w !in waiting
    ensures forall x :: InFlight(waiting[w := i], x) <==> InFlight(waiting, x) || x == i
  {
    var after := waiting[w := i];
    assert after[w] == i;
    forall x | InFlight(waiting, x)
      ensures InFlight(after, x)
    {
      var v :| v in waiting && waiting[v] == x;
      assert after[v] == x;
    }
  }

  /** No more calls than workers. */
  lemma {:induction false} FewWorkers(workers: set<nat>, cap: nat)
    requires forall w | w in workers :: w < cap
    ensures |workers| <= cap
  {
    if cap > 0 {
      FewWorkers(workers - {cap - 1}, cap - 1);
    } else {
      assert workers == {};
    }
  }

  lemma SettledInFlight(waiting: map<nat, nat>, w: nat)
    requires w in waiting && forall u, v | u in waiting && v in waiting && u != v :: waiting[u] != waiting[v]
    ensures forall x :: InFlight(waiting - {w}, x) <==> InFlight(waiting, x) && x != waiting[w]
  {
    var after := waiting - {w};
    forall x | InFlight(waiting, x) && x != waiting[w]
      ensures InFlight(after, x)
    {
      var v :| v in waiting && waiting[v] == x;
      assert v in after && after[v] == x;
    }
  }

  /** runWithConcurrency, for every order in which calls can settle: it ends, each
      item is called exactly once, in order, slot i holds the value of call i, or
      nothing exactly when that call failed, and the most calls ever in flight
      together are as many as the cap allows. */
  method RunWithConcurrency<R>(n: nat, max: int, fn: nat -> Option<R>)
    returns (results: seq<Option<R>>, ghost started: seq<nat>, ghost peak: nat)
    ensures |results| == n && forall i | 0 <= i < n :: results[i] == fn(i)
    ensures |started| == n && forall i | 0 <= i < n :: started[i] == i
    ensures peak == if n == 0 then 0 else Cap(max, n)
  {
    if n == 0 {
      return [], [], 0;
    }
    var pool := new Pool(n, max, fn);
    pool.Launch();
    pool.Drain();
    started, peak := pool.started, pool.peak;
    results := pool.results[..];
  }
}
