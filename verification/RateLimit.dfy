/** The fixed-window limiter of one credential: one row that holds when its window
    began and how many requests it has counted. */
module RateLimit {
  import opened Prelude

  /** 60 seconds, in microseconds, the resolution of the database clock. */
  const SECOND := 1_000_000
  const WINDOW := 60 * SECOND

  datatype Quota = Quota(started: int, count: nat)

  datatype Verdict = Admit(count: nat) | Refuse(retryAfterSeconds: int)

  /** The upsert: open a window, roll one that is older than 60 seconds, or count. */
  function Hit(row: Option<Quota>, now: int): Quota
  {
    if row.None? || row.value.started < now - WINDOW then Quota(now, 1)
    else row.value.(count := row.value.count + 1)
  }

  /** extract(epoch FROM age)::int rounds to the nearest second. */
  function AgeSeconds(q: Quota, now: int): int
  {
    (now - q.started + SECOND / 2) / SECOND
  }

  function Judge(q: Quota, budget: int, now: int): (v: Verdict)
    ensures (v.Admit? <==> q.count <= budget) && (v.Admit? ==> v.count == q.count)
    ensures v.Refuse? ==> 1 <= v.retryAfterSeconds
    ensures v.Refuse? && q.started <= now ==> v.retryAfterSeconds <= 60
  {
    if q.count <= budget then Admit(q.count)
    else
      var left := 60 - AgeSeconds(q, now);
      Refuse(if left > 1 then left else 1)
  }

  class Limiter {
    /** auth_credential_quota */
    var rows: map<string, Quota>

    constructor ()
      ensures rows == map[]
    {
      rows := map[];
    }

    /** One request.  A budget of zero or less switches the limiter off. */
    method CheckRateLimit(credential: string, budget: int, now: int) returns (v: Verdict)
      modifies this
      ensures budget <= 0 ==> v == Admit(0) && rows == old(rows)
      ensures budget > 0 ==>
                var row := if credential in old(rows) then Some(old(rows)[credential]) else None;
                && rows == old(rows)[credential := Hit(row, now)]
                && v == Judge(Hit(row, now), budget, now)
    {
      if budget <= 0 {
        return Admit(0);
      }
      if credential !in rows {
        rows := rows[credential := Quota(now, 1)];
      } else {
        var was := rows[credential];
        rows := rows[credential := Quota(if was.started < now - WINDOW then now else was.started,
                                         if was.started < now - WINDOW then 1 else was.count + 1)];
      }
      v := Judge(rows[credential], budget, now);
    }
  }

  // ------------------------------------------------------------- call sequences

  /** The times of one credential's requests, in order. */
  ghost predicate InOrder(times: seq<int>)
  {
    forall i, j | 0 <= i <= j < |times| :: times[i] <= times[j]
  }

  /** The row after request i. */
  function QuotaAfter(times: seq<int>, i: nat): Quota
    requires i < |times|
  {
    Hit(if i == 0 then None else Some(QuotaAfter(times, i - 1)), times[i])
  }

  /** How many of the requests lo..hi are admitted. */
  function Admitted(times: seq<int>, budget: int, lo: nat, hi: nat): nat
    requires lo <= hi <= |times|
  {
    if lo == hi then 0
    else
      Admitted(times, budget, lo, hi - 1)
      + if Judge(QuotaAfter(times, hi - 1), budget, times[hi - 1]).Admit? then 1 else 0
  }

  /** Request i falls into the window that was open, and its count is positive. */
  lemma {:induction false} WindowHolds(times: seq<int>, i: nat)
    requires InOrder(times) && i < |times|
    ensures var q := QuotaAfter(times, i);
            && q.started <= times[i] <= q.started + WINDOW && q.count >= 1
            && (q.count == 1 ==> q.started == times[i])
  {
    if i > 0 {
      WindowHolds(times, i - 1);
    }
  }

  /** Between two requests the window is the same, or begins more than a window's
      length later. */
  lemma {:induction false} WindowsApart(times: seq<int>, i: nat, j: nat)
    requires InOrder(times) && i <= j < |times|
    ensures var a, b := QuotaAfter(times, i), QuotaAfter(times, j);
            (b.started == a.started && b.count == a.count + (j - i)) || b.started > a.started + WINDOW
    decreases j
  {
    if i < j {
      WindowsApart(times, i, j - 1);
      WindowHolds(times, j - 1);
    }
  }

  /** Within one window the requests are admitted until the budget is used up. */
  lemma {:induction false} OneWindow(times: seq<int>, budget: int, lo: nat, hi: nat)
    requires InOrder(times) && budget > 0 && lo < hi <= |times|
    requires QuotaAfter(times, hi - 1).started == QuotaAfter(times, lo).started
    ensures var left := budget + 1 - QuotaAfter(times, lo).count;
            Admitted(times, budget, lo, hi) == if left < 0 then 0 else if left < hi - lo then left else hi - lo
    decreases hi
  {
    WindowsApart(times, lo, hi - 1);
    if lo < hi - 1 {
      WindowsApart(times, lo, hi - 2);
      WindowsApart(times, hi - 2, hi - 1);
      OneWindow(times, budget, lo, hi - 1);
    } else {
      assert Admitted(times, budget, lo, lo) == 0;
    }
  }

  lemma {:induction false} AdmittedSplits(times: seq<int>, budget: int, lo: nat, mid: nat, hi: nat)
    requires lo <= mid <= hi <= |times|
    ensures Admitted(times, budget, lo, hi) == Admitted(times, budget, lo, mid) + Admitted(times, budget, mid, hi)
    decreases hi
  {
    if mid < hi {
      AdmittedSplits(times, budget, lo, mid, hi - 1);
    }
  }

  /** The first request from lo on whose window is not lo's. */
  lemma FirstRoll(times: seq<int>, lo: nat, hi: nat) returns (mid: nat)
    requires lo < hi <= |times|
    ensures lo < mid <= hi
    ensures forall i | lo <= i < mid :: QuotaAfter(times, i).started == QuotaAfter(times, lo).started
    ensures mid < hi ==> QuotaAfter(times, mid).started != QuotaAfter(times, lo).started
  {
    mid := lo + 1;
    while mid < hi && QuotaAfter(times, mid).started == QuotaAfter(times, lo).started
      invariant lo < mid <= hi
      invariant forall i | lo <= i < mid :: QuotaAfter(times, i).started == QuotaAfter(times, lo).started
    {
      mid := mid + 1;
    }
  }

  /** Within one window at most the budget is admitted, and any 60 seconds admit at
      most twice the budget less one: a span that reaches into a second window
      misses the request that opened the first. */
  lemma SpanBound(times: seq<int>, budget: int, lo: nat, hi: nat)
    requires InOrder(times) && budget > 0 && lo < hi <= |times|
    requires times[hi - 1] - times[lo] <= WINDOW
    ensures Admitted(times, budget, lo, hi) <= 2 * budget - 1
    ensures QuotaAfter(times, hi - 1).started == QuotaAfter(times, lo).started ==>
              Admitted(times, budget, lo, hi) <= budget
  {
    var mid := FirstRoll(times, lo, hi);
    WindowHolds(times, lo);
    OneWindow(times, budget, lo, mid);
    AdmittedSplits(times, budget, lo, mid, hi);
    if mid < hi {
      WindowsApart(times, lo, mid);
      WindowsApart(times, mid, hi - 1);
      WindowHolds(times, mid);
      WindowHolds(times, hi - 1);
      OneWindow(times, budget, mid, hi);
      assert QuotaAfter(times, lo).count >= 2;
    }
  }

  /** The bound is met: one request, the rest of the budget just before the window
      ends, and a whole budget a microsecond later. */
  function Burst(budget: nat): seq<int>
    requires budget > 0
  {
    seq(2 * budget, i => if i == 0 then 0 else if i < budget then WINDOW else WINDOW + 1)
  }

  lemma {:induction false} BurstQuota(budget: nat, i: nat)
    requires budget > 0 && i < 2 * budget
    ensures QuotaAfter(Burst(budget), i) == if i < budget then Quota(0, i + 1) else Quota(WINDOW + 1, i - budget + 1)
  {
    if i > 0 {
      BurstQuota(budget, i - 1);
    }
  }

  lemma BoundIsMet(budget: nat)
    requires budget > 0
    ensures var times := Burst(budget);
            && InOrder(times) && times[2 * budget - 1] - times[1] <= WINDOW
            && Admitted(times, budget, 1, 2 * budget) == 2 * budget - 1
  {
    var times := Burst(budget);
    BurstQuota(budget, 2 * budget - 1);
    BurstQuota(budget, budget);
    OneWindow(times, budget, budget, 2 * budget);
    AdmittedSplits(times, budget, 1, budget, 2 * budget);
    if budget > 1 {
      BurstQuota(budget, 1);
      BurstQuota(budget, budget - 1);
      OneWindow(times, budget, 1, budget);
    } else {
      assert Admitted(times, budget, 1, 1) == 0;
    }
  }

  /** The advice given to a refused client is what remains of the minute in whole
      seconds, the age of the window rounded to the nearest second, halves up, and at
      least one. */
  lemma RetryAfterMeans(q: Quota, budget: int, now: int)
    requires q.started <= now && q.count > budget
    ensures Judge(q, budget, now).Refuse?
    ensures var left, age := Judge(q, budget, now).retryAfterSeconds, now - q.started;
            if age < 58_500_000 then left > 1 && -500_000 < (60 - left) * 1_000_000 - age <= 500_000 else left == 1
  {
  }

  /** So it can be up to half a second short: after waiting exactly that long, the window
      has rolled exactly when its age was rounded down, or was in its last second. */
  lemma RetryAfterSufficesIff(q: Quota, budget: int, now: int)
    requires q.started <= now <= q.started + WINDOW && budget > 0 && q.count > budget
    ensures Judge(q, budget, now).Refuse?
    ensures var later := now + Judge(q, budget, now).retryAfterSeconds * 1_000_000;
            var age := now - q.started;
            Hit(Some(q), later) == Quota(later, 1) <==>
            if age < 58_500_000 then 0 < age % 1_000_000 < 500_000 else age > 59_000_000
  {
  }

  /** With a budget of one: asked again 0.6 seconds after the first request, the
      client is told to wait 59 seconds, and is refused again when it does. */
  lemma RetryAfterTooEarly()
    ensures var now := 600_000;
            var q := Hit(Some(Quota(0, 1)), now);
            && Judge(q, 1, now) == Refuse(59)
            && Judge(Hit(Some(q), now + 59 * SECOND), 1, now + 59 * SECOND).Refuse?
  {
  }
}
