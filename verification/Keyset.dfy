/** The feeds that order their rows by a timestamp (or a weight) and a unique text
    key, and start from nothing, from a timestamp, or after a row. */
module Keyset {
  import opened Prelude
  import Paging

  /** The sort key of a row: (updated_at, key), (retired_at, key), (occurred_at,
      id), or (-total_rows, raw_lower). */
  type RowKey = (int, string)

  predicate Less(a: RowKey, b: RowKey)
  {
    a.0 < b.0 || (a.0 == b.0 && LexLess(a.1, b.1))
  }

  /** Where a reader stands: at the start, from a timestamp on, or after a row. */
  datatype Mark = Start | From(at: int) | Past(row: RowKey)

  predicate Beyond(mark: Mark, r: RowKey)
  {
    match mark
    case Start => true
    case From(at) => at <= r.0
    case Past(row) => Less(row, r)
  }

  lemma LessIsTotal(a: RowKey, b: RowKey)
    ensures a == b || Less(a, b) || Less(b, a)
    ensures !(Less(a, b) && Less(b, a)) && !Less(a, a)
  {
    LexTotal(a.1, b.1);
    LexIrreflexive(a.1);
    if LexLess(a.1, b.1) {
      LexAsymmetric(a.1, b.1);
    }
  }

  lemma LessTransitive(a: RowKey, b: RowKey, d: RowKey)
    requires Less(a, b) && Less(b, d)
    ensures Less(a, d)
  {
    if a.0 == b.0 && b.0 == d.0 {
      LexTransitive(a.1, b.1, d.1);
    }
  }

  lemma LessIsStrict()
    ensures Paging.StrictTotal(Less)
  {
    forall a, b
      ensures !Less(a, a) && (a == b || Less(a, b) || Less(b, a))
    {
      LessIsTotal(a, b);
      LessIsTotal(a, a);
    }
    forall a, b, d | Less(a, b) && Less(b, d)
      ensures Less(a, d)
    {
      LessTransitive(a, b, d);
    }
  }

  ghost predicate Ascending(page: seq<RowKey>)
  {
    Paging.Ascending(Less, page)
  }

  /** clampLimit of any finite number: a missing or non-positive limit means the
      default, and a positive fraction below one is rounded down to no rows at all. */
  function ClampLimit(n: Option<real>, default: nat, max: nat): (limit: nat)
    requires 0 < default <= max
    ensures limit <= max && (n.None? || n.value <= 0.0 ==> limit == default)
    ensures n.Some? && n.value > max as real ==> limit == max
    ensures limit == 0 <==> n.Some? && 0.0 < n.value < 1.0
    ensures n.Some? && 1.0 <= n.value <= max as real ==> limit as real <= n.value < (limit + 1) as real
  {
    if n.None? || n.value <= 0.0 then default
    else
      var floor := n.value.Floor;
      if floor < max then floor else max
  }

  /** `page` is the first `limit` rows beyond the mark, in order; the cursor is its
      last row when more rows follow, and null otherwise. */
  ghost predicate IsPage(rows: set<RowKey>, mark: Mark, limit: nat, page: seq<RowKey>, next: Option<RowKey>)
  {
    Paging.IsPage(Remaining(rows, mark), Less, limit, page, next)
  }

  /** The rows a reader at this mark has not been given yet. */
  function Remaining(rows: set<RowKey>, mark: Mark): set<RowKey>
  {
    set r: RowKey | r in rows && Beyond(mark, r) :: r
  }

  /** One page request. */
  method ReadPage(rows: set<RowKey>, mark: Mark, limit: nat)
    returns (failed: bool, page: seq<RowKey>, next: Option<RowKey>)
    ensures failed <==> limit == 0 && Remaining(rows, mark) != {}
    ensures !failed ==> IsPage(rows, mark, limit, page, next)
  {
    LessIsStrict();
    failed, page, next := Paging.ReadPage(Remaining(rows, mark), Less, limit);
  }
}
