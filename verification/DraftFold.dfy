/** The worklist's fold: the browser collapses the per-author draft rows of a table
    to one draft per value, meaning to show what publish would apply. */
module DraftFold {
  import opened Prelude
  import opened RefTable
  import CommitFold

  /** createdAt as the browser has it: an ISO string, cut to milliseconds.  Equal
      years have equal width, so comparing the strings is comparing these. */
  function Millis(s: State, id: DraftId): int
    requires id in s.drafts
  {
    s.drafts[id].createdAt / 1000
  }

  /** winsOver: later by the millisecond, then by author. */
  predicate WinsOver(s: State, a: DraftId, b: DraftId)
    requires a in s.drafts && b in s.drafts
  {
    if Millis(s, a) != Millis(s, b) then Millis(s, a) > Millis(s, b) else LexLess(a.1, b.1)
  }

  lemma WinsOverIsOrder(s: State, a: DraftId, b: DraftId, d: DraftId)
    requires a in s.drafts && b in s.drafts && d in s.drafts
    ensures !WinsOver(s, a, a)
    ensures WinsOver(s, a, b) && WinsOver(s, b, d) ==> WinsOver(s, a, d)
    ensures WinsOver(s, a, b) ==> !WinsOver(s, b, a)
    ensures a.0 == b.0 && a != b ==> WinsOver(s, a, b) || WinsOver(s, b, a)
  {
    LexIrreflexive(a.1);
    LexTotal(a.1, b.1);
    if LexLess(a.1, b.1) {
      LexAsymmetric(a.1, b.1);
      if LexLess(b.1, d.1) {
        LexTransitive(a.1, b.1, d.1);
      }
    }
  }

  /** `out` keeps, for each drafted value, the draft that wins over all others of
      exactly that value. */
  ghost predicate IsFold(s: State, out: map<Raw, DraftId>)
  {
    && (forall id | id in s.drafts :: id.0 in out)
    && (forall r | r in out :: Keeps(s, r, out[r]))
  }

  ghost predicate Keeps(s: State, r: Raw, id: DraftId)
  {
    && id in s.drafts && id.0 == r
    && forall other | other in s.drafts && other.0 == r && other != id :: WinsOver(s, id, other)
  }

  /** foldDraftsByValue: go through the rows in any order and keep the winner. */
  method FoldDraftsByValue(s: State) returns (out: map<Raw, DraftId>)
    ensures IsFold(s, out)
  {
    out := map[];
    var todo := s.drafts.Keys;
    while todo != {}
      invariant todo <= s.drafts.Keys
      invariant forall id | id in s.drafts && id !in todo :: id.0 in out
      invariant forall r | r in out :: out[r] in s.drafts && out[r] !in todo && out[r].0 == r
      invariant forall id | id in s.drafts && id !in todo && id.0 in out && out[id.0] != id ::
                  WinsOver(s, out[id.0], id)
    {
      var d :| d in todo;
      var r := d.0;
      if r in out {
        WinsOverIsOrder(s, d, out[r], d);
        forall id | id in s.drafts && id.0 == r && WinsOver(s, d, out[r]) && WinsOver(s, out[r], id)
          ensures WinsOver(s, d, id)
        {
          WinsOverIsOrder(s, d, out[r], id);
        }
      }
      if r !in out || WinsOver(s, d, out[r]) {
        out := out[r := d];
      }
      todo := todo - {d};
    }
  }

  /** The order in which the rows come does not matter: there is one fold. */
  lemma FoldIsUnique(s: State, a: map<Raw, DraftId>, b: map<Raw, DraftId>)
    requires IsFold(s, a) && IsFold(s, b)
    ensures a == b
  {
    forall r | r in a
      ensures r in b && b[r] == a[r]
    {
      assert Keeps(s, r, a[r]);
      assert a[r].0 in b && Keeps(s, r, b[r]);
      WinsOverIsOrder(s, a[r], b[r], a[r]);
    }
    forall r | r in b
      ensures r in a
    {
      assert Keeps(s, r, b[r]);
    }
    assert a.Keys == b.Keys;
  }

  /** Saved later than `id`, but within the same millisecond. */
  predicate LaterWithin(s: State, other: DraftId, id: DraftId)
    requires other in s.drafts && id in s.drafts
  {
    Millis(s, other) == Millis(s, id) && s.drafts[other].createdAt > s.drafts[id].createdAt
  }

  /** Publish prefers a draft to the one shown only within one millisecond. */
  lemma BeatsShownIff(s: State, id: DraftId, other: DraftId)
    requires id in s.drafts && other in s.drafts && other.0 == id.0 && other != id && WinsOver(s, id, other)
    ensures Beats(s, other, id) <==> LaterWithin(s, other, id)
  {
    WinsOverIsOrder(s, id, other, id);
  }

  /** The draft shown for a value is the one that publish picks exactly when it is
      eligible, no eligible draft of another spelling of the value beats it, and no
      eligible draft of the same spelling was saved later in the same millisecond.  A
      skipped or rejected draft, or one without a target, is never picked, but it
      still hides the others. */
  lemma ShownIsPublishedIff(c: Schema, s: State, q: Request, out: map<Raw, DraftId>, r: Raw)
    requires IsFold(s, out) && r in out
    ensures IsNewest(c, s, q, out[r]) <==>
            && IsEligible(s, q, out[r])
            && (forall other | other in Group(c, s, q, c.lower(r)) && other.0 != r :: !Beats(s, other, out[r]))
            && (forall other | other in Group(c, s, q, c.lower(r)) && other.0 == r :: !LaterWithin(s, other, out[r]))
  {
    assert Keeps(s, r, out[r]);
    CommitFold.BeatsIsOrder(s, out[r], out[r], out[r]);
    forall other | other in Group(c, s, q, c.lower(r)) && other.0 == r
      ensures Beats(s, other, out[r]) <==> LaterWithin(s, other, out[r])
    {
      if other != out[r] {
        BeatsShownIff(s, out[r], other);
      }
    }
  }

  /** So when each value has one spelling among the drafts, all its drafts are
      eligible, and none was saved later in the millisecond of the one shown, what is
      shown for an unmapped value is what a publish maps it to. */
  lemma ShownIsApplied(c: Schema, s: State, q: Request, s': State, out: map<Raw, DraftId>, r: Raw)
    requires IsFold(s, out) && r in out && PositionsDistinct(s.dim) && Committed(c, s, q, s')
    requires forall id | id in s.drafts && c.lower(id.0) == c.lower(r) ::
               id.0 == r && IsEligible(s, q, id) && !LaterWithin(s, id, out[r])
    requires !HasFold(c, s.mapping, c.lower(r))
    ensures r in s'.mapping && s'.mapping[r] == Target(s, out[r])
  {
    assert Keeps(s, r, out[r]);
    ShownIsPublishedIff(c, s, q, out, r);
    forall a, b | a in Group(c, s, q, c.lower(r)) && b in Group(c, s, q, c.lower(r)) && a != b
      ensures Beats(s, a, b) || Beats(s, b, a)
    {
      LexTotal(a.1, b.1);
    }
    CommitFold.UnmappedGetsNewest(c, s, q, s'.mapping, out[r]);
  }

  const EVERYTHING := Request("ann", None, None, Publish, None, false, false, map[])

  /** Two drafts of "v" within one millisecond, ann's first: the browser breaks the
      tie by author and shows ann's, publish goes by the microsecond and picks bob's. */
  lemma SameMillisecondDiffers(c: Schema, s: State, out: map<Raw, DraftId>)
    requires s == EMPTY.(drafts := map[("v", "ann") := Draft(Mapped, Some("k"), Some("K"), 100, None),
                                       ("v", "bob") := Draft(Mapped, Some("x"), Some("X"), 200, None)])
    requires IsFold(s, out)
    ensures "v" in out && out["v"] == ("v", "ann")
    ensures IsNewest(c, s, EVERYTHING, ("v", "bob")) && !IsNewest(c, s, EVERYTHING, ("v", "ann"))
  {
    hide IsFold, WinsOver, Keeps;
    SameMillisecondShown(c, s, out);
    var ann, bob := ("v", "ann"), ("v", "bob");
    assert ann in Group(c, s, EVERYTHING, c.lower("v")) && bob in Group(c, s, EVERYTHING, c.lower("v"));
    assert Beats(s, bob, ann);
    CommitFold.BeatsIsOrder(s, bob, ann, bob);
    assert forall id | id in Eligible(s, EVERYTHING) :: id == ann || id == bob;
  }

  lemma SameMillisecondShown(c: Schema, s: State, out: map<Raw, DraftId>)
    requires s == EMPTY.(drafts := map[("v", "ann") := Draft(Mapped, Some("k"), Some("K"), 100, None),
                                       ("v", "bob") := Draft(Mapped, Some("x"), Some("X"), 200, None)])
    requires IsFold(s, out)
    ensures "v" in out && out["v"] == ("v", "ann")
  {
    var ann, bob := ("v", "ann"), ("v", "bob");
    assert ann in s.drafts && bob in s.drafts;
    assert Keeps(s, "v", out["v"]);
    assert WinsOver(s, ann, bob);
    WinsOverIsOrder(s, ann, bob, ann);
  }

  /** A later rejected draft is shown in place of the draft that publish applies. */
  lemma RejectedDraftHides(c: Schema, s: State, out: map<Raw, DraftId>)
    requires s == EMPTY.(drafts := map[
               ("v", "ann") := Draft(Mapped, Some("k"), Some("K"), 1000, None),
               ("v", "bob") := Draft(Rejected, Some("x"), Some("X"), 2000, Some(("no", "cat")))])
    requires IsFold(s, out)
    ensures "v" in out && out["v"] == ("v", "bob") && IsNewest(c, s, EVERYTHING, ("v", "ann"))
  {
    var ann, bob := ("v", "ann"), ("v", "bob");
    assert ann in s.drafts && bob in s.drafts;
    assert forall id | id in Eligible(s, EVERYTHING) :: id == ann;
    CommitFold.BeatsIsOrder(s, ann, ann, ann);
    assert IsNewest(c, s, EVERYTHING, ann);
    assert Keeps(s, "v", out["v"]);
    assert WinsOver(s, bob, ann);
    WinsOverIsOrder(s, bob, ann, bob);
  }
}
