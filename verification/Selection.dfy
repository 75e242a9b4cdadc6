/** What rejecting and publishing do to the queue and to the tables, told by the drafts
    that were there before and are not there, or not the same, afterwards. */
module Selection {
  import opened Prelude
  import opened RefTable
  import opened Invariants
  import CommitFold
  import Integrity

  // ------------------------------------------------------------- save, discard

  /** Saving replaces the author's own draft of the value, which is no longer rejected, and
      nothing else. */
  lemma SaveMeans(s: State, raw: Raw, status: Status, target: Option<Key>, name: Option<string>, user: User,
                  id: DraftId)
    ensures var s' := SaveDraft(s, raw, status, target, name, user);
            && s'.dim == s.dim && s'.mapping == s.mapping && s'.stamps == s.stamps
            && s'.snaps == s.snaps && s'.events == s.events && s'.clock == s.clock + 1
            && (id in s'.drafts <==> id in s.drafts || id == (raw, user))
            && (id in s.drafts && id != (raw, user) ==> s'.drafts[id] == s.drafts[id])
            && (raw, user) in s'.drafts
            && s'.drafts[(raw, user)].status == status && s'.drafts[(raw, user)].target == target
            && s'.drafts[(raw, user)].name == name && s'.drafts[(raw, user)].createdAt == s.clock + 1
            && s'.drafts[(raw, user)].rejection == None
  {
  }

  /** Discarding removes one's own draft of the value; without one it does nothing. */
  lemma DiscardMeans(s: State, raw: Raw, user: User, id: DraftId)
    ensures var s' := DiscardDraft(s, raw, user);
            && s' == s.(drafts := s'.drafts, clock := if (raw, user) in s.drafts then s.clock + 1 else s.clock)
            && (id in s'.drafts <==> id in s.drafts && id != (raw, user))
            && (id in s'.drafts ==> s'.drafts[id] == s.drafts[id])
  {
  }

  // ------------------------------------------------------------- reject

  /** A mapped draft is rejected exactly when some selector names its value, and names
      its author or nobody; every other draft, and all else, is as before. */
  lemma RejectTakes(s: State, sel: seq<Selector>, reason: string, who: User, s': State, id: DraftId)
    requires RejectDrafts(s, sel, reason, who) == Ok(s')
    ensures s'.dim == s.dim && s'.mapping == s.mapping && s'.stamps == s.stamps
    ensures s'.snaps == s.snaps && s'.events == s.events
    ensures id in s'.drafts <==> id in s.drafts
    ensures id in s.drafts ==>
              s'.drafts[id] ==
              (if s.drafts[id].status == Mapped
                  && exists i | 0 <= i < |sel| ::
                       sel[i].raw == id.0 && (sel[i].user == None || sel[i].user == Some(id.1))
               then s.drafts[id].(status := Rejected, rejection := Some((reason, who)))
               else s.drafts[id])
  {
    if sel != [] {
      SelectedMeans(sel, id);
    }
  }

  lemma SelectedMeans(sel: seq<Selector>, id: DraftId)
    ensures Selected(sel, id) <==>
            exists i | 0 <= i < |sel| :: sel[i].raw == id.0 && (sel[i].user == None || sel[i].user == Some(id.1))
  {
    if p :| p in sel && p.raw == id.0 && (p.user.None? || p.user.value == id.1) {
      var i :| 0 <= i < |sel| && sel[i] == p;
    }
  }

  /** It is refused only without a reason; and what it counts is the drafts it changed. */
  lemma RejectCounts(s: State, sel: seq<Selector>, reason: string, who: User)
    ensures RejectDrafts(s, sel, reason, who) == Err(ValidationFailed) <==> reason == ""
    ensures reason != "" ==>
              && RejectDrafts(s, sel, reason, who).Ok?
              && var s' := RejectDrafts(s, sel, reason, who).value;
                 s'.drafts.Keys == s.drafts.Keys
                 && Picked(s, sel) == set id | id in s.drafts && s'.drafts[id] != s.drafts[id]
  {
  }

  /** A value with its author: that author's draft and nobody else's. */
  lemma RejectOne(s: State, raw: Raw, user: User, reason: string, who: User, s': State, id: DraftId)
    requires RejectDrafts(s, [Selector(raw, Some(user))], reason, who) == Ok(s')
    ensures id in s'.drafts <==> id in s.drafts
    ensures id in s.drafts && id != (raw, user) ==> s'.drafts[id] == s.drafts[id]
    ensures id in s.drafts && id == (raw, user) ==>
              s'.drafts[id] ==
              (if s.drafts[id].status == Mapped
               then s.drafts[id].(status := Rejected, rejection := Some((reason, who))) else s.drafts[id])
  {
    var sel := [Selector(raw, Some(user))];
    RejectTakes(s, sel, reason, who, s', id);
    assert sel[0] == Selector(raw, Some(user));
  }

  /** A value alone: every author's mapped draft of it. */
  lemma RejectValue(s: State, raw: Raw, reason: string, who: User, s': State, id: DraftId)
    requires RejectDrafts(s, [Selector(raw, None)], reason, who) == Ok(s')
    ensures id in s'.drafts <==> id in s.drafts
    ensures id in s.drafts ==>
              s'.drafts[id] ==
              (if s.drafts[id].status == Mapped && id.0 == raw
               then s.drafts[id].(status := Rejected, rejection := Some((reason, who))) else s.drafts[id])
  {
    var sel := [Selector(raw, None)];
    RejectTakes(s, sel, reason, who, s', id);
    assert sel[0] == Selector(raw, None);
  }

  /** Several selectors: what either part of them rejects. */
  lemma RejectUnion(s: State, a: seq<Selector>, b: seq<Selector>, reason: string, who: User,
                    sa: State, sb: State, s': State, id: DraftId)
    requires RejectDrafts(s, a, reason, who) == Ok(sa) && RejectDrafts(s, b, reason, who) == Ok(sb)
    requires RejectDrafts(s, a + b, reason, who) == Ok(s')
    ensures id in s'.drafts <==> id in s.drafts
    ensures id in s.drafts ==>
              && id in sa.drafts && id in sb.drafts
              && s'.drafts[id] == if sa.drafts[id] != s.drafts[id] then sa.drafts[id] else sb.drafts[id]
  {
    RejectTakes(s, a, reason, who, sa, id);
    RejectTakes(s, b, reason, who, sb, id);
    RejectTakes(s, a + b, reason, who, s', id);
    SelectsUnion(a, b, id);
  }

  lemma SelectsUnion(a: seq<Selector>, b: seq<Selector>, id: DraftId)
    ensures Selected(a + b, id) <==> Selected(a, id) || Selected(b, id)
  {
    SelectedMeans(a, id);
    SelectedMeans(b, id);
    SelectedMeans(a + b, id);
  }

  // ------------------------------------------------------------- publish

  /** A publish takes exactly the mapped drafts that the request selects and that are by
      the author it is confined to, if any; no other draft changes. */
  lemma PublishTakes(c: Schema, s: State, q: Request, s': State, id: DraftId)
    requires PositionsDistinct(s.dim) && Committed(c, s, q, s')
    ensures id in s'.drafts ==> id in s.drafts && s'.drafts[id] == s.drafts[id]
    ensures id in s.drafts ==>
              (id !in s'.drafts <==>
                && s.drafts[id].status == Mapped
                && (q.scope == None
                    || exists i | 0 <= i < |q.scope.value| ::
                         q.scope.value[i].raw == id.0
                         && (q.scope.value[i].user == None || q.scope.value[i].user == Some(id.1)))
                && (q.onlyAuthor == None || q.onlyAuthor == Some(id.1)))
  {
    hide FoldedDim, FoldedMapping;
    if q.scope.Some? {
      SelectedMeans(q.scope.value, id);
    }
  }

  /** One value of one author: that draft alone is taken. */
  lemma PublishOne(c: Schema, s: State, q: Request, s': State, raw: Raw, user: User)
    requires PositionsDistinct(s.dim) && Committed(c, s, q, s')
    requires q.scope == Some([Selector(raw, Some(user))]) && q.onlyAuthor == None
    ensures s'.drafts == if (raw, user) in s.drafts && s.drafts[(raw, user)].status == Mapped
                         then s.drafts - {(raw, user)} else s.drafts
  {
    hide Committed;
    assert q.scope.value[0] == Selector(raw, Some(user));
    forall id
      ensures id in s'.drafts ==> id in s.drafts && s'.drafts[id] == s.drafts[id]
      ensures id in s.drafts ==> (id !in s'.drafts <==> id == (raw, user) && s.drafts[id].status == Mapped)
    {
      PublishTakes(c, s, q, s', id);
    }
  }

  /** What a publish writes comes from the drafts that it takes: a mapping is new or
      changed only for a taken draft of its value with that target, and a record is new
      only for a taken draft that has it as target and gave it its label. */
  lemma PublishAppliesTaken(c: Schema, s: State, q: Request, s': State)
    requires PositionsDistinct(s.dim) && Committed(c, s, q, s')
    ensures forall r | r in s'.mapping && !(r in s.mapping && s.mapping[r] == s'.mapping[r]) ::
              exists id | id in s.drafts :: Takes(s, s', id, s'.mapping[r]) && c.lower(id.0) == c.lower(r)
    ensures forall r | r in s.mapping :: r in s'.mapping
    ensures forall k | k in s'.dim && k !in s.dim ::
              exists id | id in s.drafts :: Takes(s, s', id, k) && s'.dim[k].name == s.drafts[id].name
    ensures forall k | k in s.dim :: k in s'.dim && s'.dim[k] == s.dim[k]
  {
    forall r | r in s'.mapping && !(r in s.mapping && s.mapping[r] == s'.mapping[r])
      ensures exists id | id in s.drafts :: Takes(s, s', id, s'.mapping[r]) && c.lower(id.0) == c.lower(r)
    {
      MappingFromTaken(c, s, q, s', r);
    }
    forall k | k in s'.dim && k !in s.dim
      ensures exists id | id in s.drafts :: Takes(s, s', id, k) && s'.dim[k].name == s.drafts[id].name
    {
      RecordFromTaken(c, s, q, s', k);
    }
    Integrity.FoldedRecords(c, s, q, s'.dim);
  }

  /** Draft id was there, asks for target k, and is gone. */
  ghost predicate Takes(s: State, s': State, id: DraftId, k: Key)
  {
    id in s.drafts && id !in s'.drafts && s.drafts[id].target.Some? && s.drafts[id].target.value == k
  }

  lemma TakenIff(c: Schema, s: State, q: Request, s': State, id: DraftId)
    requires PositionsDistinct(s.dim) && Committed(c, s, q, s')
    ensures id in Eligible(s, q) <==> id in s.drafts && id !in s'.drafts && s.drafts[id].target.Some?
  {
    hide FoldedDim, FoldedMapping;
  }

  lemma MappingFromTaken(c: Schema, s: State, q: Request, s': State, r: Raw)
    requires PositionsDistinct(s.dim) && Committed(c, s, q, s')
    requires r in s'.mapping && !(r in s.mapping && s.mapping[r] == s'.mapping[r])
    ensures exists id | id in s.drafts :: Takes(s, s', id, s'.mapping[r]) && c.lower(id.0) == c.lower(r)
  {
    hide FoldedDim, FoldedMapping;
    var id := EligibleBehind(c, s, q, s', r);
    TakenIff(c, s, q, s', id);
    assert Takes(s, s', id, s'.mapping[r]);
  }

  lemma EligibleBehind(c: Schema, s: State, q: Request, s': State, r: Raw) returns (id: DraftId)
    requires FoldedMapping(c, s, q, s'.mapping)
    requires r in s'.mapping && !(r in s.mapping && s.mapping[r] == s'.mapping[r])
    ensures id in Eligible(s, q) && c.lower(id.0) == c.lower(r)
    ensures s.drafts[id].target.Some? && s.drafts[id].target.value == s'.mapping[r]
  {
    if r in s.mapping {
      id :| id in Group(c, s, q, c.lower(r)) && Target(s, id) == s'.mapping[r];
      assert id in Eligible(s, q);
    } else {
      id :| id in Eligible(s, q) && id.0 == r && s'.mapping[r] == Target(s, id);
    }
    assert Target(s, id) == s.drafts[id].target.value;
  }

  lemma RecordFromTaken(c: Schema, s: State, q: Request, s': State, k: Key)
    requires PositionsDistinct(s.dim) && Committed(c, s, q, s') && k in s'.dim && k !in s.dim
    ensures exists id | id in s.drafts :: Takes(s, s', id, k) && s'.dim[k].name == s.drafts[id].name
    ensures s'.dim[k].cells.Keys == c.fields && forall f | f in c.fields :: s'.dim[k].cells[f] == Null
  {
    hide FoldedMapping;
    assert k in NewKeys(s, q);
    var id :| id in Eligible(s, q) && Target(s, id) == k;
    TakenIff(c, s, q, s', id);
    assert Takes(s, s', id, k) && s'.dim[k].name == s.drafts[id].name;
  }

  /** And every draft that it takes with a target has its effect: the target is a record,
      labelled so if it is new, and the value has a mapping. */
  lemma TakenApplies(c: Schema, s: State, q: Request, s': State, id: DraftId, k: Key)
    requires PositionsDistinct(s.dim) && Committed(c, s, q, s') && Takes(s, s', id, k)
    ensures k in s'.dim && (k !in s.dim ==> s'.dim[k].name == s.drafts[id].name)
    ensures exists r | r in s'.mapping :: c.lower(r) == c.lower(id.0)
  {
    TakenIff(c, s, q, s', id);
    CommitFold.DraftedHasRow(c, s, q, s'.mapping, id);
  }

  /** An unmapped value is mapped to the target of the taken draft that was saved last,
      and of those saved at that time the one whose author comes first. */
  lemma NewestTakenApplies(c: Schema, s: State, q: Request, s': State, id: DraftId, k: Key, r: Raw)
    requires PositionsDistinct(s.dim) && Committed(c, s, q, s') && Takes(s, s', id, k)
    requires forall m | m in s.mapping :: c.lower(m) != c.lower(id.0)
    requires forall other | other in s.drafts && other != id && c.lower(other.0) == c.lower(id.0) ::
               other in s'.drafts || s.drafts[other].target == None
               || s.drafts[other].createdAt < s.drafts[id].createdAt
               || (s.drafts[other].createdAt == s.drafts[id].createdAt && LexLess(id.1, other.1))
    ensures id.0 in s'.mapping
    ensures r in s'.mapping && c.lower(r) == c.lower(id.0) ==> r == id.0 && s'.mapping[r] == k
  {
    hide Committed;
    TakenIff(c, s, q, s', id);
    forall other | other in Group(c, s, q, c.lower(id.0)) && other != id
      ensures Beats(s, id, other) && !Beats(s, other, id)
    {
      TakenIff(c, s, q, s', other);
      CommitFold.BeatsIsOrder(s, id, other, id);
    }
    CommitFold.BeatsIsOrder(s, id, id, id);
    OnlyNewestMapped(c, s, q, s', id, r);
  }

  lemma OnlyNewestMapped(c: Schema, s: State, q: Request, s': State, id: DraftId, r: Raw)
    requires PositionsDistinct(s.dim) && Committed(c, s, q, s') && id in Eligible(s, q)
    requires forall m | m in s.mapping :: c.lower(m) != c.lower(id.0)
    requires forall other | other in Group(c, s, q, c.lower(id.0)) && other != id :: Beats(s, id, other)
    requires forall other | other in Group(c, s, q, c.lower(id.0)) :: !Beats(s, other, id)
    ensures id.0 in s'.mapping
    ensures r in s'.mapping && c.lower(r) == c.lower(id.0) ==> r == id.0 && s'.mapping[r] == Target(s, id)
  {
    hide FoldedDim;
    assert !HasFold(c, s.mapping, c.lower(id.0)) && HasFold(c, s'.mapping, c.lower(id.0));
    forall r | r in s'.mapping && c.lower(r) == c.lower(id.0)
      ensures r == id.0 && s'.mapping[r] == Target(s, id)
    {
      var won :| won in Eligible(s, q) && won.0 == r && IsNewest(c, s, q, won) && s'.mapping[r] == Target(s, won);
      assert won in Group(c, s, q, c.lower(id.0)) && id in Group(c, s, q, c.lower(won.0));
    }
  }

  /** A mapping row of a value keeps its target exactly when no taken draft of the value
      asks for another; else it gets the target of one that does. */
  lemma MappedRowFollowsTaken(c: Schema, s: State, q: Request, s': State, r: Raw)
    requires PositionsDistinct(s.dim) && Committed(c, s, q, s') && r in s.mapping
    ensures r in s'.mapping
    ensures s'.mapping[r] == s.mapping[r] <==>
            forall id | id in s.drafts && id !in s'.drafts && c.lower(id.0) == c.lower(r) ::
              s.drafts[id].target == None || s.drafts[id].target == Some(s.mapping[r])
  {
    hide FoldedDim;
    if s'.mapping[r] != s.mapping[r] {
      MappingFromTaken(c, s, q, s', r);
    }
    forall id | id in s.drafts && id !in s'.drafts && c.lower(id.0) == c.lower(r)
      ensures id in Group(c, s, q, c.lower(r)) || s.drafts[id].target == None
    {
      TakenIff(c, s, q, s', id);
    }
  }
}
