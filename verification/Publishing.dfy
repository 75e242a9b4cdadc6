/** A publish column by column: why a request is refused, in what order new records are
    placed, and what the version and its event hold. */
module Publishing {
  import opened Prelude
  import opened Ordering
  import opened RefTable
  import opened Invariants
  import RecordEdits
  import Selection

  // ------------------------------------------------------------- refusals

  /** Draft id waits for this request: mapped, with a target, selected, and by the author
      that the request is confined to. */
  ghost predicate Waits(s: State, q: Request, id: DraftId)
  {
    && id in s.drafts && s.drafts[id].status == Mapped && s.drafts[id].target.Some?
    && (q.scope == None
        || exists i | 0 <= i < |q.scope.value| ::
             q.scope.value[i].raw == id.0 && (q.scope.value[i].user == None || q.scope.value[i].user == Some(id.1)))
    && (q.onlyAuthor == None || q.onlyAuthor == Some(id.1))
  }

  lemma WaitsIff(s: State, q: Request, id: DraftId)
    ensures id in Eligible(s, q) <==> Waits(s, q, id)
  {
    if q.scope.Some? {
      Selection.SelectedMeans(q.scope.value, id);
    }
  }

  /** Some selector of the request has no waiting draft. */
  ghost predicate Unmatched(s: State, q: Request)
  {
    q.scope.Some? && exists p | p in q.scope.value ::
      forall id | Waits(s, q, id) :: !(p.raw == id.0 && (p.user == None || p.user == Some(id.1)))
  }

  /** Two waiting drafts give one new record different labels. */
  ghost predicate Clashes(s: State, q: Request)
  {
    exists a, b | Waits(s, q, a) && Waits(s, q, b) ::
      && s.drafts[a].target == s.drafts[b].target && s.drafts[a].target.value !in s.dim
      && s.drafts[a].name != s.drafts[b].name
  }

  ghost predicate Unlabelled(s: State, q: Request)
  {
    exists a | Waits(s, q, a) :: s.drafts[a].target.value !in s.dim && s.drafts[a].name == None
  }

  ghost predicate OwnWaits(s: State, q: Request)
  {
    exists a | Waits(s, q, a) :: a.1 == q.user
  }

  /** The first of these reasons is given: a selector without a draft; the validation
      gate, unless it is a rollback; a draft of the publisher's own under the rule of two,
      from which only the system is free; and what aborts the transaction.  A request
      with nothing waiting and nothing changed is passed over before the gate. */
  lemma PublishRefusals(c: Schema, s: State, q: Request)
    ensures NothingToCommit(c, s, q) <==> (forall id :: !Waits(s, q, id)) && ChangedKeys(c, s) == {}
    ensures CommitError(c, s, q)
            == if Unmatched(s, q) then Some(ValidationFailed)
               else if NothingToCommit(c, s, q) then None
               else if q.blocked && q.kind != Kind.Rollback then Some(ValidationFailed)
               else if q.fourEyes && q.user != "u_system" && OwnWaits(s, q) then Some(SecondPublisherRequired)
               else if Clashes(s, q) then Some(UniqueViolation)
               else if c.labelRequired && Unlabelled(s, q) then Some(NotNullViolation)
               else if exists x | x in s.snaps :: x.version == |s.events| + 1 then Some(UniqueViolation)
               else None
  {
    hide Waits, ChangedKeys, Eligible;
    forall id
      ensures id in Eligible(s, q) <==> Waits(s, q, id)
    {
      WaitsIff(s, q, id);
    }
    MissingIff(s, q);
    OwnIff(s, q);
    ClashIff(s, q);
    UnlabelledIff(s, q);
  }

  lemma MissingIff(s: State, q: Request)
    requires forall id :: id in Eligible(s, q) <==> Waits(s, q, id)
    ensures HasMissingSelector(s, q) <==> Unmatched(s, q)
  {
    hide Waits, Eligible;
    if q.scope.Some? {
      forall p | p in q.scope.value
        ensures (exists id | id in Eligible(s, q) :: Selected([p], id)) <==>
                !forall id | Waits(s, q, id) :: !(p.raw == id.0 && (p.user == None || p.user == Some(id.1)))
      {
        forall id
          ensures Selected([p], id) <==> p.raw == id.0 && (p.user == None || p.user == Some(id.1))
        {
          assert [p][0] == p;
          Selection.SelectedMeans([p], id);
        }
      }
    }
  }

  lemma OwnIff(s: State, q: Request)
    requires forall id :: id in Eligible(s, q) <==> Waits(s, q, id)
    ensures HasOwnDraft(s, q) <==> q.user != "u_system" && OwnWaits(s, q)
  {
    hide Waits, Eligible;
  }

  lemma ClashIff(s: State, q: Request)
    requires forall id :: id in Eligible(s, q) <==> Waits(s, q, id)
    ensures LabelsClash(s, q) <==> Clashes(s, q)
  {
  }

  lemma UnlabelledIff(s: State, q: Request)
    requires forall id :: id in Eligible(s, q) <==> Waits(s, q, id)
    ensures LabelMissing(s, q) <==> Unlabelled(s, q)
  {
  }

  /** The rule of two: under it nobody but the system publishes a draft of their own. */
  lemma FourEyesHolds(c: Schema, s: State, q: Request, s': State, id: DraftId)
    requires PositionsDistinct(s.dim) && CommitStep(c, s, q, s') && q.fourEyes && q.user != "u_system"
    requires id in s.drafts && id !in s'.drafts && s.drafts[id].target.Some?
    ensures id.1 != q.user
  {
    hide Waits, ChangedKeys, FoldedDim, FoldedMapping;
    PublishRefusals(c, s, q);
    Selection.TakenIff(c, s, q, s', id);
    WaitsIff(s, q, id);
  }

  // ------------------------------------------------------------- placement

  /** Some taken draft with target a was saved before every one with target b, or at the
      same time as the first of them and a comes first. */
  ghost predicate FirstAsked(s: State, s': State, a: Key, b: Key)
  {
    exists x | Selection.Takes(s, s', x, a) :: forall y | Selection.Takes(s, s', y, b) ::
      s.drafts[x].createdAt < s.drafts[y].createdAt
      || (s.drafts[x].createdAt == s.drafts[y].createdAt && LexLess(a, b))
  }

  /** The new records of a manually ordered table stand below the old ones, 1024 apart, in
      the order in which they were first asked for; otherwise none has a position. */
  lemma NewRecordsPlaced(c: Schema, s: State, q: Request, s': State) returns (order: seq<Key>, base: int)
    requires PositionsDistinct(s.dim) && Committed(c, s, q, s')
    ensures RecordEdits.IsBottom(s.dim, base + 1024)
    ensures forall k :: k in order <==> k in s'.dim && k !in s.dim
    ensures forall i, j | 0 <= i < j < |order| :: order[i] != order[j] && FirstAsked(s, s', order[i], order[j])
    ensures forall i | 0 <= i < |order| ::
              s'.dim[order[i]].position == if c.manual then Some(base + 1024 * (i + 1)) else None
  {
    hide Committed, FoldedDim, FirstAsked, SeenBefore, TopPosition, RecordEdits.IsBottom, PositionsDistinct;
    order := FoldOrder(c, s, q, s');
    base := TopPosition(s.dim);
    TopIsBottom(s.dim);
    OrderIsNew(c, s, q, s'.dim, order);
    forall i, j | 0 <= i < j < |order|
      ensures order[i] != order[j] && FirstAsked(s, s', order[i], order[j])
    {
      SeenIsAsked(c, s, q, s', order[i], order[j]);
    }
  }

  lemma FoldOrder(c: Schema, s: State, q: Request, s': State) returns (order: seq<Key>)
    requires PositionsDistinct(s.dim) && Committed(c, s, q, s')
    ensures FoldedDim(c, s, q, order, s'.dim)
  {
    hide FoldedDim, FoldedMapping;
    order :| FoldedDim(c, s, q, order, s'.dim);
  }

  lemma TopIsBottom(dim: map<Key, Row>)
    requires PositionsDistinct(dim)
    ensures RecordEdits.IsBottom(dim, TopPosition(dim) + 1024)
  {
    hide RecordEdits.IsBottom;
    RecordEdits.BottomSlot(dim);
  }

  lemma OrderIsNew(c: Schema, s: State, q: Request, after: map<Key, Row>, order: seq<Key>)
    requires PositionsDistinct(s.dim) && FoldedDim(c, s, q, order, after)
    ensures forall k :: k in order <==> k in after && k !in s.dim
    ensures forall i, j | 0 <= i < j < |order| :: order[i] != order[j] && SeenBefore(s, q, order[i], order[j])
    ensures forall i | 0 <= i < |order| ::
              order[i] in after
              && after[order[i]].position == if c.manual then Some(TopPosition(s.dim) + 1024 * (i + 1)) else None
  {
    hide TopPosition, SeenBefore, Eligible, BlankCells;
    forall i | 0 <= i < |order|
      ensures order[i] in after
    {
      assert order[i] in order;
    }
    forall k | k in NewKeys(s, q)
      ensures k !in s.dim
    {
    }
  }

  lemma SeenIsAsked(c: Schema, s: State, q: Request, s': State, a: Key, b: Key)
    requires PositionsDistinct(s.dim) && Committed(c, s, q, s') && SeenBefore(s, q, a, b)
    ensures FirstAsked(s, s', a, b)
  {
    hide Committed;
    var i, j :| FirstSeen(s, q, a, i) && FirstSeen(s, q, b, j) && (i < j || (i == j && LexLess(a, b)));
    var x :| x in Eligible(s, q) && Target(s, x) == a && s.drafts[x].createdAt == i;
    Selection.TakenIff(c, s, q, s', x);
    assert Target(s, x) == s.drafts[x].target.value;
    assert Selection.Takes(s, s', x, a);
    forall y | Selection.Takes(s, s', y, b)
      ensures j <= s.drafts[y].createdAt
    {
      Selection.TakenIff(c, s, q, s', y);
      assert Target(s, y) == b;
    }
  }

  // ------------------------------------------------------------- the version

  /** One version and one event are appended, numbered after the events so far, with the
      request's kind and origin; the version holds every mapping and record as they are
      now, and with each record the given formula results, or null. */
  lemma VersionWritten(c: Schema, s: State, q: Request, s': State)
    requires PositionsDistinct(s.dim) && Committed(c, s, q, s')
    ensures |s'.snaps| == |s.snaps| + 1 && s'.snaps[..|s.snaps|] == s.snaps
    ensures s'.events == s.events + [Event(|s.events| + 1, s.clock + 1)] && s'.clock == s.clock + 1
    ensures s'.stamps == s.stamps
    ensures var x := s'.snaps[|s.snaps|];
            && x.version == |s.events| + 1 && x.kind == q.kind && x.restores == q.restores
            && x.mappings == s'.mapping && x.records.Keys == s'.dim.Keys
            && forall k | k in s'.dim :: HoldsRow(c, q, k, s'.dim[k], x.records[k])
  {
    hide FoldedDim, FoldedMapping, InScope, PositionsDistinct;
  }

  ghost predicate HoldsRow(c: Schema, q: Request, k: Key, row: Row, stored: Row)
  {
    && stored.name == row.name && stored.position == row.position
    && stored.cells.Keys == row.cells.Keys + c.formulas
    && (forall f | f in row.cells && f !in c.formulas :: stored.cells[f] == row.cells[f])
    && (forall f | f in c.formulas :: stored.cells[f] == if (k, f) in q.computed then q.computed[(k, f)] else Null)
  }
}
