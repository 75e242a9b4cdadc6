/** Concurrent publishers of one table.  A publish transaction locks, counts the
    committed events, inserts its snapshot under the unique index on versions,
    inserts its event, and commits; between any two of its statements any other
    publisher may run, and any transaction may abort. */
module Publishers {
  import opened Prelude

  datatype Phase =
    | Idle | Begun | Holding
    | Counted(version: int) | Inserted(version: int) | Emitted(version: int)

  /** Committed rows, the advisory lock, and where each publisher is.  Rows of open
      transactions live in the phases; nobody else sees them. */
  datatype World = World(snaps: seq<int>, events: seq<int>, lock: Option<nat>, phase: map<nat, Phase>)

  datatype Statement = Begin | Lock | Count | Insert | Refused | Emit | Commit | Abort

  function PhaseOf(w: World, p: nat): Phase
  {
    if p in w.phase then w.phase[p] else Idle
  }

  /** Has p an uncommitted snapshot row of version v? */
  predicate HasInserted(w: World, p: nat, v: int)
  {
    PhaseOf(w, p) == Inserted(v) || PhaseOf(w, p) == Emitted(v)
  }

  function Goes(w: World, p: nat, to: Phase): World
  {
    w.(phase := w.phase[p := to])
  }

  /** The end of p's transaction, which releases the lock if p holds it. */
  function Ends(w: World, p: nat): World
  {
    Goes(w, p, Idle).(lock := if w.lock == Some(p) then None else w.lock)
  }

  /** One statement of publisher p.  `locking` says whether the advisory lock is
      taken; without it the Lock statement does not wait and holds nothing. */
  ghost predicate Does(locking: bool, w: World, p: nat, s: Statement, w': World)
  {
    var ph := PhaseOf(w, p);
    match s
    case Begin => ph.Idle? && w' == Goes(w, p, Begun)
    case Lock => ph.Begun? && (locking ==> w.lock.None?)
                 && w' == Goes(w, p, Holding).(lock := if locking then Some(p) else w.lock)
    case Count => ph.Holding? && w' == Goes(w, p, Counted(|w.events| + 1))
    // the unique index: wait for an open insert of the same version, then succeed or fail
    case Insert => ph.Counted? && ph.version !in w.snaps && (forall o: nat :: !HasInserted(w, o, ph.version))
                   && w' == Goes(w, p, Inserted(ph.version))
    case Refused => ph.Counted? && ph.version in w.snaps && w' == Ends(w, p)
    case Emit => ph.Inserted? && w' == Goes(w, p, Emitted(ph.version))
    case Commit => ph.Emitted?
                   && w' == Ends(w, p).(snaps := w.snaps + [ph.version], events := w.events + [ph.version])
    case Abort => !ph.Idle? && w' == Ends(w, p)
  }

  const START := World([], [], None, map[])

  ghost predicate Interleaving(locking: bool, worlds: seq<World>, moves: seq<(nat, Statement)>)
  {
    && |worlds| == |moves| + 1 && worlds[0] == START
    && forall i | 0 <= i < |moves| :: Does(locking, worlds[i], moves[i].0, moves[i].1, worlds[i + 1])
  }

  /** Versions are exactly 1..n, in order, with one event each. */
  ghost predicate Dense(w: World)
  {
    |w.snaps| == |w.events| && forall i | 0 <= i < |w.snaps| :: w.snaps[i] == i + 1 && w.events[i] == i + 1
  }

  /** Open counts are never ahead, and an open insert is of the next version. */
  ghost predicate OpenRows(w: World)
  {
    && (forall p: nat, v | PhaseOf(w, p) == Counted(v) :: 1 <= v <= |w.events| + 1)
    && (forall p: nat, v | HasInserted(w, p, v) :: v == |w.events| + 1)
    && (forall p: nat, o: nat, v | HasInserted(w, p, v) && HasInserted(w, o, v) :: p == o)
  }

  /** With the lock: only its holder is past it, and its count is current. */
  ghost predicate Exclusive(w: World)
  {
    && (forall p: nat | !PhaseOf(w, p).Idle? && !PhaseOf(w, p).Begun? :: w.lock == Some(p))
    && (w.lock.Some? ==> !PhaseOf(w, w.lock.value).Idle? && !PhaseOf(w, w.lock.value).Begun?)
    && (forall p: nat, v | PhaseOf(w, p) == Counted(v) :: v == |w.events| + 1)
  }

  lemma StepKeepsDense(locking: bool, w: World, p: nat, s: Statement, w': World)
    requires Dense(w) && OpenRows(w) && Does(locking, w, p, s, w')
    ensures Dense(w') && OpenRows(w')
  {
    match s
    case Commit => CommitKeepsDense(w, p, w');
    case Insert =>
      NextOrTaken(w, PhaseOf(w, p).version);
      MoveKeepsDense(w, p, w');
    case Emit =>
      assert HasInserted(w, p, PhaseOf(w, p).version);
      MoveKeepsDense(w, p, w');
    case _ => MoveKeepsDense(w, p, w');
  }

  /** A statement that commits nothing and moves p to a phase that fits. */
  lemma MoveKeepsDense(w: World, p: nat, w': World)
    requires Dense(w) && OpenRows(w)
    requires w'.snaps == w.snaps && w'.events == w.events
    requires forall o: nat | o != p :: PhaseOf(w', o) == PhaseOf(w, o)
    requires PhaseOf(w', p).Counted? ==> 1 <= PhaseOf(w', p).version <= |w.events| + 1
    requires PhaseOf(w', p).Inserted? || PhaseOf(w', p).Emitted? ==>
               && PhaseOf(w', p).version == |w.events| + 1
               && forall o: nat | o != p :: !HasInserted(w, o, PhaseOf(w', p).version)
    ensures Dense(w') && OpenRows(w')
  {
    forall o: nat, v | HasInserted(w', o, v)
      ensures v == |w.events| + 1 && (o == p || HasInserted(w, o, v))
    {
      assert o != p ==> HasInserted(w, o, v);
    }
  }

  lemma CommitKeepsDense(w: World, p: nat, w': World)
    requires Dense(w) && OpenRows(w) && Does(false, w, p, Commit, w')
    ensures Dense(w') && OpenRows(w')
  {
    var v := PhaseOf(w, p).version;
    assert HasInserted(w, p, v);
    forall o: nat, x
      ensures !HasInserted(w', o, x)
      ensures PhaseOf(w', o) == Counted(x) ==> PhaseOf(w, o) == Counted(x)
    {
      assert HasInserted(w, o, x) ==> x == v;
    }
  }

  lemma NextOrTaken(w: World, v: int)
    requires Dense(w) && 1 <= v <= |w.events| + 1
    ensures v in w.snaps <==> v <= |w.events|
  {
    if v <= |w.events| {
      assert w.snaps[v - 1] == v;
    }
  }

  lemma StepKeepsExclusive(w: World, p: nat, s: Statement, w': World)
    requires Exclusive(w) && Does(true, w, p, s, w')
    ensures Exclusive(w')
  {
    forall o: nat | o != p
      ensures PhaseOf(w', o) == PhaseOf(w, o)
    {
    }
  }

  /** Whatever the publishers do, with the lock or without it, the versions of a
      table are exactly 1..n, without gap or duplicate, and each has one event. */
  lemma {:induction false} VersionsStayDense(locking: bool, worlds: seq<World>, moves: seq<(nat, Statement)>, i: nat)
    requires Interleaving(locking, worlds, moves) && i < |worlds|
    ensures Dense(worlds[i]) && OpenRows(worlds[i])
  {
    if i > 0 {
      VersionsStayDense(locking, worlds, moves, i - 1);
      StepKeepsDense(locking, worlds[i - 1], moves[i - 1].0, moves[i - 1].1, worlds[i]);
    }
  }

  lemma {:induction false} LockExcludes(worlds: seq<World>, moves: seq<(nat, Statement)>, i: nat)
    requires Interleaving(true, worlds, moves) && i < |worlds|
    ensures Exclusive(worlds[i])
  {
    if i > 0 {
      LockExcludes(worlds, moves, i - 1);
      StepKeepsExclusive(worlds[i - 1], moves[i - 1].0, moves[i - 1].1, worlds[i]);
    }
  }

  /** What the lock adds: no publish is ever refused by the unique index. */
  lemma LockedNeverRefused(worlds: seq<World>, moves: seq<(nat, Statement)>, i: nat)
    requires Interleaving(true, worlds, moves) && i < |moves|
    ensures !moves[i].1.Refused?
  {
    LockExcludes(worlds, moves, i);
    VersionsStayDense(true, worlds, moves, i);
    var w, p := worlds[i], moves[i].0;
    assert Does(true, w, p, moves[i].1, worlds[i + 1]);
    if PhaseOf(w, p).Counted? {
      NextOrTaken(w, PhaseOf(w, p).version);
      assert PhaseOf(w, p).version == |w.events| + 1;
    }
  }

  /** The statement that takes p's transaction forward. */
  function NextStatement(ph: Phase): Statement
  {
    match ph
    case Idle => Begin
    case Begun => Lock
    case Holding => Count
    case Counted(_) => Insert
    case Inserted(_) => Emit
    case Emitted(_) => Commit
  }

  /** And nobody gets stuck: the lock's holder can always go on, and when nobody
      holds it everybody can. */
  lemma LockedNeverStuck(worlds: seq<World>, moves: seq<(nat, Statement)>, i: nat, p: nat)
    requires Interleaving(true, worlds, moves) && i < |worlds|
    requires worlds[i].lock.None? || worlds[i].lock == Some(p)
    ensures exists w' :: Does(true, worlds[i], p, NextStatement(PhaseOf(worlds[i], p)), w')
  {
    LockExcludes(worlds, moves, i);
    VersionsStayDense(true, worlds, moves, i);
    var w, ph := worlds[i], PhaseOf(worlds[i], p);
    var w' := match ph
      case Idle => Goes(w, p, Begun)
      case Begun => Goes(w, p, Holding).(lock := Some(p))
      case Holding => Goes(w, p, Counted(|w.events| + 1))
      case Counted(v) => Goes(w, p, Inserted(v))
      case Inserted(v) => Goes(w, p, Emitted(v))
      case Emitted(v) => Ends(w, p).(snaps := w.snaps + [v], events := w.events + [v]);
    if ph.Counted? {
      NextOrTaken(w, ph.version);
    }
    assert Does(true, w, p, NextStatement(ph), w');
  }

  lemma Extended(worlds: seq<World>, moves: seq<(nat, Statement)>, p: nat, s: Statement, w': World)
    returns (ws: seq<World>, ms: seq<(nat, Statement)>)
    requires Interleaving(false, worlds, moves) && Does(false, worlds[|moves|], p, s, w')
    ensures ws == worlds + [w'] && ms == moves + [(p, s)] && Interleaving(false, ws, ms)
    ensures ws[|ms|] == w' && ms[|ms| - 1] == (p, s)
  {
    ws, ms := worlds + [w'], moves + [(p, s)];
  }

  /** p begins, passes the lock that is not there, and counts. */
  lemma CountsUnlocked(worlds: seq<World>, moves: seq<(nat, Statement)>, p: nat)
    returns (ws: seq<World>, ms: seq<(nat, Statement)>)
    requires Interleaving(false, worlds, moves) && PhaseOf(worlds[|moves|], p).Idle?
    ensures Interleaving(false, ws, ms)
    ensures var w := worlds[|moves|]; ws[|ms|] == Goes(w, p, Counted(|w.events| + 1))
  {
    var w := worlds[|moves|];
    var a := Goes(w, p, Begun);
    var b := Goes(w, p, Holding);
    var d := Goes(w, p, Counted(|w.events| + 1));
    assert Goes(a, p, Holding) == b && Goes(b, p, Counted(|w.events| + 1)) == d;
    ws, ms := Extended(worlds, moves, p, Begin, a);
    ws, ms := Extended(ws, ms, p, Lock, b);
    ws, ms := Extended(ws, ms, p, Count, d);
  }

  /** Without the lock two publishers can count the same events, and the slower one
      is refused. */
  lemma UnlockedIsRefused() returns (worlds: seq<World>, moves: seq<(nat, Statement)>)
    ensures Interleaving(false, worlds, moves) && |moves| > 0 && moves[|moves| - 1].1.Refused?
  {
    worlds, moves := CountsUnlocked([START], [], 0);
    worlds, moves := CountsUnlocked(worlds, moves, 1);
    var w := worlds[|moves|];
    assert PhaseOf(w, 0) == Counted(1) && PhaseOf(w, 1) == Counted(1);
    var a := Goes(w, 0, Inserted(1));
    worlds, moves := Extended(worlds, moves, 0, Insert, a);
    var b := Goes(a, 0, Emitted(1));
    worlds, moves := Extended(worlds, moves, 0, Emit, b);
    var d := Ends(b, 0).(snaps := [1], events := [1]);
    worlds, moves := Extended(worlds, moves, 0, Commit, d);
    worlds, moves := Extended(worlds, moves, 1, Refused, Ends(d, 1));
  }
}
