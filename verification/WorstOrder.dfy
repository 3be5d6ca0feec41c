/** The map order that costs a pane its row wherever one can: picked turn by turn so that a
    crossed pane finds its pool used up. */
module WorstOrder {
  import opened Wrappers
  import opened AgentModel
  import opened TrackerSpec
  import opened TrackerInvariants
  import opened ScanOwnership
  import opened OwnRows
  import opened FallbackPool
  import opened PaneCoverage
  import opened Reordering

  /** The agent's pid-less rows that stand at turn h. */
  ghost function At(start: Start, tr: ScanTrace, j: nat, h: nat): set<Key>
    requires j < |start.panes|
  {
    Left(start, start, tr, start.panes[j].agent, h)
  }

  /** Neither its own row nor one with a pid is there for pane g. */
  ghost predicate Falls(start: Start, standing: set<Key>, g: nat)
    requires g < |start.panes|
  {
    !OwnStands(start, standing, g) && !start.SureOfPid(g)
  }

  // ----- what a turn can be -----

  /** A row with a pid that matches at a pane's turn was sure to. */
  lemma PidMatchIsSure(start: Start, env: Env, tr: ScanTrace, h: nat, r: Key)
    requires Calm(start, env, tr) && h < |start.panes|
    requires ThreadMatch(tr.states[h].rows, tr.claims[h], start.panes[h], r)
             || PidMatch(tr.states[h].rows, tr.claims[h], start.panes[h], r)
    requires tr.states[h].rows[r].pid != 0
    ensures start.SureOfPid(h)
  {
    var pa := start.panes[h];
    MatchStands(start, env, tr, h, r);
    assert Stands(start, tr, r, h) && Stands(start, tr, r, 0);
    assert ThreadMatch(start.rows, {}, pa, r) || PidMatch(start.rows, {}, pa, r);
    forall e | 0 <= e < h
      ensures start.Spares(e, r)
    {
      assert Stands(start, tr, r, e) && Stands(start, tr, r, e + 1);
      CalmKeeps(start, env, tr, e);
      StepOf(start, env, tr, e);
      PassedIsNotRetired(start, env, tr, r, e);
    }
    assert start.Free(r, h);
  }

  /** The pane's own row stands: it keeps it. */
  lemma OwnIsKept(start: Start, env: Env, tr: ScanTrace, h: nat)
    requires Calm(start, env, tr) && h < |start.panes|
    requires OwnStands(start, Left(start, start, tr, start.panes[h].agent, h), h)
    ensures tr.kept[h] == Some(KeyOf(start, h))
  {
    var rows, claimed, pa := tr.states[h].rows, tr.claims[h], start.panes[h];
    StepOf(start, env, tr, h);
    assert ThreadMatch(rows, claimed, pa, KeyOf(start, h));
    SomeClaim(rows, claimed, pa, KeyOf(start, h));
  }

  /** Only a row with a pid is there for it: it keeps no pid-less one. */
  lemma PidIsKept(start: Start, env: Env, tr: ScanTrace, h: nat)
    requires Calm(start, env, tr) && h < |start.panes| && start.SureOfPid(h)
    requires !OwnStands(start, Left(start, start, tr, start.panes[h].agent, h), h)
    ensures tr.kept[h].Some? && tr.kept[h].value !in Left(start, start, tr, start.panes[h].agent, h)
  {
    CalmKeeps(start, env, tr, h);
    SureOfPidMatches(start, env, tr, h);
    if tr.kept[h].value in Left(start, start, tr, start.panes[h].agent, h) {
      KeptIsClaimable(start, start, env, tr, h, tr.kept[h].value);
      OwnIsStanding(start, start, env, tr, h);
      assert false;
    }
  }

  /** Neither is: no row of its thread or process decides. */
  lemma FallsHasNoMatch(start: Start, env: Env, tr: ScanTrace, h: nat)
    requires Calm(start, env, tr) && h < |start.panes|
    requires Falls(start, Left(start, start, tr, start.panes[h].agent, h), h)
    ensures !HasMatch(tr.states[h].rows, tr.claims[h], start.panes[h])
  {
    var rows, claimed, pa := tr.states[h].rows, tr.claims[h], start.panes[h];
    if HasMatch(rows, claimed, pa) {
      var r :| ThreadMatch(rows, claimed, pa, r) || PidMatch(rows, claimed, pa, r);
      if rows[r].pid != 0 {
        PidMatchIsSure(start, env, tr, h, r);
      } else {
        FallbackIsLeft(start, env, tr, h, r);
        OwnIsStanding(start, start, env, tr, h);
      }
      assert false;
    }
  }

  /** A row that stands on a pane at its turn is a home row. */
  lemma BoundIsHome(start: Start, env: Env, tr: ScanTrace, h: nat, r: Key)
    requires Calm(start, env, tr) && NoStrays(start) && h < |start.panes|
    requires PidlessBound(tr.states[h].rows, tr.claims[h], start.panes[h], r)
    ensures r in Left(start, start, tr, start.panes[h].agent, h) && HomeRow(start, h, r)
  {
    FallbackIsLeft(start, env, tr, h, r);
    assert Stands(start, tr, r, h);
    assert PidlessBound(start.rows, {}, start.panes[h], r);
    assert !Stray(start, h);
    forall e | 0 <= e < h && start.panes[e].agent == start.panes[h].agent
      ensures r != KeyOf(start, e)
    {
      NotPassedOver(start, start, env, tr, e, h, r);
    }
  }

  lemma BoundIsClaimed(rows: Rows, claimed: set<Key>, pa: Presence, r: Key)
    requires !HasMatch(rows, claimed, pa) && PidlessBound(rows, claimed, pa, r)
    ensures MayClaim(rows, claimed, pa, r)
    ensures forall q :: MayClaim(rows, claimed, pa, q) ==> PidlessBound(rows, claimed, pa, q)
  {
  }

  /** Rows on the pane stand: it keeps one of them, and may keep any. */
  lemma HomeMayBeKept(start: Start, env: Env, tr: ScanTrace, h: nat, r: Key)
    requires Calm(start, env, tr) && NoStrays(start) && h < |start.panes|
    requires Falls(start, Left(start, start, tr, start.panes[h].agent, h), h)
    requires r in Left(start, start, tr, start.panes[h].agent, h) && HomeRow(start, h, r)
    ensures MayClaim(tr.states[h].rows, tr.claims[h], start.panes[h], r)
    ensures tr.kept[h].Some? && HomeRow(start, h, tr.kept[h].value)
  {
    var rows, claimed, pa := tr.states[h].rows, tr.claims[h], start.panes[h];
    FallsHasNoMatch(start, env, tr, h);
    BoundIsClaimed(rows, claimed, pa, r);
    StepOf(start, env, tr, h);
    BoundIsHome(start, env, tr, h, tr.kept[h].value);
  }

  /** None does: it may keep any pid-less row that stands. */
  lemma AnyMayBeKept(start: Start, env: Env, tr: ScanTrace, h: nat, x: Key)
    requires Calm(start, env, tr) && NoStrays(start) && h < |start.panes|
    requires Falls(start, Left(start, start, tr, start.panes[h].agent, h), h)
    requires !HasHome(start, Left(start, start, tr, start.panes[h].agent, h), h)
    requires x in Left(start, start, tr, start.panes[h].agent, h)
    ensures MayClaim(tr.states[h].rows, tr.claims[h], start.panes[h], x)
  {
    var rows, claimed, pa := tr.states[h].rows, tr.claims[h], start.panes[h];
    FallsHasNoMatch(start, env, tr, h);
    if r :| PidlessBound(rows, claimed, pa, r) {
      BoundIsHome(start, env, tr, h, r);
      assert false;
    }
    assert PidlessMatch(rows, claimed, pa, x);
  }

  // ----- room the turn leaves -----

  /** Pane g may no longer take a row of the pool since a turn before it. */
  ghost predicate Lost(start: Start, pool: set<Key>, standing: set<Key>, standing': set<Key>, g: nat)
    requires g < |start.panes|
  {
    MayTake(start, pool, standing, g) && !MayTake(start, pool, standing', g)
  }

  /** Then its own row of the pool, or the one on it, was kept. */
  lemma LostByKept(start: Start, pool: set<Key>, standing: set<Key>, standing': set<Key>, kept: Option<Key>,
                   h: nat, g: nat)
    requires h < g < |start.panes| && DistinctPanes(start.panes) && Shrunk(start, standing, standing', kept, h)
    requires Lost(start, pool, standing, standing', g)
    ensures kept.Some? && kept.value in standing && kept.value in pool
    ensures if OwnStands(start, standing, g) then kept.value == KeyOf(start, g) else HomeRow(start, g, kept.value)
  {
    if OwnStands(start, standing, g) {
      assert KeyOf(start, g) !in standing';
    } else {
      var q :| q in standing' && HomeRow(start, g, q);
      assert q in standing;
      assert HasHome(start, standing, g);
      var r :| r in standing * pool && HomeRow(start, g, r);
      assert r in standing' ==> r in standing' * pool;
    }
  }

  lemma {:induction false} RoomGrows(start: Start, agent: string, pool: set<Key>, standing: set<Key>,
                                     standing': set<Key>, a: nat, n: nat)
    requires n <= |start.panes|
    requires forall g :: a <= g < n && start.panes[g].agent == agent ==> !Lost(start, pool, standing, standing', g)
    ensures Room(start, agent, pool, standing, a, n) <= Room(start, agent, pool, standing', a, n)
  {
    if a < n {
      RoomGrows(start, agent, pool, standing, standing', a, n - 1);
    }
  }

  // ----- what the order is picked to keep up -----

  /** A pane that falls back at the start and has no row on it: it picks freely. */
  ghost predicate Picks(start: Start, j: nat, g: nat)
    requires g < |start.panes| && j < |start.panes|
  {
    && start.panes[g].agent == start.panes[j].agent
    && Falls(start, Fallbacks(start, start.panes[j].agent), g)
    && !HasHome(start, Fallbacks(start, start.panes[j].agent), g)
  }

  /** The pool's rows that stand are no more than the panes left that may take one. */
  ghost predicate Enough(start: Start, tr: ScanTrace, j: nat, h: nat)
    requires h <= j < |start.panes|
  {
    var pool, standing := Pool(start, j), At(start, tr, j, h);
    |standing * pool| <= Room(start, start.panes[j].agent, pool, standing, h, j)
  }

  /** Pane f, on which the row of pane j's thread is, would retire it. */
  ghost predicate Deadline(start: Start, standing: set<Key>, j: nat, f: nat)
    requires f < |start.panes| && j < |start.panes|
  {
    HomeRow(start, f, KeyOf(start, j)) && !Falls(start, standing, f)
  }

  /** Before a pane that would retire the row a pane picks. */
  ghost predicate TimeLeft(start: Start, standing: set<Key>, j: nat, h: nat)
    requires h <= j < |start.panes|
  {
    forall f :: h <= f < j && Deadline(start, standing, j, f) ==> exists g :: h <= g < f && Picks(start, j, g)
  }

  /** The row of pane j's thread was claimed, or it stands and time is left. */
  ghost predicate InTime(start: Start, tr: ScanTrace, j: nat, h: nat)
    requires h <= j < |start.panes| < |tr.claims|
  {
    var k, standing := KeyOf(start, j), At(start, tr, j, h);
    k in tr.claims[h] || (k in standing && TimeLeft(start, standing, j, h))
  }

  /** No pane behind h loses room. */
  ghost predicate NoneLost(start: Start, tr: ScanTrace, j: nat, h: nat)
    requires h < j < |start.panes|
  {
    forall g :: h < g < j && start.panes[g].agent == start.panes[j].agent ==>
      !Lost(start, Pool(start, j), At(start, tr, j, h), At(start, tr, j, h + 1), g)
  }

  /** The pane takes a row of the pool if it may. */
  ghost predicate TakesIfItMay(start: Start, tr: ScanTrace, j: nat, h: nat)
    requires h < j < |start.panes| <= |tr.kept|
  {
    MayTake(start, Pool(start, j), At(start, tr, j, h), h) ==>
      tr.kept[h].Some? && tr.kept[h].value in At(start, tr, j, h) * Pool(start, j)
  }

  /** A turn that costs no other pane its room keeps it enough if it takes a row of the pool
      whenever it may. */
  lemma EnoughAfter(start: Start, env: Env, tr: ScanTrace, j: nat, h: nat)
    requires Calm(start, env, tr) && h < j < |start.panes| && start.panes[h].agent == start.panes[j].agent
    requires Enough(start, tr, j, h) && NoneLost(start, tr, j, h) && TakesIfItMay(start, tr, j, h)
    ensures Enough(start, tr, j, h + 1)
  {
    RoomAfter(start, tr, j, h);
    PoolAfter(start, env, tr, j, h);
  }

  lemma RoomAfter(start: Start, tr: ScanTrace, j: nat, h: nat)
    requires h < j < |start.panes| && start.panes[h].agent == start.panes[j].agent && NoneLost(start, tr, j, h)
    ensures
      var agent, pool := start.panes[j].agent, Pool(start, j);
      Room(start, agent, pool, At(start, tr, j, h), h, j) <=
      Room(start, agent, pool, At(start, tr, j, h + 1), h + 1, j)
      + if MayTake(start, pool, At(start, tr, j, h), h) then 1 else 0
  {
    var agent, pool := start.panes[j].agent, Pool(start, j);
    RoomFirst(start, agent, pool, At(start, tr, j, h), h, j);
    RoomGrows(start, agent, pool, At(start, tr, j, h), At(start, tr, j, h + 1), h + 1, j);
  }

  lemma PoolAfter(start: Start, env: Env, tr: ScanTrace, j: nat, h: nat)
    requires Calm(start, env, tr) && h < j < |start.panes| && start.panes[h].agent == start.panes[j].agent
    requires TakesIfItMay(start, tr, j, h)
    ensures
      var pool := Pool(start, j);
      |At(start, tr, j, h + 1) * pool| + (if MayTake(start, pool, At(start, tr, j, h), h) then 1 else 0) <=
      |At(start, tr, j, h) * pool|
  {
    var pool := Pool(start, j);
    LeftShrinks(start, start, env, tr, start.panes[j].agent, h);
    if MayTake(start, pool, At(start, tr, j, h), h) {
      KeptIsGone(start, env, tr, h);
      Fewer(At(start, tr, j, h + 1) * pool, At(start, tr, j, h) * pool - {tr.kept[h].value});
    } else {
      Fewer(At(start, tr, j, h + 1) * pool, At(start, tr, j, h) * pool);
    }
  }

  lemma KeptIsGone(start: Start, env: Env, tr: ScanTrace, h: nat)
    requires Calm(start, env, tr) && h < |start.panes|
    requires tr.kept[h].Some? && tr.kept[h].value in Left(start, start, tr, start.panes[h].agent, h)
    ensures tr.kept[h].value in tr.claims[h + 1]
    ensures tr.kept[h].value !in Left(start, start, tr, start.panes[h].agent, h + 1)
  {
    KeptIsClaimable(start, start, env, tr, h, tr.kept[h].value);
    TakenIsClaimed(start, env, tr, h, tr.kept[h].value);
  }

  lemma TimeLeftAfter(start: Start, standing: set<Key>, standing': set<Key>, j: nat, h: nat)
    requires h < j < |start.panes| && TimeLeft(start, standing, j, h) && standing' <= standing
    requires !Picks(start, j, h) || forall f :: h < f < j ==> !Deadline(start, standing, j, f)
    ensures TimeLeft(start, standing', j, h + 1)
  {
    forall f | h + 1 <= f < j && Deadline(start, standing', j, f)
      ensures exists g :: h + 1 <= g < f && Picks(start, j, g)
    {
      assert Deadline(start, standing, j, f);
      var g :| h <= g < f && Picks(start, j, g);
      assert g != h;
    }
  }

  /** A turn keeps the thread's row in time if the row was claimed or is kept, or if it is not
      on the pane, and the pane does not pick or no pane behind would retire the row. */
  lemma InTimeAfter(start: Start, env: Env, tr: ScanTrace, j: nat, h: nat)
    requires Calm(start, env, tr) && h < j < |start.panes| && InTime(start, tr, j, h)
    requires start.panes[h].agent == start.panes[j].agent
    requires
      var k, standing := KeyOf(start, j), At(start, tr, j, h);
      k in standing && tr.kept[h] != Some(k) ==>
        && !HomeRow(start, h, k)
        && (!Picks(start, j, h) || forall f :: h < f < j ==> !Deadline(start, standing, j, f))
    ensures InTime(start, tr, j, h + 1)
  {
    var k := KeyOf(start, j);
    if k in tr.claims[h] {
      ClaimsGrow(start.panes, tr, h, h + 1);
    } else if tr.kept[h] == Some(k) {
      KeptIsGone(start, env, tr, h);
    } else {
      NotHomeStands(start, env, tr, j, h);
      LeftShrinks(start, start, env, tr, start.panes[j].agent, h);
      TimeLeftAfter(start, At(start, tr, j, h), At(start, tr, j, h + 1), j, h);
    }
  }

  lemma NotHomeStands(start: Start, env: Env, tr: ScanTrace, j: nat, h: nat)
    requires Calm(start, env, tr) && h < j < |start.panes| && KeyOf(start, j) in At(start, tr, j, h)
    requires tr.kept[h] != Some(KeyOf(start, j)) && !HomeRow(start, h, KeyOf(start, j))
    ensures KeyOf(start, j) in At(start, tr, j, h + 1)
  {
    var k := KeyOf(start, j);
    LeftShrinks(start, start, env, tr, start.panes[j].agent, h);
    StepOf(start, env, tr, 0);
    forall e | 0 <= e < h && start.panes[e].agent == start.panes[j].agent
      ensures k != KeyOf(start, e)
    {
    }
  }

  // ----- one turn of the order -----

  /** At pane h's turn a loss is still coming. */
  ghost predicate Coming(start: Start, env: Env, tr: ScanTrace, j: nat, h: nat)
    requires h <= j < |start.panes|
  {
    && Calm(start, env, tr) && NoStrays(start)
    && Enough(start, tr, j, h) && InTime(start, tr, j, h)
  }

  lemma StillComing(start: Start, env: Env, tr: ScanTrace, tr': ScanTrace, j: nat, h: nat)
    requires h <= j < |start.panes| && Coming(start, env, tr, j, h)
    requires Calm(start, env, tr') && SameUntil(tr, tr', h)
    ensures Coming(start, env, tr', j, h) && At(start, tr', j, h) == At(start, tr, j, h)
  {
    assert At(start, tr', j, h) == At(start, tr, j, h);
  }

  lemma OthersTurn(start: Start, env: Env, tr: ScanTrace, j: nat, h: nat)
    requires h < j < |start.panes| && Coming(start, env, tr, j, h) && start.panes[h].agent != start.panes[j].agent
    ensures Coming(start, env, tr, j, h + 1)
  {
    OtherAgentsTurn(start, start, env, tr, j, h);
    OthersInTime(start, env, tr, j, h);
  }

  lemma OthersInTime(start: Start, env: Env, tr: ScanTrace, j: nat, h: nat)
    requires h < j < |start.panes| && Calm(start, env, tr) && InTime(start, tr, j, h)
    requires start.panes[h].agent != start.panes[j].agent && At(start, tr, j, h + 1) == At(start, tr, j, h)
    ensures InTime(start, tr, j, h + 1)
  {
    ClaimsGrow(start.panes, tr, h, h + 1);
    if TimeLeft(start, At(start, tr, j, h), j, h) {
      TimeLeftAfter(start, At(start, tr, j, h), At(start, tr, j, h + 1), j, h);
    }
  }

  /** A row of the pool on a pane in front can only be the thread's. */
  lemma PoolHomeIsThreads(start: Start, j: nat, g: nat, y: Key)
    requires g < j < |start.panes| && y in Pool(start, j) && HomeRow(start, g, y)
    ensures y == KeyOf(start, j)
  {
    assert OnScannedPane(start, start.rows[y], j);
  }

  /** No row is the own row of two panes, or of one pane and on another behind it. */
  lemma OwnedOnce(start: Start, k: Key, g: nat, g': nat)
    requires DistinctThreads(start.panes) && g < g' < |start.panes| && start.panes[g].agent == start.panes[g'].agent
    requires k == KeyOf(start, g) && start.PidlessThread(g)
    ensures k != KeyOf(start, g') && !HomeRow(start, g', k)
  {
  }

  lemma TimelyOwn(start: Start, env: Env, tr: ScanTrace, j: nat, h: nat)
    requires h < j < |start.panes| && Coming(start, env, tr, j, h) && start.panes[h].agent == start.panes[j].agent
    requires !Falls(start, At(start, tr, j, h), h) && KeyOf(start, j) in At(start, tr, j, h)
    ensures !HomeRow(start, h, KeyOf(start, j)) && !Picks(start, j, h)
  {
    assert KeyOf(start, j) !in tr.claims[h];
    assert TimeLeft(start, At(start, tr, j, h), j, h);
    assert !Deadline(start, At(start, tr, j, h), j, h);
    assert At(start, tr, j, h) <= Fallbacks(start, start.panes[j].agent);
  }

  /** The pane's own row stands, or one with a pid is there for it. */
  lemma OwnTurn(start: Start, env: Env, tr: ScanTrace, j: nat, h: nat)
    requires h < j < |start.panes| && Coming(start, env, tr, j, h) && start.panes[h].agent == start.panes[j].agent
    requires !Falls(start, At(start, tr, j, h), h)
    ensures Coming(start, env, tr, j, h + 1)
  {
    var standing, own := At(start, tr, j, h), OwnStands(start, At(start, tr, j, h), h);
    if own {
      OwnIsKept(start, env, tr, h);
    } else {
      PidIsKept(start, env, tr, h);
    }
    LeftShrinks(start, start, env, tr, start.panes[j].agent, h);
    forall g | h < g < j && start.panes[g].agent == start.panes[j].agent
      ensures !Lost(start, Pool(start, j), standing, At(start, tr, j, h + 1), g)
    {
      if Lost(start, Pool(start, j), standing, At(start, tr, j, h + 1), g) {
        LostByKept(start, Pool(start, j), standing, At(start, tr, j, h + 1), tr.kept[h], h, g);
        OwnedOnce(start, KeyOf(start, h), h, g);
        assert false;
      }
    }
    EnoughAfter(start, env, tr, j, h);
    if KeyOf(start, j) in standing {
      TimelyOwn(start, env, tr, j, h);
    }
    InTimeAfter(start, env, tr, j, h);
  }

  /** Rows on the pane stand: it keeps one of them, the thread's if that is one. */
  lemma HomeTurn(start: Start, env: Env, tr: ScanTrace, j: nat, h: nat)
    requires h < j < |start.panes| && Coming(start, env, tr, j, h) && start.panes[h].agent == start.panes[j].agent
    requires Falls(start, At(start, tr, j, h), h) && HasHome(start, At(start, tr, j, h), h)
    requires tr.kept[h].Some? && HomeRow(start, h, tr.kept[h].value)
    requires KeyOf(start, j) in At(start, tr, j, h) && HomeRow(start, h, KeyOf(start, j)) ==>
               tr.kept[h] == Some(KeyOf(start, j))
    ensures Coming(start, env, tr, j, h + 1)
  {
    var standing, pool := At(start, tr, j, h), Pool(start, j);
    LeftShrinks(start, start, env, tr, start.panes[j].agent, h);
    forall g | h < g < j && start.panes[g].agent == start.panes[j].agent
      ensures !Lost(start, pool, standing, At(start, tr, j, h + 1), g)
    {
      if Lost(start, pool, standing, At(start, tr, j, h + 1), g) {
        LostByKept(start, pool, standing, At(start, tr, j, h + 1), tr.kept[h], h, g);
        PoolHomeIsThreads(start, j, h, tr.kept[h].value);
        assert false;
      }
    }
    if MayTake(start, pool, standing, h) {
      assert !Stray(start, h);
      var r :| r in standing * pool && HomeRow(start, h, r);
      PoolHomeIsThreads(start, j, h, r);
    }
    EnoughAfter(start, env, tr, j, h);
    assert !Picks(start, j, h);
    InTimeAfter(start, env, tr, j, h);
  }

  // ----- a free pick -----

  /** Pane g owns row y of the pool: it may take it as its thread's, or as the one on it. */
  ghost predicate Owner(start: Start, agent: string, pool: set<Key>, standing: set<Key>, g: nat, y: Key)
    requires g < |start.panes|
  {
    && y in standing * pool && start.panes[g].agent == agent && MayTake(start, pool, standing, g)
    && if OwnStands(start, standing, g) then y == KeyOf(start, g) else HomeRow(start, g, y)
  }

  ghost predicate HasOwner(start: Start, j: nat, standing: set<Key>, y: Key, a: nat, n: nat)
    requires n <= j < |start.panes|
  {
    exists g :: a <= g < n && Owner(start, start.panes[j].agent, Pool(start, j), standing, g, y)
  }

  lemma OwnerIsInFront(start: Start, j: nat, standing: set<Key>, y: Key, a: nat, n: nat)
    requires a < n <= j < |start.panes| && HasOwner(start, j, standing, y, a, n)
    requires !Owner(start, start.panes[j].agent, Pool(start, j), standing, n - 1, y)
    ensures HasOwner(start, j, standing, y, a, n - 1)
  {
    var g :| a <= g < n && Owner(start, start.panes[j].agent, Pool(start, j), standing, g, y);
    assert g < n - 1;
  }

  ghost predicate AllOwned(start: Start, j: nat, standing: set<Key>, ys: set<Key>, a: nat, n: nat)
    requires n <= j < |start.panes|
  {
    forall y :: y in ys ==> HasOwner(start, j, standing, y, a, n)
  }

  ghost function OwnedBy(start: Start, j: nat, standing: set<Key>, ys: set<Key>, g: nat): set<Key>
    requires g < j < |start.panes|
  {
    set y | y in ys && Owner(start, start.panes[j].agent, Pool(start, j), standing, g, y)
  }

  /** The rows are no more than the panes that may take one. */
  ghost predicate FewEnough(start: Start, j: nat, standing: set<Key>, ys: set<Key>, a: nat, n: nat)
    requires n <= j < |start.panes|
  {
    |ys| <= Room(start, start.panes[j].agent, Pool(start, j), standing, a, n)
  }

  /** Rows that each have an owner are. */
  lemma {:induction false} OwnedIsEnough(start: Start, j: nat, standing: set<Key>, ys: set<Key>, a: nat, n: nat)
    requires n <= j < |start.panes| && AllOwned(start, j, standing, ys, a, n)
    ensures FewEnough(start, j, standing, ys, a, n)
    decreases n
  {
    if n <= a {
      NoneIsOwned(start, j, standing, ys, a, n);
    } else {
      var others := WithoutLast(start, j, standing, ys, a, n);
      OwnedIsEnough(start, j, standing, others, a, n - 1);
    }
  }

  lemma WithoutLast(start: Start, j: nat, standing: set<Key>, ys: set<Key>, a: nat, n: nat)
    returns (others: set<Key>)
    requires a < n <= j < |start.panes| && AllOwned(start, j, standing, ys, a, n)
    ensures AllOwned(start, j, standing, others, a, n - 1)
    ensures FewEnough(start, j, standing, others, a, n - 1) ==> FewEnough(start, j, standing, ys, a, n)
  {
    others := ys - OwnedBy(start, j, standing, ys, n - 1);
    forall y | y in others
      ensures HasOwner(start, j, standing, y, a, n - 1)
    {
      OwnerIsInFront(start, j, standing, y, a, n);
    }
    if FewEnough(start, j, standing, others, a, n - 1) {
      LastIsOne(start, j, standing, ys, a, n);
    }
  }

  lemma NoneIsOwned(start: Start, j: nat, standing: set<Key>, ys: set<Key>, a: nat, n: nat)
    requires n <= a && n <= j < |start.panes| && AllOwned(start, j, standing, ys, a, n)
    ensures FewEnough(start, j, standing, ys, a, n)
  {
    assert ys == {};
  }

  /** Pane n - 1 owns at most one of them, and then may take it. */
  lemma LastIsOne(start: Start, j: nat, standing: set<Key>, ys: set<Key>, a: nat, n: nat)
    requires a < n <= j < |start.panes|
    requires FewEnough(start, j, standing, ys - OwnedBy(start, j, standing, ys, n - 1), a, n - 1)
    ensures FewEnough(start, j, standing, ys, a, n)
  {
    var last := OwnedBy(start, j, standing, ys, n - 1);
    if y :| y in last {
      forall y' | y' in last
        ensures y' == y
      {
        OneOwned(start, j, standing, n - 1, y, y');
      }
      Fewer(ys, ys - last + {y});
    } else {
      assert ys - last == ys;
    }
  }

  lemma OneOwned(start: Start, j: nat, standing: set<Key>, g: nat, y: Key, y': Key)
    requires g < j < |start.panes| && Owner(start, start.panes[j].agent, Pool(start, j), standing, g, y)
    ensures Owner(start, start.panes[j].agent, Pool(start, j), standing, g, y') ==> y == y'
  {
    if Owner(start, start.panes[j].agent, Pool(start, j), standing, g, y') && !OwnStands(start, standing, g) {
      PoolHomeIsThreads(start, j, g, y);
      PoolHomeIsThreads(start, j, g, y');
    }
  }

  /** Taking row x costs a pane of the agent between h and j its room. */
  ghost predicate Costs(start: Start, j: nat, standing: set<Key>, h: nat, x: Key)
    requires j < |start.panes|
  {
    CostsOne(start, j, standing, standing - {x}, h)
  }

  ghost predicate CostsOne(start: Start, j: nat, standing: set<Key>, standing': set<Key>, h: nat)
    requires j < |start.panes|
  {
    exists g :: h < g < j && start.panes[g].agent == start.panes[j].agent
                && Lost(start, Pool(start, j), standing, standing', g)
  }

  /** The pane behind that a row costs its room owns it while another is taken. */
  lemma CostlyIsOwned(start: Start, j: nat, standing: set<Key>, h: nat, x: Key, y: Key)
    requires h < j < |start.panes| && DistinctPanes(start.panes) && standing <= Fallbacks(start, start.panes[j].agent)
    requires x != y && y in standing * Pool(start, j) && Costs(start, j, standing, h, y)
    ensures HasOwner(start, j, standing - {x}, y, h + 1, j)
  {
    var pool := Pool(start, j);
    var g :| h < g < j && start.panes[g].agent == start.panes[j].agent
             && Lost(start, pool, standing, standing - {y}, g);
    LostByKept(start, pool, standing, standing - {y}, Some(y), h, g);
    if !OwnStands(start, standing, g) {
      assert y in (standing - {x}) * pool;
    }
    assert Owner(start, start.panes[j].agent, pool, standing - {x}, g, y);
  }

  /** If every row of the pool costs a pane its room, any may be taken. */
  lemma AllCost(start: Start, j: nat, standing: set<Key>, h: nat, x: Key)
    requires h < j < |start.panes| && DistinctPanes(start.panes) && standing <= Fallbacks(start, start.panes[j].agent)
    requires forall y :: y in standing * Pool(start, j) ==> Costs(start, j, standing, h, y)
    ensures FewEnough(start, j, standing - {x}, (standing - {x}) * Pool(start, j), h + 1, j)
  {
    var ys := (standing - {x}) * Pool(start, j);
    forall y | y in ys
      ensures HasOwner(start, j, standing - {x}, y, h + 1, j)
    {
      CostlyIsOwned(start, j, standing, h, x, y);
    }
    OwnedIsEnough(start, j, standing - {x}, ys, h + 1, j);
  }

  /** Pane h falls back with no row on it. */
  ghost predicate PicksFreely(start: Start, env: Env, tr: ScanTrace, j: nat, h: nat)
    requires h < j < |start.panes|
  {
    && Coming(start, env, tr, j, h) && start.panes[h].agent == start.panes[j].agent
    && Falls(start, At(start, tr, j, h), h) && !HasHome(start, At(start, tr, j, h), h)
  }

  /** Then just the row it keeps is gone. */
  lemma OnlyKeptGoes(start: Start, env: Env, tr: ScanTrace, j: nat, h: nat, x: Key)
    requires h < j < |start.panes| && PicksFreely(start, env, tr, j, h)
    requires tr.kept[h] == Some(x) && x in At(start, tr, j, h)
    ensures At(start, tr, j, h + 1) == At(start, tr, j, h) - {x}
  {
    var standing := At(start, tr, j, h);
    KeptIsGone(start, env, tr, h);
    LeftShrinks(start, start, env, tr, start.panes[j].agent, h);
    forall q | q in standing && start.rows[q].liveness.Alive? && start.rows[q].paneId == start.panes[h].paneId
      ensures false
    {
      assert PidlessBound(tr.states[h].rows, tr.claims[h], start.panes[h], q);
      BoundIsHome(start, env, tr, h, q);
    }
  }

  /** Some pane behind would retire the thread's row. */
  ghost predicate DeadlineBehind(start: Start, standing: set<Key>, j: nat, h: nat)
    requires j < |start.panes|
  {
    exists f :: h < f < j && Deadline(start, standing, j, f)
  }

  /** Nothing of the pool stands: whatever the pane keeps. */
  lemma EmptyTurn(start: Start, env: Env, tr: ScanTrace, j: nat, h: nat)
    requires h < j < |start.panes| && PicksFreely(start, env, tr, j, h) && At(start, tr, j, h) * Pool(start, j) == {}
    requires KeyOf(start, j) in Fallbacks(start, start.panes[j].agent)
    ensures Coming(start, env, tr, j, h + 1)
  {
    LeftShrinks(start, start, env, tr, start.panes[j].agent, h);
    EmptyIsEnough(start, tr, j, h);
    EmptyIsClaimed(start, tr, j, h);
    ClaimsGrow(start.panes, tr, h, h + 1);
  }

  lemma EmptyIsEnough(start: Start, tr: ScanTrace, j: nat, h: nat)
    requires h < j < |start.panes| && At(start, tr, j, h) * Pool(start, j) == {}
    requires At(start, tr, j, h + 1) <= At(start, tr, j, h)
    ensures Enough(start, tr, j, h + 1)
  {
    assert At(start, tr, j, h + 1) * Pool(start, j) <= At(start, tr, j, h) * Pool(start, j);
  }

  lemma EmptyIsClaimed(start: Start, tr: ScanTrace, j: nat, h: nat)
    requires h <= j < |start.panes| < |tr.claims| && InTime(start, tr, j, h)
    requires KeyOf(start, j) in Fallbacks(start, start.panes[j].agent) && At(start, tr, j, h) * Pool(start, j) == {}
    ensures KeyOf(start, j) in tr.claims[h]
  {
    assert KeyOf(start, j) !in At(start, tr, j, h) * Pool(start, j);
  }

  /** It keeps row x of the pool, which costs no other its room, and which is the thread's if a
      pane behind would retire that. */
  lemma FreeTurn(start: Start, env: Env, tr: ScanTrace, j: nat, h: nat, x: Key)
    requires h < j < |start.panes| && PicksFreely(start, env, tr, j, h)
    requires tr.kept[h] == Some(x) && x in At(start, tr, j, h) * Pool(start, j)
    requires !Costs(start, j, At(start, tr, j, h), h, x)
             || forall y :: y in At(start, tr, j, h) * Pool(start, j) ==> Costs(start, j, At(start, tr, j, h), h, y)
    requires KeyOf(start, j) in At(start, tr, j, h) && DeadlineBehind(start, At(start, tr, j, h), j, h) ==>
               x == KeyOf(start, j)
    ensures Coming(start, env, tr, j, h + 1)
  {
    var standing := At(start, tr, j, h);
    OnlyKeptGoes(start, env, tr, j, h, x);
    if Costs(start, j, standing, h, x) {
      AllCost(start, j, standing, h, x);
      assert Enough(start, tr, j, h + 1);
    } else {
      assert NoneLost(start, tr, j, h);
      EnoughAfter(start, env, tr, j, h);
    }
    InTimeAfter(start, env, tr, j, h);
  }

  /** The thread's row costs no pane its room if a pane behind would retire it. */
  lemma ThreadsCostsNone(start: Start, j: nat, standing: set<Key>, h: nat)
    requires h < j < |start.panes| && DistinctPanes(start.panes) && DistinctThreads(start.panes)
    requires standing <= Fallbacks(start, start.panes[j].agent) && DeadlineBehind(start, standing, j, h)
    ensures !Costs(start, j, standing, h, KeyOf(start, j))
  {
    var k := KeyOf(start, j);
    if Costs(start, j, standing, h, k) {
      var g :| h < g < j && start.panes[g].agent == start.panes[j].agent
               && Lost(start, Pool(start, j), standing, standing - {k}, g);
      var f :| h < f < j && Deadline(start, standing, j, f);
      LostByKept(start, Pool(start, j), standing, standing - {k}, Some(k), h, g);
      DeadlineKeepsRoom(start, j, standing, f, g);
      assert false;
    }
  }

  /** A pane that may take the thread's row from itself would not retire it. */
  lemma DeadlineKeepsRoom(start: Start, j: nat, standing: set<Key>, f: nat, g: nat)
    requires f < j < |start.panes| && g < j && DistinctPanes(start.panes) && DistinctThreads(start.panes)
    requires start.panes[g].agent == start.panes[j].agent && Deadline(start, standing, j, f)
    requires MayTake(start, Pool(start, j), standing, g)
    ensures if OwnStands(start, standing, g) then KeyOf(start, j) != KeyOf(start, g)
            else !HomeRow(start, g, KeyOf(start, j))
  {
    if OwnStands(start, standing, g) && KeyOf(start, j) == KeyOf(start, g) {
      OwnedOnce(start, KeyOf(start, j), g, j);
    }
  }

  /** The thread's row where a pane behind would retire it, else a row that costs no other pane
      its room, else any. */
  lemma PickRow(start: Start, j: nat, standing: set<Key>, h: nat) returns (x: Key)
    requires h < j < |start.panes| && DistinctPanes(start.panes) && DistinctThreads(start.panes)
    requires standing <= Fallbacks(start, start.panes[j].agent) && standing * Pool(start, j) != {}
    ensures x in standing * Pool(start, j)
    ensures !Costs(start, j, standing, h, x)
            || forall y :: y in standing * Pool(start, j) ==> Costs(start, j, standing, h, y)
    ensures KeyOf(start, j) in standing && DeadlineBehind(start, standing, j, h) ==> x == KeyOf(start, j)
  {
    if KeyOf(start, j) in standing && DeadlineBehind(start, standing, j, h) {
      x := KeyOf(start, j);
      ThreadsCostsNone(start, j, standing, h);
    } else if y :| y in standing * Pool(start, j) && !Costs(start, j, standing, h, y) {
      x := y;
    } else {
      x :| x in standing * Pool(start, j);
    }
  }

  /** Another order of the same scan's step 2. */
  ghost predicate Reordered(start: Start, env: Env, tr: ScanTrace, tr': ScanTrace) {
    Calm(start, env, tr) && Calm(start, env, tr') && tr'.excused == tr.excused && tr'.states[0] == tr.states[0]
  }

  lemma HomesNext(start: Start, env: Env, tr: ScanTrace, j: nat, h: nat) returns (tr': ScanTrace)
    requires h < j < |start.panes| && Coming(start, env, tr, j, h) && start.panes[h].agent == start.panes[j].agent
    requires Falls(start, At(start, tr, j, h), h) && HasHome(start, At(start, tr, j, h), h)
    ensures Coming(start, env, tr', j, h + 1) && Reordered(start, env, tr, tr')
  {
    var standing, k := At(start, tr, j, h), KeyOf(start, j);
    var r := if k in standing && HomeRow(start, h, k) then k
             else var q :| q in standing && HomeRow(start, h, q); q;
    HomeMayBeKept(start, env, tr, h, r);
    tr' := Rechoose(start, env, tr, h, r);
    StillComing(start, env, tr, tr', j, h);
    HomeTurn(start, env, tr', j, h);
  }

  lemma FreeNext(start: Start, env: Env, tr: ScanTrace, j: nat, h: nat) returns (tr': ScanTrace)
    requires h < j < |start.panes| && PicksFreely(start, env, tr, j, h)
    requires KeyOf(start, j) in Fallbacks(start, start.panes[j].agent)
    ensures Coming(start, env, tr', j, h + 1) && Reordered(start, env, tr, tr')
  {
    var standing := At(start, tr, j, h);
    if standing * Pool(start, j) == {} {
      EmptyTurn(start, env, tr, j, h);
      tr' := tr;
    } else {
      var x := PickRow(start, j, standing, h);
      AnyMayBeKept(start, env, tr, h, x);
      tr' := Rechoose(start, env, tr, h, x);
      StillComing(start, env, tr, tr', j, h);
      FreeTurn(start, env, tr', j, h, x);
    }
  }

  lemma NextTurn(start: Start, env: Env, tr: ScanTrace, j: nat, h: nat) returns (tr': ScanTrace)
    requires h < j < |start.panes| && Coming(start, env, tr, j, h)
    requires KeyOf(start, j) in Fallbacks(start, start.panes[j].agent)
    ensures Coming(start, env, tr', j, h + 1) && Reordered(start, env, tr, tr')
  {
    tr' := tr;
    if start.panes[h].agent != start.panes[j].agent {
      OthersTurn(start, env, tr, j, h);
    } else if !Falls(start, At(start, tr, j, h), h) {
      OwnTurn(start, env, tr, j, h);
    } else if HasHome(start, At(start, tr, j, h), h) {
      tr' := HomesNext(start, env, tr, j, h);
    } else {
      tr' := FreeNext(start, env, tr, j, h);
    }
  }

  /** Some order keeps the loss coming up to turn h. */
  ghost predicate SomeComing(start: Start, env: Env, tr: ScanTrace, j: nat, h: nat)
    requires h <= j < |start.panes|
  {
    exists tr' :: Coming(start, env, tr', j, h) && Reordered(start, env, tr, tr')
  }

  lemma SomeNext(start: Start, env: Env, tr: ScanTrace, j: nat, h: nat)
    requires h < j < |start.panes| && SomeComing(start, env, tr, j, h)
    requires KeyOf(start, j) in Fallbacks(start, start.panes[j].agent)
    ensures SomeComing(start, env, tr, j, h + 1)
  {
    var tr' :| Coming(start, env, tr', j, h) && Reordered(start, env, tr, tr');
    var next := NextTurn(start, env, tr', j, h);
    assert Coming(start, env, next, j, h + 1) && Reordered(start, env, tr, next);
  }

  // ----- where it ends -----

  lemma {:induction false} ClaimedWasKept(start: Start, env: Env, tr: ScanTrace, n: nat, k: Key) returns (i: nat)
    requires Traced(start, env, tr) && n <= |start.panes| && k in tr.claims[n]
    ensures i < n && tr.kept[i] == Some(k)
  {
    var h := n - 1;
    assert StepShape(tr.states[h].rows, tr.claims[h], start.panes[h], tr.states[n].rows, tr.claims[n], tr.kept[h]);
    if k in tr.claims[h] {
      i := ClaimedWasKept(start, env, tr, h, k);
    } else {
      i := h;
    }
  }

  /** At its own turn the thread's pane finds its row taken and nothing else to claim. */
  lemma NothingIsLeft(start: Start, env: Env, tr: ScanTrace, j: nat)
    requires j < |start.panes| && Coming(start, env, tr, j, j) && !start.Sure(j)
    requires KeyOf(start, j) in Fallbacks(start, start.panes[j].agent)
    ensures KeyOf(start, j) in tr.claims[j]
    ensures forall q :: !PidMatch(tr.states[j].rows, tr.claims[j], start.panes[j], q)
    ensures forall q :: !PidlessMatch(tr.states[j].rows, tr.claims[j], start.panes[j], q)
  {
    var rows, claimed, pa := tr.states[j].rows, tr.claims[j], start.panes[j];
    assert At(start, tr, j, j) * Pool(start, j) == {};
    EmptyIsClaimed(start, tr, j, j);
    forall q
      ensures !PidMatch(rows, claimed, pa, q)
    {
      if PidMatch(rows, claimed, pa, q) {
        PidMatchIsSure(start, env, tr, j, q);
        SureOfPidIsMatched(start, j);
        assert false;
      }
    }
    forall q
      ensures !PidlessMatch(rows, claimed, pa, q)
    {
      if PidlessMatch(rows, claimed, pa, q) {
        LeftIsPooled(start, env, tr, j, q);
        assert false;
      }
    }
  }

  /** What a pane can fall back on belongs to its pool. */
  lemma LeftIsPooled(start: Start, env: Env, tr: ScanTrace, j: nat, q: Key)
    requires Traced(start, env, tr) && j < |start.panes|
    requires PidlessMatch(tr.states[j].rows, tr.claims[j], start.panes[j], q)
    ensures q in At(start, tr, j, j) * Pool(start, j)
  {
    FallbackIsLeft(start, env, tr, j, q);
    if OnScannedPane(start, start.rows[q], j) {
      var e :| 0 <= e < j && start.panes[e].agent == start.rows[q].agent && start.rows[q].liveness.Alive?
               && start.rows[q].paneId == start.panes[e].paneId;
      NotPassedOver(start, start, env, tr, e, j, q);
      assert false;
    }
  }

  lemma LossHasCome(start: Start, env: Env, tr: ScanTrace, j: nat) returns (i: nat)
    requires j < |start.panes| && Coming(start, env, tr, j, j) && !start.Sure(j) && start.PidlessThread(j)
    requires KeyOf(start, j) in Fallbacks(start, start.panes[j].agent)
    ensures i < j && tr.kept[i] == tr.kept[j] == Some(KeyOf(start, j))
  {
    NothingIsLeft(start, env, tr, j);
    CalmKeeps(start, env, tr, j);
    MintsOver(start, env, tr, j, KeyOf(start, j));
    i := ClaimedWasKept(start, env, tr, j, KeyOf(start, j));
  }

  // ----- where it begins -----

  /** A pid-less row on no pane in front, of no thread in front, is left alone by panes that
      are sure of a row. */
  lemma FreeBehindSure(start: Start, h: nat, r: Key)
    requires h < |start.panes| && WellKeyed(start.rows) && NoStrays(start)
    requires CanFallBack(start.rows, r) && start.rows[r].agent == start.panes[h].agent
    requires !OnScannedPane(start, start.rows[r], h)
    requires forall e :: 0 <= e < h && start.panes[e].agent == start.panes[h].agent ==>
               start.Sure(e) && r != KeyOf(start, e)
    ensures start.Free(r, h)
  {
    forall e | 0 <= e < h
      ensures start.Spares(e, r)
    {
      assert !Stray(start, e);
      assert start.panes[e].agent == r.agent && start.rows[r].paneId == start.panes[e].paneId ==>
          PidlessBound(start.rows, {}, start.panes[e], r);
    }
  }

  lemma OwnIsThreads(start: Start, h: nat)
    requires h < |start.panes| && WellKeyed(start.rows) && NoStrays(start) && DistinctThreads(start.panes)
    requires OwnStands(start, Fallbacks(start, start.panes[h].agent), h)
    requires forall e :: 0 <= e < h && start.panes[e].agent == start.panes[h].agent ==> start.Sure(e)
    ensures start.Matched(h)
  {
    FreeBehindSure(start, h, KeyOf(start, h));
  }

  /** A pane before which none picks is sure of a row. */
  lemma {:induction false} SureUnlessPicks(start: Start, j: nat, h: nat)
    requires h < |start.panes| && j < |start.panes| && WellKeyed(start.rows) && NoStrays(start)
    requires DistinctThreads(start.panes) && DistinctPanes(start.panes)
    requires start.panes[h].agent == start.panes[j].agent
    requires forall g :: 0 <= g <= h ==> !Picks(start, j, g)
    ensures start.Sure(h)
    decreases h
  {
    forall e | 0 <= e < h && start.panes[e].agent == start.panes[h].agent
      ensures start.Sure(e)
    {
      SureUnlessPicks(start, j, e);
    }
    assert !Picks(start, j, h);
    if OwnStands(start, Fallbacks(start, start.panes[h].agent), h) {
      OwnIsThreads(start, h);
    } else if !start.SureOfPid(h) {
      var r :| r in Fallbacks(start, start.panes[h].agent) && HomeRow(start, h, r);
      FreeBehindSure(start, h, r);
      assert PidlessBound(start.rows, {}, start.panes[h], r);
    }
  }

  /** Before a pane that would retire the crossed row some pane picks. */
  lemma SomePanePicks(start: Start, i: nat, j: nat, f: nat)
    requires WellKeyed(start.rows) && NoStrays(start) && DistinctThreads(start.panes) && DistinctPanes(start.panes)
    requires CrossedFallback(start, start.rows, i, j) && f < j
    requires Deadline(start, Fallbacks(start, start.panes[j].agent), j, f)
    ensures exists g :: 0 <= g < f && Picks(start, j, g)
  {
    if forall g :: 0 <= g < f ==> !Picks(start, j, g) {
      forall e | 0 <= e < f && start.panes[e].agent == start.panes[j].agent
        ensures start.Sure(e)
      {
        SureUnlessPicks(start, j, e);
      }
      assert i == f;
      if OwnStands(start, Fallbacks(start, start.panes[j].agent), f) {
        OwnIsThreads(start, f);
      } else {
        SureOfPidIsMatched(start, f);
      }
      assert false;
    }
  }

  lemma CrossedIsEnough(start: Start, env: Env, tr: ScanTrace, i: nat, j: nat)
    requires Calm(start, env, tr) && CrossedFallback(start, start.rows, i, j)
    ensures At(start, tr, j, 0) == Fallbacks(start, start.panes[j].agent) && Enough(start, tr, j, 0)
  {
    StepOf(start, env, tr, 0);
    forall q | q in Fallbacks(start, start.panes[j].agent)
      ensures Stands(start, tr, q, 0)
    {
    }
    assert Fallbacks(start, start.panes[j].agent) * Pool(start, j) == Pool(start, j);
  }

  lemma CrossedIsComing(start: Start, env: Env, tr: ScanTrace, i: nat, j: nat)
    requires Calm(start, env, tr) && NoStrays(start) && CrossedFallback(start, start.rows, i, j)
    ensures KeyOf(start, j) in Fallbacks(start, start.panes[j].agent) && SomeComing(start, env, tr, j, 0)
  {
    StepOf(start, env, tr, 0);
    CrossedIsEnough(start, env, tr, i, j);
    var standing := Fallbacks(start, start.panes[j].agent);
    forall f | 0 <= f < j && Deadline(start, standing, j, f)
      ensures exists g :: 0 <= g < f && Picks(start, j, g)
    {
      SomePanePicks(start, i, j, f);
    }
    assert TimeLeft(start, standing, j, 0);
    assert Coming(start, env, tr, j, 0) && Reordered(start, env, tr, tr);
  }

  /** A crossed fallback costs some pane its row in some order of the same scan. */
  lemma SomeOrderLoses(start: Start, env: Env, tr: ScanTrace, i: nat, j: nat) returns (tr': ScanTrace, h: nat)
    requires Calm(start, env, tr) && NoStrays(start) && CrossedFallback(start, start.rows, i, j)
    ensures Reordered(start, env, tr, tr') && h < j
    ensures tr'.kept[h] == tr'.kept[j] == Some(KeyOf(start, j))
  {
    CrossedIsComing(start, env, tr, i, j);
    var coming := (n: nat) => n <= j && SomeComing(start, env, tr, j, n);
    forall n: nat | n < j && coming(n)
      ensures coming(n + 1)
    {
      SomeNext(start, env, tr, j, n);
    }
    AfterSteps(coming, j);
    tr' :| Coming(start, env, tr', j, j) && Reordered(start, env, tr, tr');
    h := LossHasCome(start, env, tr', j);
  }
}
