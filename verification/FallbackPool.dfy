/** The pid-less rows the panes of one agent fall back on, as a pool of which each pane takes
    at most one, and how many panes may take one whatever the map order. */
module FallbackPool {
  import opened Wrappers
  import opened AgentModel
  import opened TrackerSpec
  import opened TrackerInvariants
  import opened ScanOwnership
  import opened OwnRows

  function KeyOf(start: Start, g: nat): Key
    requires g < |start.panes|
  {
    Thread(start.panes[g].agent, start.panes[g].threadId)
  }

  /** Some pane of the agent before j would retire the row from its pane. */
  ghost predicate OnScannedPane(start: Start, r: Row, j: nat)
    requires j <= |start.panes|
  {
    exists h :: 0 <= h < j && start.panes[h].agent == r.agent && r.liveness.Alive? && r.paneId == start.panes[h].paneId
  }

  ghost function Fallbacks(start: Start, agent: string): set<Key> {
    set q | q in start.rows && CanFallBack(start.rows, q) && start.rows[q].agent == agent
  }

  /** The agent's pid-less rows that panes before j can claim but not retire, and the row of
      pane j's own thread wherever it is. */
  ghost function Pool(start: Start, j: nat): set<Key>
    requires j < |start.panes|
  {
    set q | q in Fallbacks(start, start.panes[j].agent)
            && (q == KeyOf(start, j) || !OnScannedPane(start, start.rows[q], j))
  }

  // ----- which panes may take a row of the pool -----

  /** The row of pane g's thread stands and no pane in front retires it from its pane. */
  ghost predicate OwnStands(start: Start, standing: set<Key>, g: nat)
    requires g < |start.panes|
  {
    && start.PidlessThread(g) && KeyOf(start, g) in standing
    && !OnScannedPane(start, start.rows[KeyOf(start, g)], g)
  }

  /** The pid-less row is alive on pane g and of no thread of a pane in front. */
  ghost predicate HomeRow(start: Start, g: nat, r: Key)
    requires g < |start.panes|
  {
    && CanFallBack(start.rows, r) && start.rows[r].agent == start.panes[g].agent
    && start.rows[r].liveness.Alive? && start.rows[r].paneId == start.panes[g].paneId
    && forall e :: 0 <= e < g && start.panes[e].agent == start.panes[g].agent ==> r != KeyOf(start, e)
  }

  ghost predicate HasHome(start: Start, standing: set<Key>, g: nat)
    requires g < |start.panes|
  {
    exists r :: r in standing && HomeRow(start, g, r)
  }

  /** A pid-less row carries the pane's id without being alive. */
  ghost predicate Stray(start: Start, g: nat)
    requires g < |start.panes|
  {
    exists q :: PidlessBound(start.rows, {}, start.panes[g], q) && !start.rows[q].liveness.Alive?
  }

  /** A pid-less row that carries a scanned pane's id is alive. */
  ghost predicate NoStrays(start: Start) {
    forall g :: 0 <= g < |start.panes| ==> !Stray(start, g)
  }

  /** While these rows stand pane g may take one of the pool: the row of its own thread, or,
      when that is gone and no row with a pid is there for it, any, but the rows on it come
      first. */
  ghost predicate MayTake(start: Start, pool: set<Key>, standing: set<Key>, g: nat)
    requires g < |start.panes|
  {
    if OwnStands(start, standing, g) then KeyOf(start, g) in pool
    else
      && !start.SureOfPid(g)
      && (HasHome(start, standing, g) && !Stray(start, g) ==> HasHome(start, standing * pool, g))
  }

  /** How many of the agent's panes from h to n may take a row of the pool. */
  ghost function Room(start: Start, agent: string, pool: set<Key>, standing: set<Key>, h: nat, n: nat): nat
    requires n <= |start.panes|
  {
    if n <= h then 0
    else
      Room(start, agent, pool, standing, h, n - 1)
      + if start.panes[n - 1].agent == agent && MayTake(start, pool, standing, n - 1) then 1 else 0
  }

  /** How many panes in front of pane j may take a row of its pool. */
  ghost function Takers(start: Start, j: nat): nat
    requires j < |start.panes|
  {
    var agent := start.panes[j].agent;
    Room(start, agent, Pool(start, j), Fallbacks(start, agent), 0, j)
  }

  lemma {:induction false} RoomFirst(start: Start, agent: string, pool: set<Key>, standing: set<Key>, h: nat, n: nat)
    requires h < n <= |start.panes|
    ensures Room(start, agent, pool, standing, h, n) ==
            Room(start, agent, pool, standing, h + 1, n)
            + if start.panes[h].agent == agent && MayTake(start, pool, standing, h) then 1 else 0
  {
    if h + 1 < n {
      RoomFirst(start, agent, pool, standing, h, n - 1);
    }
  }

  // ----- what a pane's turn does to the others' room -----

  /** After pane h's turn these rows stand: all but the one it kept and rows on it. */
  ghost predicate Shrunk(start: Start, standing: set<Key>, standing': set<Key>, kept: Option<Key>, h: nat)
    requires h < |start.panes|
  {
    && standing' <= standing
    && forall q :: q in standing && q !in standing' ==>
         && q in start.rows
         && (kept == Some(q) || (start.rows[q].liveness.Alive? && start.rows[q].paneId == start.panes[h].paneId
                                 && start.rows[q].agent == start.panes[h].agent))
  }

  /** Pane g may take a row of the pool only since pane h's turn. */
  ghost predicate Freed(start: Start, pool: set<Key>, standing: set<Key>, standing': set<Key>, g: nat)
    requires g < |start.panes|
  {
    MayTake(start, pool, standing', g) && !MayTake(start, pool, standing, g)
  }

  /** Then pane h kept a row outside the pool that was pane g's own or on it. */
  lemma FreedByKept(start: Start, pool: set<Key>, standing: set<Key>, standing': set<Key>, kept: Option<Key>,
                    h: nat, g: nat)
    requires h < g < |start.panes| && DistinctPanes(start.panes) && Shrunk(start, standing, standing', kept, h)
    requires Freed(start, pool, standing, standing', g)
    ensures kept.Some? && kept.value in standing && kept.value !in pool
    ensures
      || (start.PidlessThread(g) && kept.value == KeyOf(start, g)
          && !OnScannedPane(start, start.rows[KeyOf(start, g)], g))
      || HomeRow(start, g, kept.value)
  {
    if OwnStands(start, standing, g) {
      assert KeyOf(start, g) !in standing';
    } else {
      var r :| r in standing && HomeRow(start, g, r);
      assert r in pool ==> r in standing * pool;
      assert r !in standing';
    }
  }

  /** A turn frees at most one pane behind it. */
  lemma OneIsFreed(start: Start, pool: set<Key>, standing: set<Key>, standing': set<Key>, kept: Option<Key>,
                   h: nat, g: nat, g': nat)
    requires h < g < g' < |start.panes| && DistinctPanes(start.panes) && DistinctThreads(start.panes)
    requires Shrunk(start, standing, standing', kept, h) && start.panes[g].agent == start.panes[g'].agent
    requires Freed(start, pool, standing, standing', g)
    ensures !Freed(start, pool, standing, standing', g')
  {
    if Freed(start, pool, standing, standing', g') {
      FreedByKept(start, pool, standing, standing', kept, h, g);
      FreedByKept(start, pool, standing, standing', kept, h, g');
      assert false;
    }
  }

  lemma {:induction false} RoomRises(start: Start, agent: string, pool: set<Key>, standing: set<Key>,
                                     standing': set<Key>, kept: Option<Key>, h: nat, a: nat, n: nat)
    requires h < a && n <= |start.panes| && DistinctPanes(start.panes) && DistinctThreads(start.panes)
    requires h < |start.panes| && Shrunk(start, standing, standing', kept, h)
    ensures Room(start, agent, pool, standing', a, n) <= Room(start, agent, pool, standing, a, n) + 1
    ensures (forall g :: a <= g < n && start.panes[g].agent == agent ==>
               !Freed(start, pool, standing, standing', g)) ==>
              Room(start, agent, pool, standing', a, n) <= Room(start, agent, pool, standing, a, n)
  {
    if a < n {
      RoomRises(start, agent, pool, standing, standing', kept, h, a, n - 1);
      if start.panes[n - 1].agent == agent && Freed(start, pool, standing, standing', n - 1) {
        forall g | a <= g < n - 1 && start.panes[g].agent == agent
          ensures !Freed(start, pool, standing, standing', g)
        {
          if Freed(start, pool, standing, standing', g) {
            OneIsFreed(start, pool, standing, standing', kept, h, g, n - 1);
          }
        }
      }
    }
  }

  // ----- a whole scan -----

  /** The agent's pid-less rows that stand at pane n's turn, of those sure to be there. */
  ghost function Left(sure: Start, start: Start, tr: ScanTrace, agent: string, n: nat): set<Key> {
    set q | q in Fallbacks(sure, agent) && Stands(start, tr, q, n)
  }

  /** A pid-less row that stands was neither retired from its pane nor its thread's pane's to
      claim before. */
  lemma NotPassedOver(sure: Start, start: Start, env: Env, tr: ScanTrace, e: nat, h: nat, q: Key)
    requires Traced(start, env, tr) && Within(sure, start) && e < h < |start.panes|
    requires start.panes[e].agent == start.panes[h].agent && q in Left(sure, start, tr, start.panes[h].agent, h)
    ensures !(start.rows[q].liveness.Alive? && start.rows[q].paneId == start.panes[e].paneId)
    ensures q != KeyOf(start, e)
  {
    assert PidlessMatch(tr.states[h].rows, tr.claims[h], start.panes[h], q);
    StandingWasNotRetired(start, env, tr, e, h, q);
    FallbackPersists(start.panes, tr, h, q);
    assert Stands(start, tr, q, e) && Stands(start, tr, q, e + 1);
    assert PidlessMatch(tr.states[e].rows, tr.claims[e], start.panes[e], q);
    FallbackIsKept(start, env, tr, e, q);
    PassedIsNotRetired(start, env, tr, q, e);
  }

  lemma SureOfPidIsMatched(start: Start, h: nat)
    requires h < |start.panes| && start.SureOfPid(h)
    ensures start.Matched(h)
  {
    var r :| (ThreadMatch(start.rows, {}, start.panes[h], r) || PidMatch(start.rows, {}, start.panes[h], r))
             && start.rows[r].pid != 0 && start.Free(r, h);
  }

  lemma SureOfPidMatches(start: Start, env: Env, tr: ScanTrace, h: nat)
    requires Traced(start, env, tr) && h < |start.panes| && start.SureOfPid(h)
    ensures HasMatch(tr.states[h].rows, tr.claims[h], start.panes[h])
  {
    SureOfPidIsMatched(start, h);
    MatchedAtTurn(start, env, tr, h);
  }

  /** What a standing row that a pane keeps is claimed as. */
  lemma KeptIsClaimable(sure: Start, start: Start, env: Env, tr: ScanTrace, h: nat, x: Key)
    requires Traced(start, env, tr) && Within(sure, start) && h < |start.panes| && tr.kept[h] == Some(x)
    requires x in Left(sure, start, tr, start.panes[h].agent, h)
    ensures MayClaim(tr.states[h].rows, tr.claims[h], start.panes[h], x)
    ensures x == KeyOf(start, h) || PidlessMatch(tr.states[h].rows, tr.claims[h], start.panes[h], x)
    ensures x == KeyOf(start, h) || !HasMatch(tr.states[h].rows, tr.claims[h], start.panes[h])
  {
    var rows, claimed, pa := tr.states[h].rows, tr.claims[h], start.panes[h];
    StepOf(start, env, tr, h);
    assert PidlessMatch(rows, claimed, pa, x);
    SomeClaim(rows, claimed, pa, x);
    assert x != KeyOf(start, h) ==> !ThreadMatch(rows, claimed, pa, x) && !PidMatch(rows, claimed, pa, x);
  }

  /** Only a pane that may take one does: a row of the pool, or, when it is neither its own nor
      on it, any. */
  lemma TakerMayTake(sure: Start, start: Start, env: Env, tr: ScanTrace, j: nat, h: nat, x: Key)
    requires Traced(start, env, tr) && Within(sure, start) && h < j < |start.panes| && tr.kept[h] == Some(x)
    requires start.panes[h].agent == start.panes[j].agent
    requires x in Left(sure, start, tr, start.panes[h].agent, h)
    requires x in Pool(sure, j) || (x != KeyOf(sure, h) && !PidlessBound(sure.rows, {}, sure.panes[h], x))
    ensures MayTake(sure, Pool(sure, j), Left(sure, start, tr, start.panes[h].agent, h), h)
  {
    var standing := Left(sure, start, tr, start.panes[h].agent, h);
    KeptIsClaimable(sure, start, env, tr, h, x);
    if x == KeyOf(start, h) {
      OwnIsStanding(sure, start, env, tr, h);
    } else {
      FallbackMayTake(sure, start, env, tr, j, h, x);
    }
  }

  lemma OwnIsStanding(sure: Start, start: Start, env: Env, tr: ScanTrace, h: nat)
    requires Traced(start, env, tr) && Within(sure, start) && h < |start.panes|
    requires KeyOf(start, h) in Left(sure, start, tr, start.panes[h].agent, h)
    ensures OwnStands(sure, Left(sure, start, tr, start.panes[h].agent, h), h)
  {
    StepOf(start, env, tr, h);
    var k := KeyOf(start, h);
    if OnScannedPane(sure, sure.rows[k], h) {
      var e :| 0 <= e < h && sure.panes[e].agent == sure.rows[k].agent && sure.rows[k].liveness.Alive?
               && sure.rows[k].paneId == sure.panes[e].paneId;
      NotPassedOver(sure, start, env, tr, e, h, k);
      assert false;
    }
  }

  lemma FallbackMayTake(sure: Start, start: Start, env: Env, tr: ScanTrace, j: nat, h: nat, x: Key)
    requires Traced(start, env, tr) && Within(sure, start) && h < j < |start.panes| && tr.kept[h] == Some(x)
    requires start.panes[h].agent == start.panes[j].agent
    requires x in Left(sure, start, tr, start.panes[h].agent, h) && x != KeyOf(sure, h)
    requires x in Pool(sure, j) || !PidlessBound(sure.rows, {}, sure.panes[h], x)
    ensures MayTake(sure, Pool(sure, j), Left(sure, start, tr, start.panes[h].agent, h), h)
  {
    var standing := Left(sure, start, tr, start.panes[h].agent, h);
    KeptIsClaimable(sure, start, env, tr, h, x);
    if sure.SureOfPid(h) {
      SettledWithin(sure, start, h);
      SureOfPidMatches(start, env, tr, h);
    }
    if OwnStands(sure, standing, h) {
      assert ThreadMatch(tr.states[h].rows, tr.claims[h], start.panes[h], KeyOf(start, h));
    }
    if HasHome(sure, standing, h) && !Stray(sure, h) {
      HomeIsKept(sure, start, env, tr, h, x);
      assert x in standing * Pool(sure, j) && HomeRow(sure, h, x);
    }
  }

  /** A pane that falls back while a row on it stands keeps a row on it. */
  lemma HomeIsKept(sure: Start, start: Start, env: Env, tr: ScanTrace, h: nat, x: Key)
    requires Traced(start, env, tr) && Within(sure, start) && h < |start.panes| && tr.kept[h] == Some(x)
    requires x in Left(sure, start, tr, start.panes[h].agent, h) && x != KeyOf(start, h)
    requires HasHome(sure, Left(sure, start, tr, start.panes[h].agent, h), h) && !Stray(sure, h)
    ensures HomeRow(sure, h, x) && PidlessBound(sure.rows, {}, sure.panes[h], x)
  {
    var rows, claimed, pa := tr.states[h].rows, tr.claims[h], start.panes[h];
    KeptIsClaimable(sure, start, env, tr, h, x);
    var r :| r in Left(sure, start, tr, pa.agent, h) && HomeRow(sure, h, r);
    assert PidlessBound(rows, claimed, pa, r);
    assert PidlessBound(rows, claimed, pa, x);
    assert PidlessBound(sure.rows, {}, pa, x);
    forall e | 0 <= e < h && sure.panes[e].agent == pa.agent
      ensures x != KeyOf(sure, e)
    {
      NotPassedOver(sure, start, env, tr, e, h, x);
    }
  }

  /** If the row of pane j's thread is on a pane before j, a pane took it in a fallback. */
  ghost predicate ThreadRowIsTaken(sure: Start, start: Start, tr: ScanTrace, j: nat)
    requires j < |sure.panes| <= |start.panes| <= |tr.kept| && |tr.states| == |tr.claims| > |start.panes|
  {
    var k := KeyOf(sure, j);
    CanFallBack(sure.rows, k) && OnScannedPane(sure, sure.rows[k], j) ==>
      exists i :: 0 <= i < j && tr.kept[i] == Some(k)
                  && PidlessMatch(tr.states[i].rows, tr.claims[i], start.panes[i], k)
                  && MayClaim(tr.states[i].rows, tr.claims[i], start.panes[i], k)
  }

  /** A row that a pane is going to take in a fallback stands until then. */
  lemma StandsUntilTaken(start: Start, env: Env, tr: ScanTrace, h: nat, i: nat, q: Key)
    requires Traced(start, env, tr) && h < |start.panes| && i < |start.panes|
    requires tr.kept[i] == Some(q) != tr.kept[h] && Stands(start, tr, q, h)
    requires PidlessMatch(tr.states[i].rows, tr.claims[i], start.panes[i], q)
    requires MayClaim(tr.states[i].rows, tr.claims[i], start.panes[i], q)
    ensures Stands(start, tr, q, h + 1)
  {
    if i < h {
      TakenIsClaimed(start, env, tr, i, q);
      ClaimsGrow(start.panes, tr, i + 1, h);
    } else {
      FallbackPersists(start.panes, tr, i, q);
    }
  }

  lemma TakenIsClaimed(start: Start, env: Env, tr: ScanTrace, i: nat, q: Key)
    requires Traced(start, env, tr) && i < |start.panes| && tr.kept[i] == Some(q)
    requires MayClaim(tr.states[i].rows, tr.claims[i], start.panes[i], q)
    ensures q in tr.claims[i + 1]
  {
    StepOf(start, env, tr, i);
  }

  /** A row of the pool that stands is gone after a turn only if the pane kept it. */
  lemma PoolStands(sure: Start, start: Start, env: Env, tr: ScanTrace, j: nat, h: nat, q: Key)
    requires Traced(start, env, tr) && Within(sure, start) && h < j < |start.panes|
    requires ThreadRowIsTaken(sure, start, tr, j) && tr.kept[h] != Some(q)
    requires q in Pool(sure, j) && q in Left(sure, start, tr, start.panes[j].agent, h)
    ensures q in Left(sure, start, tr, start.panes[j].agent, h + 1)
  {
    StepOf(start, env, tr, h);
    if q == KeyOf(sure, j) && OnScannedPane(sure, sure.rows[q], j) {
      var i :| 0 <= i < j && tr.kept[i] == Some(q) && PidlessMatch(tr.states[i].rows, tr.claims[i], start.panes[i], q)
               && MayClaim(tr.states[i].rows, tr.claims[i], start.panes[i], q);
      StandsUntilTaken(start, env, tr, h, i, q);
    } else {
      StepLeaves(tr.states[h], tr.claims[h], start.panes[h], env, tr.states[h + 1], tr.claims[h + 1], tr.kept[h], q);
    }
  }

  lemma StoodBefore(start: Start, tr: ScanTrace, h: nat, q: Key)
    requires Walk(start.panes, tr) && h < |start.panes|
    requires Stands(start, tr, q, h + 1) && start.rows[q].pid == 0
    ensures Stands(start, tr, q, h)
  {
    assert !MintedFor(start.panes, h + 1, q, 0);
    UnclaimedPersists(start.panes, tr, h, h + 1, q);
  }

  /** A turn only takes rows away, the kept one and those on the pane. */
  lemma LeftShrinks(sure: Start, start: Start, env: Env, tr: ScanTrace, agent: string, h: nat)
    requires Traced(start, env, tr) && Within(sure, start) && h < |start.panes|
    ensures Shrunk(sure, Left(sure, start, tr, agent, h), Left(sure, start, tr, agent, h + 1), tr.kept[h], h)
  {
    forall q | q in Left(sure, start, tr, agent, h + 1)
      ensures Stands(start, tr, q, h)
    {
      StoodBefore(start, tr, h, q);
    }
    forall q | q in Left(sure, start, tr, agent, h) && q !in Left(sure, start, tr, agent, h + 1)
               && tr.kept[h] != Some(q)
      ensures Retires(start.panes[h], start.rows[q], start.alivePids)
    {
      StepOf(start, env, tr, h);
      if !Retires(start.panes[h], start.rows[q], start.alivePids) {
        StepLeaves(tr.states[h], tr.claims[h], start.panes[h], env, tr.states[h + 1], tr.claims[h + 1], tr.kept[h], q);
        assert Stands(start, tr, q, h + 1);
      }
    }
  }

  /** No pane behind is freed when pane h keeps its own row, one on it, one of the pool, or
      none of these. */
  lemma NoneIsFreed(start: Start, pool: set<Key>, standing: set<Key>, standing': set<Key>, kept: Option<Key>,
                    h: nat, g: nat)
    requires h < g < |start.panes| && DistinctPanes(start.panes) && DistinctThreads(start.panes)
    requires Shrunk(start, standing, standing', kept, h) && start.panes[g].agent == start.panes[h].agent
    requires standing <= Fallbacks(start, start.panes[h].agent)
    requires kept.Some? && kept.value in standing && kept.value !in pool ==>
               kept.value == KeyOf(start, h)
               || (kept.value in start.rows && start.rows[kept.value].liveness.Alive?
                   && start.rows[kept.value].paneId == start.panes[h].paneId)
    ensures !Freed(start, pool, standing, standing', g)
  {
    if Freed(start, pool, standing, standing', g) {
      FreedByKept(start, pool, standing, standing', kept, h, g);
      assert false;
    }
  }

  lemma KeptPoolRow(sure: Start, start: Start, env: Env, tr: ScanTrace, j: nat, h: nat)
    requires Traced(start, env, tr) && Within(sure, start) && h < j < |start.panes|
    requires ThreadRowIsTaken(sure, start, tr, j)
    ensures
      var agent, pool := sure.panes[j].agent, Pool(sure, j);
      var before, after := Left(sure, start, tr, agent, h) * pool, Left(sure, start, tr, agent, h + 1) * pool;
      |before| <= |after| + if tr.kept[h].Some? && tr.kept[h].value in before then 1 else 0
  {
    var agent, pool := sure.panes[j].agent, Pool(sure, j);
    var before, after := Left(sure, start, tr, agent, h) * pool, Left(sure, start, tr, agent, h + 1) * pool;
    forall q | q in before && tr.kept[h] != Some(q)
      ensures q in after
    {
      PoolStands(sure, start, env, tr, j, h, q);
    }
    if tr.kept[h].Some? && tr.kept[h].value in before {
      Fewer(before, after + {tr.kept[h].value});
    } else {
      Fewer(before, after);
    }
  }

  /** What pane h kept frees none behind it, or the pane might have taken a row of the pool. */
  lemma KeptFrees(sure: Start, start: Start, env: Env, tr: ScanTrace, j: nat, h: nat)
    requires Traced(start, env, tr) && Within(sure, start) && DistinctThreads(start.panes) && h < j < |start.panes|
    requires start.panes[h].agent == start.panes[j].agent
    ensures
      var agent, pool := sure.panes[j].agent, Pool(sure, j);
      var standing, standing' := Left(sure, start, tr, agent, h), Left(sure, start, tr, agent, h + 1);
      || MayTake(sure, pool, standing, h)
      || (forall g :: h < g < j && sure.panes[g].agent == agent ==> !Freed(sure, pool, standing, standing', g))
  {
    var agent, pool := sure.panes[j].agent, Pool(sure, j);
    var standing, standing' := Left(sure, start, tr, agent, h), Left(sure, start, tr, agent, h + 1);
    LeftShrinks(sure, start, env, tr, agent, h);
    if tr.kept[h].Some? && tr.kept[h].value in standing && tr.kept[h].value !in pool
       && tr.kept[h].value != KeyOf(sure, h)
       && !PidlessBound(sure.rows, {}, sure.panes[h], tr.kept[h].value) {
      TakerMayTake(sure, start, env, tr, j, h, tr.kept[h].value);
    } else {
      forall g | h < g < j && sure.panes[g].agent == agent
        ensures !Freed(sure, pool, standing, standing', g)
      {
        NoneIsFreed(sure, pool, standing, standing', tr.kept[h], h, g);
      }
    }
  }

  /** Pane h's turn leaves the panes behind it the room there was, less its own if it took a
      row of the pool. */
  lemma RoomBehind(sure: Start, start: Start, env: Env, tr: ScanTrace, j: nat, h: nat)
    requires Traced(start, env, tr) && Within(sure, start) && DistinctThreads(start.panes) && h < j < |start.panes|
    requires start.panes[h].agent == start.panes[j].agent
    ensures
      var agent, pool := sure.panes[j].agent, Pool(sure, j);
      var standing, standing' := Left(sure, start, tr, agent, h), Left(sure, start, tr, agent, h + 1);
      Room(sure, agent, pool, standing', h + 1, j)
      + (if tr.kept[h].Some? && tr.kept[h].value in standing * pool then 1 else 0)
      <= Room(sure, agent, pool, standing, h, j)
  {
    var agent, pool := sure.panes[j].agent, Pool(sure, j);
    var standing, standing' := Left(sure, start, tr, agent, h), Left(sure, start, tr, agent, h + 1);
    LeftShrinks(sure, start, env, tr, agent, h);
    RoomFirst(sure, agent, pool, standing, h, j);
    RoomRises(sure, agent, pool, standing, standing', tr.kept[h], h, h + 1, j);
    KeptFrees(sure, start, env, tr, j, h);
    if tr.kept[h].Some? && tr.kept[h].value in standing * pool {
      PoolRowFrees(sure, start, env, tr, j, h);
    }
  }

  lemma PoolRowFrees(sure: Start, start: Start, env: Env, tr: ScanTrace, j: nat, h: nat)
    requires Traced(start, env, tr) && Within(sure, start) && DistinctThreads(start.panes) && h < j < |start.panes|
    requires start.panes[h].agent == start.panes[j].agent
    requires tr.kept[h].Some? && tr.kept[h].value in Left(sure, start, tr, sure.panes[j].agent, h) * Pool(sure, j)
    ensures
      var agent, pool := sure.panes[j].agent, Pool(sure, j);
      var standing, standing' := Left(sure, start, tr, agent, h), Left(sure, start, tr, agent, h + 1);
      && MayTake(sure, pool, standing, h)
      && forall g :: h < g < j && sure.panes[g].agent == agent ==> !Freed(sure, pool, standing, standing', g)
  {
    var agent, pool := sure.panes[j].agent, Pool(sure, j);
    var standing, standing' := Left(sure, start, tr, agent, h), Left(sure, start, tr, agent, h + 1);
    LeftShrinks(sure, start, env, tr, agent, h);
    TakerMayTake(sure, start, env, tr, j, h, tr.kept[h].value);
    forall g | h < g < j && sure.panes[g].agent == agent
      ensures !Freed(sure, pool, standing, standing', g)
    {
      NoneIsFreed(sure, pool, standing, standing', tr.kept[h], h, g);
    }
  }

  /** A pane of another agent changes nothing. */
  lemma OtherAgentsTurn(sure: Start, start: Start, env: Env, tr: ScanTrace, j: nat, h: nat)
    requires Traced(start, env, tr) && Within(sure, start) && h < j < |start.panes|
    requires start.panes[h].agent != start.panes[j].agent
    ensures
      var agent := sure.panes[j].agent;
      && Left(sure, start, tr, agent, h + 1) == Left(sure, start, tr, agent, h)
      && Room(sure, agent, Pool(sure, j), Left(sure, start, tr, agent, h), h + 1, j) ==
         Room(sure, agent, Pool(sure, j), Left(sure, start, tr, agent, h), h, j)
  {
    var agent := sure.panes[j].agent;
    LeftShrinks(sure, start, env, tr, agent, h);
    RoomFirst(sure, agent, Pool(sure, j), Left(sure, start, tr, agent, h), h, j);
    assert WellKeyed(tr.states[h].rows);
    assert StepShape(tr.states[h].rows, tr.claims[h], start.panes[h], tr.states[h + 1].rows, tr.claims[h + 1],
                     tr.kept[h]);
  }

  /** A turn takes at most as many rows of the pool as it takes room from the panes behind. */
  ghost predicate RoomKept(sure: Start, start: Start, tr: ScanTrace, j: nat, h: nat)
    requires h <= j < |sure.panes|
  {
    var agent, pool := sure.panes[j].agent, Pool(sure, j);
    var standing := Left(sure, start, tr, agent, h);
    |pool| + Room(sure, agent, pool, standing, h, j) <= |standing * pool| + Takers(sure, j)
  }

  lemma RoomStep(sure: Start, start: Start, env: Env, tr: ScanTrace, j: nat, h: nat)
    requires Traced(start, env, tr) && Within(sure, start) && DistinctThreads(start.panes) && h < j < |start.panes|
    requires ThreadRowIsTaken(sure, start, tr, j) && RoomKept(sure, start, tr, j, h)
    ensures RoomKept(sure, start, tr, j, h + 1)
  {
    if start.panes[h].agent == start.panes[j].agent {
      KeptPoolRow(sure, start, env, tr, j, h);
      RoomBehind(sure, start, env, tr, j, h);
    } else {
      OtherAgentsTurn(sure, start, env, tr, j, h);
    }
  }

  lemma RoomAtFirst(sure: Start, start: Start, env: Env, tr: ScanTrace, j: nat)
    requires Traced(start, env, tr) && Within(sure, start) && j < |start.panes|
    ensures RoomKept(sure, start, tr, j, 0)
  {
    var agent, pool := sure.panes[j].agent, Pool(sure, j);
    forall k | k in Fallbacks(sure, agent)
      ensures Stands(start, tr, k, 0)
    {
    }
    assert Left(sure, start, tr, agent, 0) == Fallbacks(sure, agent);
    assert Fallbacks(sure, agent) * pool == pool;
  }

  lemma RoomIsKept(sure: Start, start: Start, env: Env, tr: ScanTrace, j: nat)
    requires Traced(start, env, tr) && Within(sure, start) && DistinctThreads(start.panes) && j < |start.panes|
    requires ThreadRowIsTaken(sure, start, tr, j)
    ensures RoomKept(sure, start, tr, j, j)
  {
    RoomAtFirst(sure, start, env, tr, j);
    var roomKept := (h: nat) => h <= j && RoomKept(sure, start, tr, j, h);
    forall h: nat | h < j && roomKept(h)
      ensures roomKept(h + 1)
    {
      RoomStep(sure, start, env, tr, j, h);
    }
    AfterSteps(roomKept, j);
  }

  /** With more rows in its pool than panes in front that may take one, a pane finds a row to
      claim, whatever rows the map order gives the others. */
  lemma PoolSuffices(sure: Start, start: Start, env: Env, tr: ScanTrace, j: nat)
    requires Traced(start, env, tr) && Within(sure, start) && DistinctThreads(start.panes) && j < |start.panes|
    requires ThreadRowIsTaken(sure, start, tr, j) && |Pool(sure, j)| > Takers(sure, j)
    ensures exists q :: MayClaim(tr.states[j].rows, tr.claims[j], start.panes[j], q)
  {
    RoomIsKept(sure, start, env, tr, j);
    var standing := Left(sure, start, tr, start.panes[j].agent, j);
    assert standing * Pool(sure, j) != {};
    var q :| q in standing * Pool(sure, j);
    assert PidlessMatch(tr.states[j].rows, tr.claims[j], start.panes[j], q);
    SomeClaim(tr.states[j].rows, tr.claims[j], start.panes[j], q);
  }

  // ----- where each that may take one does -----

  /** No row of a process or thread with a pid is there for the pane. */
  ghost predicate NoPidRow(start: Start, h: nat)
    requires h < |start.panes|
  {
    && (forall r :: !PidMatch(start.rows, {}, start.panes[h], r))
    && (ClaimableThread(start.rows, start.panes[h]) ==> start.PidlessThread(h))
  }

  /** The agent's pid-less rows are on none of its scanned panes, and each of its panes is
      sure to claim a row with a pid, or there is none for it. */
  ghost predicate Pooled(start: Start, agent: string) {
    && (forall q :: CanFallBack(start.rows, q) && start.rows[q].agent == agent ==>
          !OnScannedPane(start, start.rows[q], |start.panes|))
    && (forall h :: 0 <= h < |start.panes| && start.panes[h].agent == agent ==>
          (start.SureOfPid(h) && !start.PidlessThread(h)) || NoPidRow(start, h))
  }

  /** A pane without a row with a pid claims a pid-less one while there is any. */
  lemma TakerTakes(start: Start, env: Env, tr: ScanTrace, h: nat, k: Key) returns (q: Key)
    requires Traced(start, env, tr) && DistinctThreads(start.panes) && h < |start.panes| && NoPidRow(start, h)
    requires PidlessMatch(tr.states[h].rows, tr.claims[h], start.panes[h], k)
    ensures tr.kept[h] == Some(q) && q in tr.claims[h + 1]
    ensures PidlessMatch(tr.states[h].rows, tr.claims[h], start.panes[h], q)
  {
    var rows, claimed, pa := tr.states[h].rows, tr.claims[h], start.panes[h];
    SomeClaim(rows, claimed, pa, k);
    StepOf(start, env, tr, h);
    q := tr.kept[h].value;
    if ThreadMatch(rows, claimed, pa, q) || PidMatch(rows, claimed, pa, q) {
      MatchStands(start, env, tr, h, q);
      assert Stands(start, tr, q, h) && Stands(start, tr, q, 0);
      assert PidMatch(rows, claimed, pa, q) ==> PidMatch(start.rows, {}, pa, q);
    }
  }

  /** Whatever pid-less row a pane can fall back on stood at the start. */
  lemma FallbackIsLeft(start: Start, env: Env, tr: ScanTrace, h: nat, q: Key)
    requires Traced(start, env, tr) && h < |start.panes|
    requires PidlessMatch(tr.states[h].rows, tr.claims[h], start.panes[h], q)
    ensures q in Left(start, start, tr, start.panes[h].agent, h)
  {
    FallbackPersists(start.panes, tr, h, q);
  }

  lemma TakerShrinks(start: Start, env: Env, tr: ScanTrace, h: nat)
    requires Traced(start, env, tr) && DistinctThreads(start.panes) && h < |start.panes| && NoPidRow(start, h)
    ensures
      var agent := start.panes[h].agent;
      Left(start, start, tr, agent, h) != {} ==>
        |Left(start, start, tr, agent, h + 1)| < |Left(start, start, tr, agent, h)|
  {
    var agent := start.panes[h].agent;
    LeftShrinks(start, start, env, tr, agent, h);
    if k :| k in Left(start, start, tr, agent, h) {
      assert PidlessMatch(tr.states[h].rows, tr.claims[h], start.panes[h], k);
      var q := TakerTakes(start, env, tr, h, k);
      FallbackIsLeft(start, env, tr, h, q);
      Fewer(Left(start, start, tr, agent, h + 1), Left(start, start, tr, agent, h) - {q});
    }
  }

  /** None is left, or each pane that may take one did. */
  ghost predicate RunningOut(start: Start, tr: ScanTrace, j: nat, n: nat)
    requires n <= j < |start.panes|
  {
    var agent := start.panes[j].agent;
    var fallbacks, left := Fallbacks(start, agent), Left(start, start, tr, agent, n);
    |left| == 0 || |left| + Room(start, agent, Pool(start, j), fallbacks, 0, n) <= |fallbacks|
  }

  lemma RunsOutStep(start: Start, env: Env, tr: ScanTrace, j: nat, h: nat)
    requires Traced(start, env, tr) && DistinctThreads(start.panes) && h < j < |start.panes|
    requires Pooled(start, start.panes[j].agent) && RunningOut(start, tr, j, h)
    ensures RunningOut(start, tr, j, h + 1)
  {
    var agent := start.panes[j].agent;
    LeftShrinks(start, start, env, tr, agent, h);
    Fewer(Left(start, start, tr, agent, h + 1), Left(start, start, tr, agent, h));
    if start.panes[h].agent == agent && MayTake(start, Pool(start, j), Fallbacks(start, agent), h) {
      TakerShrinks(start, env, tr, h);
    }
  }

  lemma AllAreLeft(start: Start, tr: ScanTrace, j: nat)
    requires j < |start.panes|
    ensures RunningOut(start, tr, j, 0)
  {
    Fewer(Left(start, start, tr, start.panes[j].agent, 0), Fallbacks(start, start.panes[j].agent));
  }

  lemma FewAreLeft(start: Start, env: Env, tr: ScanTrace, j: nat)
    requires Traced(start, env, tr) && DistinctThreads(start.panes) && j < |start.panes|
    requires Pooled(start, start.panes[j].agent)
    ensures RunningOut(start, tr, j, j)
  {
    AllAreLeft(start, tr, j);
    var runningOut := (h: nat) => h <= j && RunningOut(start, tr, j, h);
    forall h: nat | h < j && runningOut(h)
      ensures runningOut(h + 1)
    {
      RunsOutStep(start, env, tr, j, h);
    }
    AfterSteps(runningOut, j);
  }

  /** With at least as many in front that may take one as there are rows, a pane finds none. */
  lemma PoolIsEmpty(start: Start, env: Env, tr: ScanTrace, j: nat)
    requires Traced(start, env, tr) && DistinctThreads(start.panes) && j < |start.panes|
    requires Pooled(start, start.panes[j].agent) && |Pool(start, j)| <= Takers(start, j)
    ensures forall q :: !PidlessMatch(tr.states[j].rows, tr.claims[j], start.panes[j], q)
  {
    var agent := start.panes[j].agent;
    FewAreLeft(start, env, tr, j);
    assert Fallbacks(start, agent) == Pool(start, j) by {
      assert forall q :: q in Fallbacks(start, agent) ==> !OnScannedPane(start, start.rows[q], |start.panes|);
    }
    forall q
      ensures !PidlessMatch(tr.states[j].rows, tr.claims[j], start.panes[j], q)
    {
      if PidlessMatch(tr.states[j].rows, tr.claims[j], start.panes[j], q) {
        FallbackIsLeft(start, env, tr, j, q);
        assert false;
      }
    }
  }
}
