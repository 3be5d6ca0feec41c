/** Exactly when every pane ends with the row it got in every map order. */
module EveryOrder {
  import opened Wrappers
  import opened AgentModel
  import opened TrackerSpec
  import opened TrackerInvariants
  import opened ScanOwnership
  import opened OwnRows
  import opened FallbackPool
  import opened PaneCoverage
  import opened Reordering
  import opened WorstOrder

  /** Whatever the map order of step 2, every pane ends with the row it got. */
  ghost predicate EveryOrderKeeps(s: Session, panes: seq<Presence>, env: Env, threshold: int, excused: set<Key>) {
    forall tr, s' :: ScanOf(s, panes, env, threshold, tr, s') && tr.excused == excused ==>
      AllKeep(s'.rows, panes, tr.kept)
  }

  /** A scan all of whose orders are in question: it starts in a reachable session that keeps
      its map, sees different threads and live processes, and suppresses no pane. */
  ghost predicate OpenScan(s: Session, panes: seq<Presence>, env: Env, threshold: int, excused: set<Key>) {
    && Inv(s, threshold) && DistinctPanes(panes) && DistinctThreads(panes) && PlainScan(s, panes, env)
    && !WillDetach(s, panes, threshold) && Excusable(s.rows, panes, excused)
    && NoStrays(StartOf(s, panes, env))
  }

  lemma TraceIsScan(s: Session, panes: seq<Presence>, env: Env, threshold: int, tr: ScanTrace) returns (s': Session)
    requires OpenScan(s, panes, env, threshold, tr.excused) && PanesTraced(panes, env, tr)
    requires tr.states[0] == AfterMisses(s, panes, tr.excused, threshold)
    ensures ScanOf(s, panes, env, threshold, tr, s')
    ensures Calm(StartOf(tr.states[0], panes, env), env, tr) && NoStrays(StartOf(tr.states[0], panes, env))
  {
    DetachedIff(s, panes, tr.excused, threshold);
    MissesKeepInv(s, panes, tr.excused, threshold);
    TracedIsWalk(panes, env, tr, threshold);
    s' := ExitGhosts(tr.states[|panes|], tr.claims[|panes|]);
    MissesKeepStrays(s, panes, env, tr.excused, threshold);
  }

  lemma MissesKeepStrays(s: Session, panes: seq<Presence>, env: Env, excused: set<Key>, threshold: int)
    requires NoStrays(StartOf(s, panes, env)) && DistinctPanes(panes)
    ensures NoStrays(StartOf(AfterMisses(s, panes, excused, threshold), panes, env))
  {
    var after := AfterMisses(s, panes, excused, threshold);
    forall g, q | 0 <= g < |panes| && PidlessBound(after.rows, {}, panes[g], q)
      ensures after.rows[q].liveness.Alive?
    {
      assert !Stray(StartOf(s, panes, env), g);
      assert PidlessBound(s.rows, {}, panes[g], q);
    }
  }

  lemma SomeScan(s: Session, panes: seq<Presence>, env: Env, threshold: int, excused: set<Key>)
    returns (tr: ScanTrace, s': Session)
    requires OpenScan(s, panes, env, threshold, excused)
    ensures ScanOf(s, panes, env, threshold, tr, s') && tr.excused == excused
    ensures tr.states[0] == AfterMisses(s, panes, excused, threshold)
    ensures Calm(StartOf(tr.states[0], panes, env), env, tr) && NoStrays(StartOf(tr.states[0], panes, env))
  {
    var s1 := AfterMisses(s, panes, excused, threshold);
    tr := Complete(panes, env, excused, [s1], [{}], []);
    assert tr.states[0] == tr.states[..1][0];
    s' := TraceIsScan(s, panes, env, threshold, tr);
  }

  lemma CrossedOrder(s: Session, panes: seq<Presence>, env: Env, threshold: int, excused: set<Key>, i: nat, j: nat)
    requires OpenScan(s, panes, env, threshold, excused)
    requires
      var start := StartOf(AfterMisses(s, panes, excused, threshold), panes, env);
      CrossedFallback(start, start.rows, i, j)
    ensures !EveryOrderKeeps(s, panes, env, threshold, excused)
  {
    var tr, s' := SomeScan(s, panes, env, threshold, excused);
    var tr', h := SomeOrderLoses(StartOf(tr.states[0], panes, env), env, tr, i, j);
    var s'' := TraceIsScan(s, panes, env, threshold, tr');
    FallbackLosesIff(s, panes, env, threshold, tr', s'', h, j);
    assert !AllKeep(s''.rows, panes, tr'.kept);
  }

  /** Where pid-less rows on scanned panes are alive, all panes end with the row they got in
      every map order if and only if no row that step 1 leaves is crossed. */
  lemma EveryOrderKeepsIff(s: Session, panes: seq<Presence>, env: Env, threshold: int, excused: set<Key>)
    requires OpenScan(s, panes, env, threshold, excused)
    ensures
      var start := StartOf(AfterMisses(s, panes, excused, threshold), panes, env);
      EveryOrderKeeps(s, panes, env, threshold, excused) <==> NoCrossedRows(start, start.rows)
  {
    var start := StartOf(AfterMisses(s, panes, excused, threshold), panes, env);
    if NoCrossedRows(start, start.rows) {
      forall tr, s' | ScanOf(s, panes, env, threshold, tr, s') && tr.excused == excused
        ensures AllKeep(s'.rows, panes, tr.kept)
      {
        ScanIsWalk(s, panes, env, threshold, tr, s');
        forall i | 0 <= i < |panes|
          ensures KeepsItsRow(s'.rows, panes[i], tr.kept[i])
        {
          UncrossedPaneOwned(start, start.rows, s, panes, env, threshold, tr, s', i);
        }
      }
    } else if !NoCrossedPids(start.rows, panes) {
      var j, i :| 0 <= j < i < |panes| && CrossedPid(start.rows, panes, j, i);
      var tr, s' := SomeScan(s, panes, env, threshold, excused);
      CrossedPidLosesIff(s, panes, env, threshold, tr, s', j, i);
      assert !AllKeep(s'.rows, panes, tr.kept);
    } else {
      var i, j :| 0 <= i < j < |panes| && CrossedFallback(start, start.rows, i, j);
      CrossedOrder(s, panes, env, threshold, excused, i, j);
    }
  }

  // ----- read off the session before the scan -----

  lemma OneMoreOf(rows: Rows, ks: set<Key>, k: Key, agent: string)
    requires k in rows
    ensures OfAgent(rows, ks + {k}, agent) == OfAgent(rows, ks, agent) + if rows[k].agent == agent then {k} else {}
  {
  }

  /** One row's part of the choice step 1 makes: it is excused while its agent has a spare. */
  lemma ExcuseNextFor(rows: Rows, panes: seq<Presence>, seen: set<Key>, excused: set<Key>, k: Key, agent: string)
    requires ExcusesEnough(rows, panes, seen, excused, agent) && k in rows && k !in seen && k !in excused
    ensures
      var spare := |OfAgent(rows, excused, rows[k].agent)| < SpareCount(rows, panes, rows[k].agent);
      ExcusesEnough(rows, panes, seen + {k}, if spare then excused + {k} else excused, agent)
  {
    OneMoreOf(rows, seen, k, agent);
    OneMoreOf(rows, excused, k, agent);
  }

  lemma ExcuseNext(rows: Rows, panes: seq<Presence>, seen: set<Key>, excused: set<Key>, k: Key)
    returns (excused': set<Key>)
    requires ExcusableOf(rows, panes, seen, excused) && k in rows && k !in seen
    ensures ExcusableOf(rows, panes, seen + {k}, excused')
  {
    var spare := |OfAgent(rows, excused, rows[k].agent)| < SpareCount(rows, panes, rows[k].agent);
    excused' := if spare then excused + {k} else excused;
    forall agent
      ensures ExcusesEnough(rows, panes, seen + {k}, excused', agent)
    {
      ExcuseNextFor(rows, panes, seen, excused, k, agent);
    }
  }

  ghost predicate ExcusesEnough(rows: Rows, panes: seq<Presence>, missing: set<Key>, excused: set<Key>, agent: string) {
    var mine := OfAgent(rows, excused, agent);
    && |mine| <= SpareCount(rows, panes, agent)
    && (|mine| < SpareCount(rows, panes, agent) ==> OfAgent(rows, missing, agent) <= mine)
  }

  ghost predicate ExcusableOf(rows: Rows, panes: seq<Presence>, missing: set<Key>, excused: set<Key>) {
    excused <= missing && forall agent :: ExcusesEnough(rows, panes, missing, excused, agent)
  }

  lemma {:induction false} SomeExcusableOf(rows: Rows, panes: seq<Presence>, missing: set<Key>)
    returns (excused: set<Key>)
    requires missing <= rows.Keys
    ensures ExcusableOf(rows, panes, missing, excused)
  {
    if missing == {} {
      excused := {};
      assert forall agent :: OfAgent(rows, {}, agent) == {};
    } else {
      var k :| k in missing;
      excused := SomeExcusableOf(rows, panes, missing - {k});
      excused := ExcuseNext(rows, panes, missing - {k}, excused, k);
      assert missing - {k} + {k} == missing;
    }
  }

  /** Step 1 always has a choice to make. */
  lemma SomeExcusable(rows: Rows, panes: seq<Presence>) returns (excused: set<Key>)
    ensures Excusable(rows, panes, excused)
  {
    excused := SomeExcusableOf(rows, panes, MissingKeys(rows, ActivePanes(panes)));
    var missing := MissingKeys(rows, ActivePanes(panes));
    forall agent
      ensures
        var mine := OfAgent(rows, excused, agent);
        && |mine| <= SpareCount(rows, panes, agent)
        && (|mine| < SpareCount(rows, panes, agent) ==> OfAgent(rows, missing, agent) <= mine)
    {
      assert ExcusesEnough(rows, panes, missing, excused, agent);
    }
  }

  /** Whatever the map order of both steps, every pane ends with the row it got. */
  ghost predicate AllOrdersKeep(s: Session, panes: seq<Presence>, env: Env, threshold: int) {
    forall tr, s' :: ScanOf(s, panes, env, threshold, tr, s') ==> AllKeep(s'.rows, panes, tr.kept)
  }

  /** The same read off the session before the scan, for all orders of both steps: while no
      row is on its last grace scan, its own rows decide. */
  lemma AllOrdersKeepIff(s: Session, panes: seq<Presence>, env: Env, threshold: int)
    requires Inv(s, threshold) && DistinctPanes(panes) && DistinctThreads(panes) && PlainScan(s, panes, env)
    requires !WillDetach(s, panes, threshold) && NoStrays(StartOf(s, panes, env)) && NoneDue(s, panes, threshold)
    ensures AllOrdersKeep(s, panes, env, threshold) <==> NoCrossedRows(StartOf(s, panes, env), s.rows)
  {
    if AllOrdersKeep(s, panes, env, threshold) {
      var excused := SomeExcusable(s.rows, panes);
      UndueOrders(s, panes, env, threshold, excused);
      assert EveryOrderKeeps(s, panes, env, threshold, excused);
    }
    if NoCrossedRows(StartOf(s, panes, env), s.rows) {
      forall tr, s' | ScanOf(s, panes, env, threshold, tr, s')
        ensures AllKeep(s'.rows, panes, tr.kept)
      {
        UndueOrders(s, panes, env, threshold, tr.excused);
        assert EveryOrderKeeps(s, panes, env, threshold, tr.excused);
      }
    }
  }

  lemma UndueOrders(s: Session, panes: seq<Presence>, env: Env, threshold: int, excused: set<Key>)
    requires OpenScan(s, panes, env, threshold, excused) && NoneDue(s, panes, threshold)
    ensures EveryOrderKeeps(s, panes, env, threshold, excused) <==> NoCrossedRows(StartOf(s, panes, env), s.rows)
  {
    NoneDueKeepsRows(s, panes, excused, threshold);
    assert StartOf(AfterMisses(s, panes, excused, threshold), panes, env) == StartOf(s, panes, env);
    EveryOrderKeepsIff(s, panes, env, threshold, excused);
  }
}
