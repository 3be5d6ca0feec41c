/** When a whole pane scan has one outcome for every map order. */
module ScanDeterminism {
  import opened Wrappers
  import opened AgentModel
  import opened TrackerSpec
  import opened TrackerInvariants
  import opened ScanOwnership
  import opened OrderIndependence
  import opened OwnRows
  import opened ScanEffects

  // ----- step 1: which missing rows a spare pane excuses -----

  /** Each agent has no spare pane, or one for every missing row. */
  ghost predicate SparesDecide(rows: Rows, panes: seq<Presence>) {
    forall agent ::
      || SpareCount(rows, panes, agent) == 0
      || |OfAgent(rows, MissingKeys(rows, ActivePanes(panes)), agent)| <= SpareCount(rows, panes, agent)
  }

  lemma SmallerSubset<T>(a: set<T>, b: set<T>)
    requires a <= b && |b| <= |a|
    ensures a == b
  {
    assert a + (b - a) == b;
    assert b - a == {};
  }

  /** Such an agent's excused rows are none of its missing rows, or all. */
  lemma ExcusedOfAgent(rows: Rows, panes: seq<Presence>, excused: set<Key>, agent: string)
    requires Excusable(rows, panes, excused) && SparesDecide(rows, panes)
    ensures
      var missing := OfAgent(rows, MissingKeys(rows, ActivePanes(panes)), agent);
      OfAgent(rows, excused, agent) == if SpareCount(rows, panes, agent) == 0 then {} else missing
  {
    var mine := OfAgent(rows, excused, agent);
    var missing := OfAgent(rows, MissingKeys(rows, ActivePanes(panes)), agent);
    assert mine <= missing;
    if SpareCount(rows, panes, agent) == |mine| && |mine| > 0 {
      SmallerSubset(mine, missing);
    }
  }

  lemma ExcusedIsForced(rows: Rows, panes: seq<Presence>, e1: set<Key>, e2: set<Key>)
    requires Excusable(rows, panes, e1) && Excusable(rows, panes, e2) && SparesDecide(rows, panes)
    ensures e1 == e2
  {
    forall k
      ensures k in e1 <==> k in e2
    {
      if k in rows {
        ExcusedOfAgent(rows, panes, e1, rows[k].agent);
        ExcusedOfAgent(rows, panes, e2, rows[k].agent);
        assert k in e1 <==> k in OfAgent(rows, e1, rows[k].agent);
        assert k in e2 <==> k in OfAgent(rows, e2, rows[k].agent);
      }
    }
  }

  lemma Swapped<T>(a: set<T>, x: T, y: T)
    requires x in a && y !in a
    ensures |a - {x} + {y}| == |a|
  {
    assert |a - {x}| == |a| - 1;
  }

  /** With too few spare panes for an agent's missing rows, another row could be excused. */
  lemma AnotherExcused(rows: Rows, panes: seq<Presence>, excused: set<Key>, agent: string) returns (other: set<Key>)
    requires Excusable(rows, panes, excused)
    requires 0 < SpareCount(rows, panes, agent) < |OfAgent(rows, MissingKeys(rows, ActivePanes(panes)), agent)|
    ensures Excusable(rows, panes, other) && other != excused
  {
    var missing := MissingKeys(rows, ActivePanes(panes));
    var mine, all := OfAgent(rows, excused, agent), OfAgent(rows, missing, agent);
    assert mine <= all;
    if |mine| < SpareCount(rows, panes, agent) {
      Fewer(all, mine);
    }
    var x :| x in mine;
    if all <= mine {
      Fewer(all, mine);
    }
    var y :| y in all && y !in mine;
    other := excused - {x} + {y};
    assert y in other && y !in excused;
    SwapIsExcusable(rows, panes, excused, agent, x, y);
  }

  /** One missing row of the agent excused instead of another. */
  lemma SwapIsExcusable(rows: Rows, panes: seq<Presence>, excused: set<Key>, agent: string, x: Key, y: Key)
    requires Excusable(rows, panes, excused) && x in OfAgent(rows, excused, agent) && y !in excused
    requires y in OfAgent(rows, MissingKeys(rows, ActivePanes(panes)), agent)
    requires |OfAgent(rows, excused, agent)| == SpareCount(rows, panes, agent)
    ensures Excusable(rows, panes, excused - {x} + {y})
  {
    var other := excused - {x} + {y};
    var missing := MissingKeys(rows, ActivePanes(panes));
    forall a
      ensures
        && |OfAgent(rows, other, a)| <= SpareCount(rows, panes, a)
        && (|OfAgent(rows, other, a)| < SpareCount(rows, panes, a) ==>
            OfAgent(rows, missing, a) <= OfAgent(rows, other, a))
    {
      if a == agent {
        var mine := OfAgent(rows, excused, agent);
        assert OfAgent(rows, other, a) == mine - {x} + {y};
        Swapped(mine, x, y);
      } else {
        assert OfAgent(rows, other, a) == OfAgent(rows, excused, a);
      }
    }
  }

  /** The excused rows do not depend on the map order if and only if each agent has no open
      pane, or one for every row whose pane is gone. */
  lemma ExcusedIsForcedIff(rows: Rows, panes: seq<Presence>, excused: set<Key>)
    requires Excusable(rows, panes, excused)
    ensures (forall other :: Excusable(rows, panes, other) ==> other == excused) <==> SparesDecide(rows, panes)
    ensures SparesDecide(rows, panes) <==>
            forall agent ::
              || |OpenPanes(rows, panes, agent)| == 0
              || |GoneRows(rows, panes, agent)| <= |OpenPanes(rows, panes, agent)|
  {
    forall agent
      ensures SpareCount(rows, panes, agent) == |OpenPanes(rows, panes, agent)|
      ensures OfAgent(rows, MissingKeys(rows, ActivePanes(panes)), agent) == GoneRows(rows, panes, agent)
    {
      SparesAreOpen(rows, panes, agent);
      GoneAreMissing(rows, panes, agent);
    }
    if SparesDecide(rows, panes) {
      forall other | Excusable(rows, panes, other)
        ensures other == excused
      {
        ExcusedIsForced(rows, panes, other, excused);
      }
    } else {
      var agent :| SpareCount(rows, panes, agent) != 0
                   && |OfAgent(rows, MissingKeys(rows, ActivePanes(panes)), agent)| > SpareCount(rows, panes, agent);
      var other := AnotherExcused(rows, panes, excused, agent);
    }
  }

  // ----- step 2: the panes' claims -----

  /** At a settled pane's turn, or one whose agent started with at most one pid-less row, the
      claim is decided. */
  lemma DecidedAtTurn(start: Start, env: Env, tr: ScanTrace, h: nat)
    requires Traced(start, env, tr) && h < |start.panes| && Decided(start, h)
    ensures ClaimDecided(tr.states[h].rows, tr.claims[h], start.panes[h])
  {
    if start.Matched(h) {
      MatchedAtTurn(start, env, tr, h);
    } else if start.Settled(h) {
      BoundAtTurn(start, env, tr, h);
      OneBoundAtTurn(start, env, tr, h);
    } else {
      OnePidlessAtTurn(start, env, tr, h);
    }
  }

  lemma OneBoundAtTurn(start: Start, env: Env, tr: ScanTrace, h: nat)
    requires Traced(start, env, tr) && h < |start.panes| && start.OwnBound(h)
    ensures OneBound(tr.states[h].rows, tr.claims[h], start.panes[h])
  {
    var b :| PidlessBound(start.rows, {}, start.panes[h], b) && start.Free(b, h) && start.OnlyBound(h, b);
    forall k | PidlessBound(tr.states[h].rows, tr.claims[h], start.panes[h], k)
      ensures k == b
    {
      FallbackPersists(start.panes, tr, h, k);
      assert PidlessBound(start.rows, {}, start.panes[h], k);
    }
  }

  lemma OnePidlessAtTurn(start: Start, env: Env, tr: ScanTrace, h: nat)
    requires Traced(start, env, tr) && h < |start.panes| && OnePidlessOf(start.rows, start.panes[h].agent)
    ensures OneBound(tr.states[h].rows, tr.claims[h], start.panes[h])
    ensures OnePidless(tr.states[h].rows, tr.claims[h], start.panes[h])
  {
    forall k, q | PidlessMatch(tr.states[h].rows, tr.claims[h], start.panes[h], k)
                  && PidlessMatch(tr.states[h].rows, tr.claims[h], start.panes[h], q)
      ensures k == q
    {
      FallbackPersists(start.panes, tr, h, k);
      FallbackPersists(start.panes, tr, h, q);
      assert CanFallBack(start.rows, k) && CanFallBack(start.rows, q);
    }
  }

  lemma StepsAgree(start: Start, env: Env, t1: ScanTrace, t2: ScanTrace, h: nat)
    requires Traced(start, env, t1) && Traced(start, env, t2) && h < |start.panes| && Decided(start, h)
    requires t1.states[h] == t2.states[h] && t1.claims[h] == t2.claims[h]
    requires OneRowPerProcess(t1.states[h].rows)
    ensures t1.states[h + 1] == t2.states[h + 1] && t1.claims[h + 1] == t2.claims[h + 1] && t1.kept[h] == t2.kept[h]
  {
    DecidedAtTurn(start, env, t1, h);
    OneClaimIff(t1.states[h].rows, t1.claims[h], start.panes[h]);
    OneClaimForces(t1.states[h], t1.claims[h], start.panes[h], env, t1.states[h + 1], t1.claims[h + 1], t1.kept[h],
                   t2.states[h + 1], t2.claims[h + 1], t2.kept[h]);
  }

  lemma {:induction false} TracesAgree(start: Start, env: Env, t1: ScanTrace, t2: ScanTrace, threshold: int, n: nat)
    requires Traced(start, env, t1) && Traced(start, env, t2) && OrderFree(start) && n <= |start.panes|
    requires t1.states[0] == t2.states[0] && Inv(t1.states[0], threshold)
    ensures t1.states[n] == t2.states[n] && t1.claims[n] == t2.claims[n] && t1.kept[..n] == t2.kept[..n]
  {
    if n > 0 {
      var h := n - 1;
      TracesAgree(start, env, t1, t2, threshold, h);
      PanesKeepInv(start.panes, env, t1, h, threshold);
      StepsAgree(start, env, t1, t2, h);
      assert t1.kept[..n] == t1.kept[..h] + [t1.kept[h]] && t2.kept[..n] == t2.kept[..h] + [t2.kept[h]];
    }
  }

  /** Before the scan: each pane is settled whichever rows step 1 excuses, or its agent has
      at most one pid-less row. */
  ghost predicate ClaimsDecide(s: Session, panes: seq<Presence>, env: Env, threshold: int) {
    forall i :: 0 <= i < |panes| ==>
      SureStart(s, panes, env, threshold).Settled(i) || OnePidlessOf(s.rows, panes[i].agent)
  }

  lemma MissesKeepOrderFree(s: Session, panes: seq<Presence>, env: Env, excused: set<Key>, threshold: int)
    requires ClaimsDecide(s, panes, env, threshold)
    ensures OrderFree(StartOf(AfterMisses(s, panes, excused, threshold), panes, env))
  {
    var sure := SureStart(s, panes, env, threshold);
    var after := StartOf(AfterMisses(s, panes, excused, threshold), panes, env);
    MissesAreWithin(s, panes, env, excused, threshold);
    forall k | CanFallBack(after.rows, k)
      ensures CanFallBack(s.rows, k) && s.rows[k] == after.rows[k]
    {
    }
    forall i | 0 <= i < |panes|
      ensures Decided(after, i)
    {
      SettledWithin(sure, after, i);
    }
  }

  /** A whole scan ends in one session, with the same row kept for each pane, for every map
      order of all its loops, when each agent has no spare pane or one for every missing row,
      and each pane's thread, process or own pid-less row decides its claim or its agent has
      at most one pid-less row. */
  lemma ScanIsDeterministic(s: Session, panes: seq<Presence>, env: Env, threshold: int,
                            t1: ScanTrace, s1: Session, t2: ScanTrace, s2: Session)
    requires ScanOf(s, panes, env, threshold, t1, s1) && ScanOf(s, panes, env, threshold, t2, s2)
    requires SparesDecide(s.rows, panes) && ClaimsDecide(s, panes, env, threshold)
    ensures s1 == s2 && t1.kept == t2.kept && t1.excused == t2.excused
  {
    var start := StartOf(t1.states[0], panes, env);
    ExcusedIsForced(s.rows, panes, t1.excused, t2.excused);
    ScanIsTraced(start, s, panes, env, threshold, t1, s1);
    ScanIsTraced(start, s, panes, env, threshold, t2, s2);
    MissesKeepInv(s, panes, t1.excused, threshold);
    MissesKeepOrderFree(s, panes, env, t1.excused, threshold);
    TracesAgree(start, env, t1, t2, threshold, |panes|);
    assert t1.kept[..|panes|] == t1.kept && t2.kept[..|panes|] == t2.kept;
    ScanEnds(s, panes, env, threshold, t1, s1);
    ScanEnds(s, panes, env, threshold, t2, s2);
  }

  lemma ScanEnds(s: Session, panes: seq<Presence>, env: Env, threshold: int, tr: ScanTrace, s': Session)
    requires ScanOf(s, panes, env, threshold, tr, s')
    ensures s' == ExitGhosts(tr.states[|panes|], tr.claims[|panes|])
  {
    DetachedIff(s, panes, tr.excused, threshold);
  }
}
