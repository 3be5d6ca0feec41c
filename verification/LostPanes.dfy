/** Two scans after which a pane that nothing suppresses owns no row. */
module LostPanes {
  import opened Wrappers
  import opened AgentModel
  import opened TrackerSpec
  import opened TrackerInvariants
  import opened ScanOwnership
  import opened OwnRows
  import opened FallbackPool
  import opened PaneCoverage
  import opened Fixtures

  const CROSSED_KEY := Thread(CC, "T2")
  const CROSSED_ROW := PidlessRow(CC, "T2")
  const PANE_1 := PlainPane(CC, "%1", 11, "")
  const PANE_2 := PlainPane(CC, "%2", 22, "T2")
  const CROSSED := Session(map[CROSSED_KEY := CROSSED_ROW], {}, map[], map[])
  const CROSSED_START := Start(CROSSED.rows, [PANE_1, PANE_2], {})

  lemma CrossedMisses()
    ensures Excusable(CROSSED.rows, [PANE_1, PANE_2], {})
    ensures AfterMisses(CROSSED, [PANE_1, PANE_2], {}, 2) == CROSSED
  {
    assert MissingKeys(CROSSED.rows, ActivePanes([PANE_1, PANE_2])) == {};
    assert forall agent :: OfAgent(CROSSED.rows, {}, agent) == {};
    assert AfterMisses(CROSSED, [PANE_1, PANE_2], {}, 2).rows == CROSSED.rows;
    assert AfterMisses(CROSSED, [PANE_1, PANE_2], {}, 2).misses == CROSSED.misses;
  }

  lemma SingleBind(s: Session, k: Key, r: Row, pa: Presence)
    requires s.rows.Keys <= {k}
    ensures Bind(s, k, r, pa, {}).rows == map[k := r]
  {
    BindOwnRow(s, k, r, pa, {});
  }

  lemma CrossedFirstPane(env: Env) returns (s': Session)
    requires env == Env(0, {})
    ensures PaneStep(CROSSED, {}, PANE_1, env, s', {CROSSED_KEY}, Some(CROSSED_KEY))
    ensures s'.rows == map[CROSSED_KEY := Stamp(CROSSED_ROW, PANE_1, "")] && s'.ended == map[]
  {
    var r := Stamp(CROSSED_ROW, PANE_1, "");
    s' := Bind(CROSSED, CROSSED_KEY, r, PANE_1, {});
    SingleBind(CROSSED, CROSSED_KEY, r, PANE_1);
    assert PidlessMatch(CROSSED.rows, {}, PANE_1, CROSSED_KEY);
    assert MayClaim(CROSSED.rows, {}, PANE_1, CROSSED_KEY);
  }

  lemma CrossedSecondPane(env: Env, s: Session) returns (s': Session)
    requires env == Env(0, {})
    requires s.rows == map[CROSSED_KEY := Stamp(CROSSED_ROW, PANE_1, "")] && s.ended == map[]
    ensures PaneStep(s, {CROSSED_KEY}, PANE_2, env, s', {CROSSED_KEY}, Some(CROSSED_KEY))
    ensures s'.rows.Keys == {CROSSED_KEY} && s'.rows[CROSSED_KEY].paneId == "%2"
  {
    assert forall k :: !MayClaim(s.rows, {CROSSED_KEY}, PANE_2, k);
    var r := MintedRow(s.rows, PANE_2, 0);
    s' := Bind(Expire(s, PANE_2), CROSSED_KEY, r, PANE_2, {});
    SingleBind(Expire(s, PANE_2), CROSSED_KEY, r, PANE_2);
  }

  /** The first pane is the only one in front, and its row the only one. */
  lemma CrossedPool()
    ensures |Pool(CROSSED_START, 1)| <= Takers(CROSSED_START, 1)
  {
    assert CROSSED_START.panes[0] == PANE_1 && !CROSSED_START.SureOfPid(0);
    assert !HasHome(CROSSED_START, Fallbacks(CROSSED_START, CC), 0);
    assert MayTake(CROSSED_START, Pool(CROSSED_START, 1), Fallbacks(CROSSED_START, CC), 0);
    assert Pool(CROSSED_START, 1) <= {CROSSED_KEY};
    Fewer(Pool(CROSSED_START, 1), {CROSSED_KEY});
  }

  lemma CrossedHypotheses()
    ensures Inv(CROSSED, 2) && DistinctPanes([PANE_1, PANE_2]) && DistinctThreads([PANE_1, PANE_2])
    ensures OrderFree(CROSSED_START) && CrossedFallback(CROSSED_START, CROSSED.rows, 0, 1)
  {
    var panes := [PANE_1, PANE_2];
    assert PANE_1.paneId[1] != PANE_2.paneId[1];
    assert panes[0] == PANE_1 && panes[1] == PANE_2;
    assert CROSSED_KEY in CROSSED.rows && CROSSED.rows[CROSSED_KEY].pid == 0;
    assert !CROSSED_START.Settled(0);
    assert !CROSSED_START.Spares(0, CROSSED_KEY);
    assert !CROSSED_START.Settled(1);
    assert OnePidlessOf(CROSSED.rows, CC);
    assert forall i :: 0 <= i < |panes| ==> Decided(CROSSED_START, i);
    CrossedPool();
  }

  lemma CrossedScan(env: Env) returns (tr: ScanTrace, s': Session)
    requires env == Env(0, {})
    ensures ScanStep(CROSSED, [PANE_1, PANE_2], env, 2, tr, s') && PanesTraced([PANE_1, PANE_2], env, tr)
    ensures s'.rows.Keys == {CROSSED_KEY} && s'.rows[CROSSED_KEY].paneId == "%2"
  {
    CrossedMisses();
    var s1 := CrossedFirstPane(env);
    var s2 := CrossedSecondPane(env, s1);
    tr := TwoStepsAreTraced(PANE_1, PANE_2, env, CROSSED, s1, s2, {CROSSED_KEY}, {CROSSED_KEY},
                            Some(CROSSED_KEY), Some(CROSSED_KEY));
    s' := ExitGhosts(s2, {CROSSED_KEY});
  }

  /** A pane without a resolved thread falls back on a row without a pid; the pane of that
      row's own thread comes later, finds the row claimed, and mints over it. The first
      pane ends with no row although nothing suppresses it. */
  lemma CrossedRowLosesAPane() returns (env: Env, tr: ScanTrace, s': Session)
    ensures ScanOf(CROSSED, [PANE_1, PANE_2], env, 2, tr, s')
    ensures DistinctThreads([PANE_1, PANE_2]) && OrderFree(CROSSED_START)
    ensures CROSSED_START.alivePids == env.alivePids && CrossedFallback(CROSSED_START, CROSSED.rows, 0, 1)
    ensures !Suppressed(CROSSED, PANE_1, env.now)
    ensures forall k :: !Owns(s'.rows, k, PANE_1.paneId)
  {
    env := Env(0, {});
    CrossedHypotheses();
    tr, s' := CrossedScan(env);
    assert "%1"[1] != "%2"[1];
  }

  /** Step 1 removes the session's only row, a synthetic one on its last grace scan, so the
      program's local map is no longer the session's and the pane it then mints is lost. */
  lemma DetachedScanLosesItsPanes() returns (s: Session, panes: seq<Presence>, env: Env)
    ensures Inv(s, 2) && DistinctPanes(panes) && DistinctThreads(panes)
    ensures NoCrossedRows(SureStart(s, panes, env, 2), s.rows)
    ensures |panes| == 1 && !Suppressed(s, panes[0], env.now)
    ensures forall tr, s' :: ScanStep(s, panes, env, 2, tr, s') ==> s'.rows == map[]
  {
    var key := Pane("claude-code", "%1");
    var row := PidlessRow("claude-code", "").(paneId := "%1", liveness := Alive, status := Idle);
    s := Session(map[key := row], {}, map[key := 1], map[]);
    var pa := PlainPane("codex", "%2", 7, "");
    panes := [pa];
    env := Env(0, {});
    assert panes[0].paneId == pa.paneId;
    assert ActivePanes(panes) == {"%2"};
    assert "%1"[1] != "%2"[1];
    assert "codex"[1] != "claude-code"[1];
    assert MissingKeys(s.rows, ActivePanes(panes)) == {key};
    assert SpareCount(s.rows, panes, "claude-code") == 0 by {
      assert SpareCount(s.rows, panes[..0], "claude-code") == 0;
      assert panes[|panes| - 1] == pa;
    }
    forall tr: ScanTrace, s' | ScanStep(s, panes, env, 2, tr, s')
      ensures s'.rows == map[]
    {
      assert OfAgent(s.rows, tr.excused, "claude-code") == {};
      assert forall k :: k in tr.excused ==> k in OfAgent(s.rows, tr.excused, "claude-code");
      assert tr.excused == {};
      var s1 := AfterMisses(s, panes, tr.excused, 2);
      assert MissCount(s, key) + 1 >= 2;
      assert s1.rows == map[];
    }
  }
}
