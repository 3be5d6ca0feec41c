/** Who owns a pane once a whole scan has ended. */
module ScanOwnership {
  import opened Wrappers
  import opened AgentModel
  import opened TrackerSpec
  import opened TrackerInvariants
  import opened ScanEffects

  ghost predicate DistinctPanes(panes: seq<Presence>) {
    && (forall i :: 0 <= i < |panes| ==> panes[i].paneId != "" && panes[i].pid != 0)
    && (forall i, j :: 0 <= i < j < |panes| ==> panes[i].paneId != panes[j].paneId && panes[i].pid != panes[j].pid)
  }

  /** Row k is alive and bound to the pane. */
  predicate Owns(rows: Rows, k: Key, pane: string) {
    k in rows && rows[k].liveness.Alive? && rows[k].paneId == pane
  }

  /** Every other alive same-agent row on the pane is another process that still lives. */
  ghost predicate OthersLive(rows: Rows, pa: Presence, keep: Key, alivePids: set<int>) {
    forall q :: Owns(rows, q, pa.paneId) && q != keep && rows[q].agent == pa.agent ==>
      rows[q].pid != 0 && rows[q].pid in alivePids && rows[q].pid != pa.pid
  }

  // ----- one pane step -----

  lemma BindClearsPane(s: Session, k: Key, r: Row, pa: Presence, alivePids: set<int>)
    requires pa.paneId != "" && pa.pid != 0
    ensures OthersLive(Bind(s, k, r, pa, alivePids).rows, pa, k, alivePids)
  {
    var s1 := s.(rows := s.rows[k := r], misses := s.misses - {k});
    var s2 := RetireSuperseded(s1, k, pa.agent, pa.pid);
    var s3 := RetireDisplaced(s2, k, pa.agent, pa.paneId, pa.pid, alivePids);
    forall q | Owns(s3.rows, q, pa.paneId) && q != k && s3.rows[q].agent == pa.agent
      ensures s3.rows[q].pid != 0 && s3.rows[q].pid in alivePids && s3.rows[q].pid != pa.pid
    {
      assert q in s2.rows && q !in Superseded(s1.rows, k, pa.agent, pa.pid);
      assert q !in Displaced(s2.rows, k, pa.agent, pa.paneId, pa.pid, alivePids);
    }
  }

  /** What one bind does to any other row. */
  lemma BindOnOthers(s: Session, k: Key, r: Row, pa: Presence, alivePids: set<int>, q: Key)
    requires q != k
    ensures
      var rows' := Bind(s, k, r, pa, alivePids).rows;
      && (q in rows' <==> q in s.rows && !(pa.pid != 0 && s.rows[q].agent == pa.agent && s.rows[q].pid == pa.pid))
      && (q in rows' ==> rows'[q] == s.rows[q] || (rows'[q] == Unbind(s.rows[q]) && s.rows[q].paneId == pa.paneId))
  {
  }

  lemma BindOwnRow(s: Session, k: Key, r: Row, pa: Presence, alivePids: set<int>)
    ensures k in Bind(s, k, r, pa, alivePids).rows && Bind(s, k, r, pa, alivePids).rows[k] == r
  {
  }

  /** What one pane step does to the rows, whichever of its branches runs: the kept row is
      bound to the pane, the other rows of its process go, and no other row changes except
      that it may lose the pane. */
  ghost predicate StepShape(rows: Rows, claimed: set<Key>, pa: Presence, rows': Rows, claimed': set<Key>,
                            kept: Option<Key>) {
    match kept
    case None => rows' == rows && claimed' == claimed
    case Some(k) =>
      && Owns(rows', k, pa.paneId) && k.agent == rows'[k].agent == pa.agent
      && (if k in claimed' - claimed then k in rows && rows'[k].pid == rows[k].pid && claimed' == claimed + {k}
          else claimed' == claimed && k == MintKey(rows, pa) && rows'[k].pid == pa.pid)
      && (forall q :: q in rows' && q != k ==>
            q in rows && (rows'[q] == rows[q] || (rows'[q] == Unbind(rows[q]) && rows[q].paneId == pa.paneId)))
      && (forall q :: q in rows && q != k ==>
            (q in rows' <==> !(pa.pid != 0 && rows[q].agent == pa.agent && rows[q].pid == pa.pid)))
  }

  lemma BindShape(s: Session, k: Key, r: Row, pa: Presence, alivePids: set<int>)
    ensures
      var rows' := Bind(s, k, r, pa, alivePids).rows;
      && k in rows' && rows'[k] == r
      && (forall q :: q in rows' && q != k ==>
            q in s.rows && (rows'[q] == s.rows[q] || (rows'[q] == Unbind(s.rows[q]) && s.rows[q].paneId == pa.paneId)))
      && (forall q :: q in s.rows && q != k ==>
            (q in rows' <==> !(pa.pid != 0 && s.rows[q].agent == pa.agent && s.rows[q].pid == pa.pid)))
  {
    BindOwnRow(s, k, r, pa, alivePids);
    forall q | q != k
      ensures
        var rows' := Bind(s, k, r, pa, alivePids).rows;
        && (q in rows' ==>
              && q in s.rows
              && (rows'[q] == s.rows[q] || (rows'[q] == Unbind(s.rows[q]) && s.rows[q].paneId == pa.paneId)))
        && (q in s.rows ==> (q in rows' <==> !(pa.pid != 0 && s.rows[q].agent == pa.agent && s.rows[q].pid == pa.pid)))
    {
      BindOnOthers(s, k, r, pa, alivePids, q);
    }
  }

  lemma PaneStepHasShape(s: Session, claimed: set<Key>, pa: Presence, env: Env,
                         s': Session, claimed': set<Key>, kept: Option<Key>)
    requires WellKeyed(s.rows) && PaneStep(s, claimed, pa, env, s', claimed', kept)
    ensures StepShape(s.rows, claimed, pa, s'.rows, claimed', kept)
    ensures kept.Some? && pa.paneId != "" && pa.pid != 0 ==> OthersLive(s'.rows, pa, kept.value, env.alivePids)
  {
    if kept.Some? {
      var k := kept.value;
      if exists q :: MayClaim(s.rows, claimed, pa, q) {
        var r := Stamp(s.rows[k], pa, pa.threadName);
        BindShape(s, k, r, pa, env.alivePids);
        if pa.paneId != "" && pa.pid != 0 {
          BindClearsPane(s, k, r, pa, env.alivePids);
        }
      } else {
        var r := MintedRow(s.rows, pa, env.now);
        BindShape(Expire(s, pa), k, r, pa, env.alivePids);
        if pa.paneId != "" && pa.pid != 0 {
          BindClearsPane(Expire(s, pa), k, r, pa, env.alivePids);
        }
      }
    }
  }

  /** The step for a later pane takes an earlier pane's row: it keeps the same row, or
      the row carries its process. */
  predicate Takes(k: Key, pid: int, pa: Presence, kept: Option<Key>) {
    kept.Some? && k.agent == pa.agent && (kept.value == k || (pa.pid != 0 && pid == pa.pid))
  }

  /** One step for another pane leaves an owned pane owned exactly when it does not take
      its row, and never hands the row back. */
  lemma StepPreservesOwner(rows: Rows, claimed: set<Key>, pa: Presence, rows': Rows, claimed': set<Key>,
                           kept: Option<Key>, k: Key, pane: string)
    requires WellKeyed(rows) && StepShape(rows, claimed, pa, rows', claimed', kept)
    requires pane != "" && pa.paneId != pane
    ensures Owns(rows', k, pane) <==> Owns(rows, k, pane) && !Takes(k, rows[k].pid, pa, kept)
    ensures Owns(rows', k, pane) ==> rows'[k] == rows[k]
  {
  }

  lemma StepPreservesOthersLive(rows: Rows, claimed: set<Key>, pa: Presence, rows': Rows, claimed': set<Key>,
                                kept: Option<Key>, owned: Presence, keep: Key, alivePids: set<int>)
    requires StepShape(rows, claimed, pa, rows', claimed', kept)
    requires owned.paneId != "" && pa.paneId != owned.paneId
    requires OthersLive(rows, owned, keep, alivePids)
    ensures OthersLive(rows', owned, keep, alivePids)
  {
    forall q | Owns(rows', q, owned.paneId)
      ensures Owns(rows, q, owned.paneId) && rows[q] == rows'[q]
    {
    }
  }

  // ----- the whole of step 2 -----

  /** Step 2 of a scan as a walk over shapes: the states' rows fit their keys, and each step
      changes them as StepShape says. */
  ghost predicate Walk(panes: seq<Presence>, tr: ScanTrace) {
    && DistinctPanes(panes)
    && |tr.kept| == |panes| && |tr.states| == |panes| + 1 && |tr.claims| == |panes| + 1
    && (forall n :: 0 <= n <= |panes| ==> WellKeyed(tr.states[n].rows))
    && (forall i :: 0 <= i < |panes| ==>
          StepShape(tr.states[i].rows, tr.claims[i], panes[i], tr.states[i + 1].rows, tr.claims[i + 1], tr.kept[i]))
  }

  lemma {:induction false} OthersLiveUntil(panes: seq<Presence>, env: Env, tr: ScanTrace, i: nat, n: nat)
    requires Walk(panes, tr) && i < n <= |panes| && tr.kept[i].Some?
    requires OthersLive(tr.states[i + 1].rows, panes[i], tr.kept[i].value, env.alivePids)
    ensures OthersLive(tr.states[n].rows, panes[i], tr.kept[i].value, env.alivePids)
    decreases n
  {
    if n > i + 1 {
      OthersLiveUntil(panes, env, tr, i, n - 1);
      StepPreservesOthersLive(tr.states[n - 1].rows, tr.claims[n - 1], panes[n - 1], tr.states[n].rows, tr.claims[n],
                              tr.kept[n - 1], panes[i], tr.kept[i].value, env.alivePids);
    }
  }

  /** No pane after i and before n takes row k, whose process is pid. */
  ghost predicate Untaken(k: Key, pid: int, panes: seq<Presence>, kept: seq<Option<Key>>, i: nat, n: nat)
    requires n <= |panes| == |kept|
  {
    forall j :: i < j < n ==> !Takes(k, pid, panes[j], kept[j])
  }

  lemma {:induction false} OwnerUntil(panes: seq<Presence>, tr: ScanTrace, i: nat, n: nat, k: Key, r: Row)
    requires Walk(panes, tr) && i < n <= |panes| && tr.kept[i] == Some(k)
    requires k in tr.states[i + 1].rows && r == tr.states[i + 1].rows[k]
    ensures Owns(tr.states[n].rows, k, panes[i].paneId) <==> Untaken(k, r.pid, panes, tr.kept, i, n)
    ensures Owns(tr.states[n].rows, k, panes[i].paneId) ==> tr.states[n].rows[k] == r
    decreases n
  {
    if n > i + 1 {
      OwnerUntil(panes, tr, i, n - 1, k, r);
      StepPreservesOwner(tr.states[n - 1].rows, tr.claims[n - 1], panes[n - 1], tr.states[n].rows, tr.claims[n],
                         tr.kept[n - 1], k, panes[i].paneId);
      UntakenStep(k, r.pid, panes, tr.kept, i, n);
    }
  }

  lemma UntakenStep(k: Key, pid: int, panes: seq<Presence>, kept: seq<Option<Key>>, i: nat, n: nat)
    requires i + 1 < n <= |panes| == |kept|
    ensures Untaken(k, pid, panes, kept, i, n) <==>
            Untaken(k, pid, panes, kept, i, n - 1) && !Takes(k, pid, panes[n - 1], kept[n - 1])
  {
  }

  lemma {:induction false} ClaimsGrow(panes: seq<Presence>, tr: ScanTrace, m: nat, n: nat)
    requires Walk(panes, tr) && m <= n <= |panes|
    ensures tr.claims[m] <= tr.claims[n]
    decreases n
  {
    if m < n {
      ClaimsGrow(panes, tr, m, n - 1);
      assert StepShape(tr.states[n - 1].rows, tr.claims[n - 1], panes[n - 1], tr.states[n].rows, tr.claims[n],
                       tr.kept[n - 1]);
    }
  }

  lemma SuppressionStep(s: Session, claimed: set<Key>, pa: Presence, env: Env,
                        s': Session, claimed': set<Key>, kept: Option<Key>)
    requires PaneStep(s, claimed, pa, env, s', claimed', kept)
    ensures forall p :: p in s'.ended ==> p in s.ended && s'.ended[p] == s.ended[p]
    ensures kept.None? ==> Suppressed(s, pa, env.now)
  {
  }

  lemma {:induction false} SuppressionsShrink(panes: seq<Presence>, env: Env, tr: ScanTrace, n: nat)
    requires PanesTraced(panes, env, tr) && n <= |panes|
    ensures forall p :: p in tr.states[n].ended ==>
              p in tr.states[0].ended && tr.states[n].ended[p] == tr.states[0].ended[p]
  {
    if n > 0 {
      SuppressionsShrink(panes, env, tr, n - 1);
      SuppressionStep(tr.states[n - 1], tr.claims[n - 1], panes[n - 1], env, tr.states[n], tr.claims[n],
                      tr.kept[n - 1]);
    }
  }

  // ----- the session that loses its map -----

  /** Step 1 is about to delete every row: each is synthetic, due, and without a spare pane
      of its agent to excuse it. */
  ghost predicate WillDetach(s: Session, panes: seq<Presence>, threshold: int) {
    && s.rows != map[]
    && forall k :: k in s.rows ==>
         && Synthetic(k) && IsMissing(s.rows, ActivePanes(panes), k)
         && MissCount(s, k) + 1 >= threshold && SpareCount(s.rows, panes, s.rows[k].agent) == 0
  }

  /** A spare pane of the agent excuses one of its missing rows, so none is excused exactly
      when there is no spare. */
  lemma NoneExcusedIff(rows: Rows, panes: seq<Presence>, excused: set<Key>, k: Key)
    requires Excusable(rows, panes, excused) && IsMissing(rows, ActivePanes(panes), k)
    ensures OfAgent(rows, excused, rows[k].agent) == {} <==> SpareCount(rows, panes, rows[k].agent) == 0
  {
    var mine := OfAgent(rows, excused, rows[k].agent);
    var missing := MissingKeys(rows, ActivePanes(panes));
    assert k in OfAgent(rows, missing, rows[k].agent);
    if SpareCount(rows, panes, rows[k].agent) > 0 {
      assert mine == {} ==> |mine| == 0;
    }
  }

  /** The row was minted for a pane that is gone, its misses reach the threshold, and every
      scanned pane of its agent has an alive row on it. */
  predicate IsLastLeg(s: Session, panes: seq<Presence>, threshold: int, k: Key)
    requires k in s.rows
  {
    && k.Pane? && IsGone(s.rows[k], panes) && (if k in s.misses then s.misses[k] else 0) + 1 >= threshold
    && forall i :: 0 <= i < |panes| && panes[i].agent == s.rows[k].agent ==> !IsOpen(s.rows, panes[i].paneId)
  }

  lemma WillDetachIff(s: Session, panes: seq<Presence>, threshold: int)
    ensures WillDetach(s, panes, threshold) <==>
            s.rows != map[] && forall k :: k in s.rows ==> IsLastLeg(s, panes, threshold, k)
  {
    forall k | k in s.rows
      ensures SpareCount(s.rows, panes, s.rows[k].agent) == 0 <==>
              forall i :: 0 <= i < |panes| && panes[i].agent == s.rows[k].agent ==> !IsOpen(s.rows, panes[i].paneId)
    {
      NoSpareIff(s.rows, panes, s.rows[k].agent);
    }
    GoneAreMissing(s.rows, panes, "");
  }

  /** Which rows a spare pane excuses does not matter to whether the session loses its map:
      it does exactly when every row was minted for a pane that is gone, is due, and has no
      open pane of its agent to excuse it. */
  lemma DetachedIff(s: Session, panes: seq<Presence>, excused: set<Key>, threshold: int)
    requires Excusable(s.rows, panes, excused)
    ensures Detached(s, AfterMisses(s, panes, excused, threshold)) <==> WillDetach(s, panes, threshold)
    ensures WillDetach(s, panes, threshold) <==>
            s.rows != map[] && forall k :: k in s.rows ==> IsLastLeg(s, panes, threshold, k)
  {
    WillDetachIff(s, panes, threshold);
    var s1 := AfterMisses(s, panes, excused, threshold);
    var active := ActivePanes(panes);
    if Detached(s, s1) {
      assert forall k :: k in s.rows ==> k !in s1.rows;
      forall k | k in s.rows
        ensures Synthetic(k) && IsMissing(s.rows, active, k) && MissCount(s, k) + 1 >= threshold
        ensures SpareCount(s.rows, panes, s.rows[k].agent) == 0
      {
        NoneExcusedIff(s.rows, panes, excused, k);
        assert forall q :: q in OfAgent(s.rows, excused, s.rows[k].agent) ==> q in s.rows && q in excused;
      }
    }
    if WillDetach(s, panes, threshold) {
      forall k | k in s.rows
        ensures k !in s1.rows
      {
        NoneExcusedIff(s.rows, panes, excused, k);
        assert k in OfAgent(s.rows, excused, s.rows[k].agent) <==> k in excused;
      }
    }
  }

  /** Such a scan ends without a row, whatever panes it sees. */
  lemma DetachedScanIsEmpty(s: Session, panes: seq<Presence>, env: Env, threshold: int, tr: ScanTrace, s': Session)
    requires ScanStep(s, panes, env, threshold, tr, s') && WillDetach(s, panes, threshold)
    ensures s'.rows == map[]
  {
    DetachedIff(s, panes, tr.excused, threshold);
  }

  // ----- the whole scan -----

  /** A whole scan that starts in a reachable state, over panes with ids and pids of their
      own, and whose step 1 leaves the session its row map. */
  ghost predicate ScanOf(s: Session, panes: seq<Presence>, env: Env, threshold: int, tr: ScanTrace, s': Session) {
    && Inv(s, threshold) && DistinctPanes(panes) && ScanStep(s, panes, env, threshold, tr, s')
    && !WillDetach(s, panes, threshold) && PanesTraced(panes, env, tr)
  }

  lemma TracedIsWalk(panes: seq<Presence>, env: Env, tr: ScanTrace, threshold: int)
    requires PanesTraced(panes, env, tr) && DistinctPanes(panes) && Inv(tr.states[0], threshold)
    ensures Walk(panes, tr)
    ensures forall i :: 0 <= i < |panes| && tr.kept[i].Some? ==>
              OthersLive(tr.states[i + 1].rows, panes[i], tr.kept[i].value, env.alivePids)
  {
    forall n | 0 <= n <= |panes|
      ensures WellKeyed(tr.states[n].rows)
    {
      PanesKeepInv(panes, env, tr, n, threshold);
    }
    forall i | 0 <= i < |panes|
      ensures StepShape(tr.states[i].rows, tr.claims[i], panes[i], tr.states[i + 1].rows, tr.claims[i + 1], tr.kept[i])
      ensures tr.kept[i].Some? ==> OthersLive(tr.states[i + 1].rows, panes[i], tr.kept[i].value, env.alivePids)
    {
      PaneStepHasShape(tr.states[i], tr.claims[i], panes[i], env, tr.states[i + 1], tr.claims[i + 1], tr.kept[i]);
    }
  }

  lemma GhostsOwnNothing(s: Session, claimed: set<Key>)
    ensures forall k, pane :: Owns(ExitGhosts(s, claimed).rows, k, pane) <==> Owns(s.rows, k, pane)
    ensures forall k, pane :: Owns(s.rows, k, pane) ==> ExitGhosts(s, claimed).rows[k] == s.rows[k]
  {
  }

  lemma ScanIsWalk(s: Session, panes: seq<Presence>, env: Env, threshold: int, tr: ScanTrace, s': Session)
    requires ScanOf(s, panes, env, threshold, tr, s')
    ensures PanesTraced(panes, env, tr) && Walk(panes, tr) &&
        tr.states[0] == AfterMisses(s, panes, tr.excused, threshold)
    ensures forall i :: 0 <= i < |panes| && tr.kept[i].Some? ==>
              OthersLive(tr.states[i + 1].rows, panes[i], tr.kept[i].value, env.alivePids)
    ensures forall k, pane :: Owns(s'.rows, k, pane) <==> Owns(tr.states[|panes|].rows, k, pane)
    ensures forall k, pane :: Owns(s'.rows, k, pane) ==> s'.rows[k] == tr.states[|panes|].rows[k]
  {
    DetachedIff(s, panes, tr.excused, threshold);
    MissesKeepInv(s, panes, tr.excused, threshold);
    TracedIsWalk(panes, env, tr, threshold);
    GhostsOwnNothing(tr.states[|panes|], tr.claims[|panes|]);
  }

  /** One pane, one alive row: after the whole scan, every alive same-agent row on a scanned
      pane other than the row kept for it is a different process that still lives. */
  lemma OnlyLiveProcessesShareAPane(s: Session, panes: seq<Presence>, env: Env, threshold: int,
                                    tr: ScanTrace, s': Session, i: nat)
    requires ScanOf(s, panes, env, threshold, tr, s') && i < |panes| && tr.kept[i].Some?
    ensures OthersLive(s'.rows, panes[i], tr.kept[i].value, env.alivePids)
  {
    ScanIsWalk(s, panes, env, threshold, tr, s');
    OthersLiveUntil(panes, env, tr, i, |panes|);
  }

  /** A pane still owns its row after the whole scan if and only if no later pane of the
      agent keeps the same row or carries the pid the row had when the pane took it. */
  lemma PaneStaysOwnedIff(s: Session, panes: seq<Presence>, env: Env, threshold: int,
                          tr: ScanTrace, s': Session, i: nat, k: Key)
    requires ScanOf(s, panes, env, threshold, tr, s') && i < |panes| && tr.kept[i] == Some(k)
    ensures k in tr.states[i + 1].rows
    ensures Owns(s'.rows, k, panes[i].paneId) <==>
            Untaken(k, tr.states[i + 1].rows[k].pid, panes, tr.kept, i, |panes|)
  {
    ScanIsWalk(s, panes, env, threshold, tr, s');
    assert StepShape(tr.states[i].rows, tr.claims[i], panes[i], tr.states[i + 1].rows, tr.claims[i + 1], tr.kept[i]);
    OwnerUntil(panes, tr, i, |panes|, k, tr.states[i + 1].rows[k]);
  }

  lemma UnsuppressedIsKept(s: Session, panes: seq<Presence>, env: Env, tr: ScanTrace, i: nat)
    requires PanesTraced(panes, env, tr) && i < |panes| && tr.states[0].ended == s.ended
    requires !Suppressed(s, panes[i], env.now)
    ensures tr.kept[i].Some?
  {
    SuppressionsShrink(panes, env, tr, i);
    SuppressionStep(tr.states[i], tr.claims[i], panes[i], env, tr.states[i + 1], tr.claims[i + 1], tr.kept[i]);
  }
}
