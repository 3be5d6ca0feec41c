/** When every scanned pane ends with the row it got: why a pane loses its row, and the
    exact conditions, read off the rows before the first pane's turn. */
module PaneCoverage {
  import opened Wrappers
  import opened AgentModel
  import opened TrackerSpec
  import opened TrackerInvariants
  import opened ScanOwnership
  import opened OwnRows
  import opened FallbackPool

  /** The pane got a row of its agent and still owns it. */
  ghost predicate KeepsItsRow(rows: Rows, pa: Presence, kept: Option<Key>) {
    kept.Some? && kept.value.agent == pa.agent && Owns(rows, kept.value, pa.paneId)
  }

  // ----- why a pane loses its row -----

  /** The thread's row of pane j is claimable and carries the pid of pane i, which is later. */
  predicate CrossedPid(rows: Rows, panes: seq<Presence>, j: nat, i: nat) {
    && j < i < |panes| && panes[i].agent == panes[j].agent && ClaimableThread(rows, panes[j])
    && rows[Thread(panes[j].agent, panes[j].threadId)].pid == panes[i].pid
  }

  /** Pane i fell back on the pid-less row of pane j's thread, and pane j, later and with
      nothing to claim, minted over it. */
  ghost predicate FellBack(start: Start, tr: ScanTrace, i: nat, j: nat)
    requires |tr.kept| == |start.panes| && |tr.states| == |tr.claims| == |start.panes| + 1
  {
    && i < j < |start.panes| && start.panes[i].agent == start.panes[j].agent
    && var k := Thread(start.panes[j].agent, start.panes[j].threadId);
    && tr.kept[i] == tr.kept[j] == Some(k)
    && PidlessMatch(tr.states[i].rows, tr.claims[i], start.panes[i], k)
    && MayClaim(tr.states[i].rows, tr.claims[i], start.panes[i], k)
    && !HasMatch(tr.states[i].rows, tr.claims[i], start.panes[i])
    && forall q :: !MayClaim(tr.states[j].rows, tr.claims[j], start.panes[j], q)
  }

  /** Pane i still owns row k as it took it when it is pane j's turn. */
  ghost predicate OwnedUntil(start: Start, tr: ScanTrace, i: nat, j: nat, k: Key)
    requires |tr.kept| == |start.panes| && |tr.states| == |start.panes| + 1
  {
    && i < j < |start.panes| && tr.kept[i] == Some(k) && k in tr.states[i + 1].rows
    && Owns(tr.states[j].rows, k, start.panes[i].paneId) && tr.states[j].rows[k] == tr.states[i + 1].rows[k]
  }

  /** The kept row was claimed with the pid it has, or minted with the pane's. */
  lemma KeptOrigin(s: Session, claimed: set<Key>, pa: Presence, env: Env,
                   s': Session, claimed': set<Key>, k: Key)
    requires WellKeyed(s.rows) && PaneStep(s, claimed, pa, env, s', claimed', Some(k))
    ensures k in s'.rows && s'.rows[k].agent == pa.agent
    ensures
      || (MayClaim(s.rows, claimed, pa, k) && k in claimed' && k !in claimed && s'.rows[k].pid == s.rows[k].pid)
      || ((forall q :: !MayClaim(s.rows, claimed, pa, q)) && claimed' == claimed
          && k == MintKey(s.rows, pa) && s'.rows[k].pid == pa.pid)
  {
    if exists q :: MayClaim(s.rows, claimed, pa, q) {
      BindOwnRow(s, k, Stamp(s.rows[k], pa, pa.threadName), pa, env.alivePids);
    } else {
      BindOwnRow(Expire(s, pa), k, MintedRow(s.rows, pa, env.now), pa, env.alivePids);
    }
  }

  /** A later pane whose pid the row carries: the row was claimed by thread, and carried the
      pid from the start. */
  lemma TakenByPid(start: Start, env: Env, tr: ScanTrace, i: nat, j: nat, k: Key)
    requires Traced(start, env, tr) && DistinctThreads(start.panes) && OwnedUntil(start, tr, i, j, k)
    requires k.agent == start.panes[j].agent && tr.states[i + 1].rows[k].pid == start.panes[j].pid
    ensures CrossedPid(start.rows, start.panes, i, j)
    ensures k == Thread(start.panes[i].agent, start.panes[i].threadId)
  {
    var rows, claimed, pa := tr.states[i].rows, tr.claims[i], start.panes[i];
    StepOf(start, env, tr, i);
    KeptOrigin(tr.states[i], claimed, pa, env, tr.states[i + 1], tr.claims[i + 1], k);
    assert ThreadMatch(rows, claimed, pa, k);
    assert !MintedFor(start.panes, i, k, rows[k].pid);
    UnclaimedPersists(start.panes, tr, 0, i, k);
  }

  /** Another pane's alive row, of another pid and claimed if it has none, is kept only by
      minting over the pid-less row of the pane's own thread. */
  lemma ForeignKeptIsMinted(s: Session, claimed: set<Key>, pa: Presence, env: Env,
                            s': Session, claimed': set<Key>, k: Key)
    requires WellKeyed(s.rows) && PaneStep(s, claimed, pa, env, s', claimed', Some(k))
    requires k in s.rows && s.rows[k].liveness.Alive? && s.rows[k].pid != pa.pid && k != Pane(pa.agent, pa.paneId)
    requires s.rows[k].pid != 0 && k !in claimed ==> k != Thread(pa.agent, pa.threadId)
    requires s.rows[k].pid == 0 ==> k in claimed
    ensures (forall q :: !MayClaim(s.rows, claimed, pa, q))
    ensures k == Thread(pa.agent, pa.threadId) && s.rows[k].pid == 0
  {
    KeptOrigin(s, claimed, pa, env, s', claimed', k);
    assert !ThreadMatch(s.rows, claimed, pa, k) && !PidMatch(s.rows, claimed, pa, k);
    assert !PidlessMatch(s.rows, claimed, pa, k);
  }

  /** A pid-less row that is not the pane's thread's is claimed by fallback only. */
  lemma PidlessClaimFallsBack(rows: Rows, claimed: set<Key>, pa: Presence, k: Key)
    requires MayClaim(rows, claimed, pa, k) && rows[k].pid == 0 && k != Thread(pa.agent, pa.threadId)
    ensures PidlessMatch(rows, claimed, pa, k) && !HasMatch(rows, claimed, pa)
  {
    assert !ThreadMatch(rows, claimed, pa, k) && !PidMatch(rows, claimed, pa, k);
  }

  /** The row a pane keeps, which a later pane neither hosts nor resolves to, meets the
      conditions of the lemma before it as long as it stays as it was. */
  lemma KeptIsForeign(s: Session, claimed: set<Key>, pa: Presence, env: Env,
                      s': Session, claimed': set<Key>, k: Key, pb: Presence)
    requires WellKeyed(s.rows) && PaneStep(s, claimed, pa, env, s', claimed', Some(k))
    requires pa.pid != 0 && pa.agent == pb.agent && pa.paneId != pb.paneId
    requires pa.threadId != "" ==> pa.threadId != pb.threadId
    ensures k in s'.rows && k != Pane(pb.agent, pb.paneId)
    ensures s'.rows[k].pid != 0 && k !in claimed' ==> k != Thread(pb.agent, pb.threadId)
    ensures s'.rows[k].pid == 0 ==> k in claimed' && MayClaim(s.rows, claimed, pa, k) && s.rows[k].pid == 0
  {
    KeptOrigin(s, claimed, pa, env, s', claimed', k);
  }

  lemma TakenAtTurn(start: Start, env: Env, tr: ScanTrace, i: nat, j: nat, k: Key)
    requires Traced(start, env, tr) && DistinctThreads(start.panes) && OwnedUntil(start, tr, i, j, k)
    requires tr.kept[j] == Some(k) && tr.states[i + 1].rows[k].pid != start.panes[j].pid
    ensures k.agent == start.panes[i].agent == start.panes[j].agent
    ensures k == Thread(start.panes[j].agent, start.panes[j].threadId)
    ensures forall q :: !MayClaim(tr.states[j].rows, tr.claims[j], start.panes[j], q)
    ensures MayClaim(tr.states[i].rows, tr.claims[i], start.panes[i], k) && tr.states[i].rows[k].pid == 0
  {
    var pa, pb := start.panes[i], start.panes[j];
    StepOf(start, env, tr, i);
    StepOf(start, env, tr, j);
    KeptOrigin(tr.states[i], tr.claims[i], pa, env, tr.states[i + 1], tr.claims[i + 1], k);
    KeptOrigin(tr.states[j], tr.claims[j], pb, env, tr.states[j + 1], tr.claims[j + 1], k);
    KeptIsForeign(tr.states[i], tr.claims[i], pa, env, tr.states[i + 1], tr.claims[i + 1], k, pb);
    ClaimsGrow(start.panes, tr, i + 1, j);
    ForeignKeptIsMinted(tr.states[j], tr.claims[j], pb, env, tr.states[j + 1], tr.claims[j + 1], k);
  }

  /** A later pane of another pid that keeps the row: it minted over it. */
  lemma TakenByMint(start: Start, env: Env, tr: ScanTrace, i: nat, j: nat, k: Key)
    requires Traced(start, env, tr) && DistinctThreads(start.panes) && OwnedUntil(start, tr, i, j, k)
    requires tr.kept[j] == Some(k) && tr.states[i + 1].rows[k].pid != start.panes[j].pid
    ensures FellBack(start, tr, i, j)
  {
    TakenAtTurn(start, env, tr, i, j, k);
    assert start.panes[j].threadId != "" by {
      assert WellKeyed(tr.states[i].rows);
    }
    PidlessClaimFallsBack(tr.states[i].rows, tr.claims[i], start.panes[i], k);
  }

  /** Whoever takes an earlier pane's row either carries the pid of the row of that pane's
      thread, or mints over a row of its own thread on which that pane fell back. */
  lemma LossCause(start: Start, env: Env, tr: ScanTrace, i: nat, j: nat, k: Key)
    requires Traced(start, env, tr) && DistinctThreads(start.panes) && OwnedUntil(start, tr, i, j, k)
    requires Takes(k, tr.states[i + 1].rows[k].pid, start.panes[j], tr.kept[j])
    ensures (CrossedPid(start.rows, start.panes, i, j) && k == Thread(start.panes[i].agent, start.panes[i].threadId))
            || FellBack(start, tr, i, j)
  {
    if tr.states[i + 1].rows[k].pid == start.panes[j].pid {
      TakenByPid(start, env, tr, i, j, k);
    } else {
      TakenByMint(start, env, tr, i, j, k);
    }
  }

  lemma {:induction false} FirstTaker(k: Key, pid: int, panes: seq<Presence>, kept: seq<Option<Key>>, i: nat, n: nat)
    returns (j: nat)
    requires i < n <= |panes| == |kept| && !Untaken(k, pid, panes, kept, i, n)
    ensures i < j < n && Untaken(k, pid, panes, kept, i, j) && Takes(k, pid, panes[j], kept[j])
    decreases n
  {
    if i + 1 < n && !Untaken(k, pid, panes, kept, i, n - 1) {
      j := FirstTaker(k, pid, panes, kept, i, n - 1);
    } else {
      j := n - 1;
    }
  }

  lemma KeptIsOwnAgents(start: Start, env: Env, tr: ScanTrace, i: nat, k: Key)
    requires Traced(start, env, tr) && i < |start.panes| && tr.kept[i] == Some(k)
    ensures k.agent == start.panes[i].agent && k in tr.states[i + 1].rows
  {
    assert StepShape(tr.states[i].rows, tr.claims[i], start.panes[i], tr.states[i + 1].rows, tr.claims[i + 1],
                     tr.kept[i]);
  }

  /** A pane that got a row and lost it has it from a later pane, for one of two causes. */
  lemma LostIsTaken(start: Start, s: Session, panes: seq<Presence>, env: Env, threshold: int,
                    tr: ScanTrace, s': Session, i: nat, k: Key) returns (j: nat)
    requires ScanFrom(start, s, panes, env, threshold, tr, s') && DistinctThreads(panes)
    requires i < |panes| && tr.kept[i] == Some(k) && !KeepsItsRow(s'.rows, panes[i], tr.kept[i])
    ensures i < j < |panes| && tr.kept[j].Some?
    ensures (CrossedPid(start.rows, panes, i, j) && k == Thread(panes[i].agent, panes[i].threadId))
            || FellBack(start, tr, i, j)
  {
    ScanIsTraced(start, s, panes, env, threshold, tr, s');
    PaneStaysOwnedIff(s, panes, env, threshold, tr, s', i, k);
    KeptIsOwnAgents(start, env, tr, i, k);
    var r := tr.states[i + 1].rows[k];
    j := FirstTaker(k, r.pid, panes, tr.kept, i, |panes|);
    OwnerUntil(panes, tr, i, j, k, r);
    LossCause(start, env, tr, i, j, k);
  }

  /** A pane that got the row of a later pane's thread loses it if and only if that pane
      gets the row as well. */
  lemma FallbackLosesIff(s: Session, panes: seq<Presence>, env: Env, threshold: int,
                         tr: ScanTrace, s': Session, i: nat, j: nat)
    requires ScanOf(s, panes, env, threshold, tr, s') && DistinctThreads(panes)
    requires i < j < |panes| && panes[j].threadId != ""
    requires tr.kept[i] == Some(Thread(panes[j].agent, panes[j].threadId))
    ensures KeepsItsRow(s'.rows, panes[i], tr.kept[i]) <==> tr.kept[j] != tr.kept[i]
  {
    var start, k := StartOf(tr.states[0], panes, env), tr.kept[i].value;
    ScanIsTraced(start, s, panes, env, threshold, tr, s');
    KeptIsOwnAgents(start, env, tr, i, k);
    if !KeepsItsRow(s'.rows, panes[i], tr.kept[i]) {
      var m := LostIsTaken(start, s, panes, env, threshold, tr, s', i, k);
      assert FellBack(start, tr, i, m) && m == j;
    }
    if tr.kept[j] == tr.kept[i] {
      PaneStaysOwnedIff(s, panes, env, threshold, tr, s', i, k);
      assert Takes(k, tr.states[i + 1].rows[k].pid, panes[j], tr.kept[j]);
    }
  }

  // ----- a claimable thread's row that carries a later pane's pid -----

  /** The scan sees the crossed pid and finds its process alive. */
  ghost predicate LiveCrossing(start: Start, env: Env, tr: ScanTrace, j: nat, i: nat) {
    && Traced(start, env, tr) && DistinctThreads(start.panes)
    && j < i < |start.panes| && CrossedPid(start.rows, start.panes, j, i) && start.panes[i].pid in env.alivePids
  }

  /** The thread's pane claims the row, which keeps the other pane's pid. */
  lemma CrossedRowIsClaimed(start: Start, env: Env, tr: ScanTrace, j: nat, i: nat)
    requires LiveCrossing(start, env, tr, j, i)
    ensures
      var k := Thread(start.panes[j].agent, start.panes[j].threadId);
      tr.kept[j] == Some(k) && k in tr.states[j + 1].rows && tr.states[j + 1].rows[k].pid == start.panes[i].pid
  {
    var k := Thread(start.panes[j].agent, start.panes[j].threadId);
    FreeRowWaits(start, env, tr, k, j, j);
    StepOf(start, env, tr, j);
    assert ThreadMatch(tr.states[j].rows, tr.claims[j], start.panes[j], k);
    SomeClaim(tr.states[j].rows, tr.claims[j], start.panes[j], k);
    KeptOrigin(tr.states[j], tr.claims[j], start.panes[j], env, tr.states[j + 1], tr.claims[j + 1], tr.kept[j].value);
  }

  /** If a thread's row that step 1 leaves claimable carries the live pid of a later pane,
      the thread's pane gets the row, and loses it exactly when the later pane gets one. */
  lemma CrossedPidLosesIff(s: Session, panes: seq<Presence>, env: Env, threshold: int,
                           tr: ScanTrace, s': Session, j: nat, i: nat)
    requires ScanOf(s, panes, env, threshold, tr, s') && DistinctThreads(panes)
    requires CrossedPid(tr.states[0].rows, panes, j, i) && panes[i].pid in env.alivePids
    ensures tr.kept[j] == Some(Thread(panes[j].agent, panes[j].threadId))
    ensures KeepsItsRow(s'.rows, panes[j], tr.kept[j]) <==> tr.kept[i].None?
    ensures !Suppressed(s, panes[i], env.now) ==> tr.kept[i].Some?
  {
    var start, k := StartOf(tr.states[0], panes, env), Thread(panes[j].agent, panes[j].threadId);
    ScanIsTraced(start, s, panes, env, threshold, tr, s');
    CrossedRowIsClaimed(start, env, tr, j, i);
    if !KeepsItsRow(s'.rows, panes[j], tr.kept[j]) {
      var m := LostIsTaken(start, s, panes, env, threshold, tr, s', j, k);
      assert CrossedPid(start.rows, panes, j, m) && m == i;
    }
    if tr.kept[i].Some? {
      PaneStaysOwnedIff(s, panes, env, threshold, tr, s', j, k);
      assert Takes(k, panes[i].pid, panes[i], tr.kept[i]);
    }
    if !Suppressed(s, panes[i], env.now) {
      UnsuppressedIsKept(s, panes, env, tr, i);
    }
  }

  // ----- a pid-less thread's row that an earlier pane falls back on -----

  /** The row of pane j's thread is claimable and has no pid, pane j is not sure to claim
      anything, and pane i, in front of it, is not sure to leave the row to it; no pane of
      the agent in front of pane i retires the row from its own pane, and the pid-less rows
      are no more than the panes in front of pane j that may take one. */
  ghost predicate CrossedFallback(sure: Start, rows: Rows, i: nat, j: nat) {
    && i < j < |sure.panes| && sure.panes[i].agent == sure.panes[j].agent && ClaimableThread(rows, sure.panes[j])
    && var r := rows[Thread(sure.panes[j].agent, sure.panes[j].threadId)];
    && r.pid == 0 && !sure.Sure(j)
    && !(sure.Matched(i) || (sure.BoundSure(i) && r.paneId != sure.panes[i].paneId))
    && |Pool(sure, j)| <= Takers(sure, j)
    && forall h :: 0 <= h < i && sure.panes[h].agent == sure.panes[i].agent ==>
         !(r.liveness.Alive? && r.paneId == sure.panes[h].paneId)
  }

  ghost predicate NoCrossedPids(rows: Rows, panes: seq<Presence>) {
    forall j, i :: 0 <= j < i < |panes| ==> !CrossedPid(rows, panes, j, i)
  }

  ghost predicate NoCrossedFallbacks(sure: Start, rows: Rows) {
    forall i, j :: 0 <= i < j < |sure.panes| ==> !CrossedFallback(sure, rows, i, j)
  }

  /** No claimable thread's row carries the pid of a pane behind its own, or is a pid-less
      row that a pane in front of its own may fall back on. */
  ghost predicate NoCrossedRows(sure: Start, rows: Rows) {
    NoCrossedPids(rows, sure.panes) && NoCrossedFallbacks(sure, rows)
  }

  /** A pane loses a row it fell back on only if the two panes are crossed. */
  lemma FellBackIsCrossed(sure: Start, start: Start, rows: Rows, env: Env, tr: ScanTrace, i: nat, j: nat)
    requires Traced(start, env, tr) && DistinctThreads(start.panes) && FellBack(start, tr, i, j) && Within(sure, start)
    requires forall k :: k in start.rows && !start.rows[k].liveness.Exited? ==> k in rows && rows[k] == start.rows[k]
    ensures CrossedFallback(sure, rows, i, j)
  {
    var k := Thread(start.panes[j].agent, start.panes[j].threadId);
    FallbackPersists(start.panes, tr, i, k);
    assert WellKeyed(tr.states[0].rows) && k in start.rows && start.rows[k] == tr.states[i].rows[k];
    SettledWithin(sure, start, i);
    SettledWithin(sure, start, j);
    if start.Sure(j) {
      SureClaims(start, env, tr, j);
    }
    if |Pool(sure, j)| > Takers(sure, j) {
      PoolSuffices(sure, start, env, tr, j);
    }
    if start.Matched(i) {
      MatchedAtTurn(start, env, tr, i);
    } else if start.BoundSure(i) {
      BoundAtTurn(start, env, tr, i);
    }
    forall h | 0 <= h < i && start.panes[h].agent == start.panes[i].agent
      ensures !(start.rows[k].liveness.Alive? && start.rows[k].paneId == start.panes[h].paneId)
    {
      StandingWasNotRetired(start, env, tr, h, i, k);
    }
  }

  /** Every scanned pane whose end is not suppressed owns an alive row of its agent after
      the scan, provided the scanned threads are distinct, the session keeps its map, and no
      row is crossed; the rows are those before the scan, or all that step 1 leaves, and the
      sure ones among them any that step 1 leaves whichever it excuses. */
  lemma UncrossedPaneOwned(sure: Start, rows: Rows, s: Session, panes: seq<Presence>, env: Env, threshold: int,
                           tr: ScanTrace, s': Session, i: nat)
    requires ScanOf(s, panes, env, threshold, tr, s') && DistinctThreads(panes)
    requires Within(sure, StartOf(tr.states[0], panes, env)) && NoCrossedRows(sure, rows)
    requires forall k :: k in tr.states[0].rows && !tr.states[0].rows[k].liveness.Exited? ==>
               k in rows && rows[k] == tr.states[0].rows[k]
    requires i < |panes| && !Suppressed(s, panes[i], env.now)
    ensures KeepsItsRow(s'.rows, panes[i], tr.kept[i])
  {
    var start := StartOf(tr.states[0], panes, env);
    ScanIsTraced(start, s, panes, env, threshold, tr, s');
    UnsuppressedIsKept(s, panes, env, tr, i);
    if !KeepsItsRow(s'.rows, panes[i], tr.kept[i]) {
      var j := LostIsTaken(start, s, panes, env, threshold, tr, s', i, tr.kept[i].value);
      assert CrossedPid(start.rows, panes, i, j) ==> CrossedPid(rows, panes, i, j);
      if FellBack(start, tr, i, j) {
        FellBackIsCrossed(sure, start, rows, env, tr, i, j);
      }
      assert false;
    }
  }

  /** The same from the session as it is before the scan. */
  lemma EveryPaneOwned(s: Session, panes: seq<Presence>, env: Env, threshold: int,
                       tr: ScanTrace, s': Session, i: nat)
    requires ScanOf(s, panes, env, threshold, tr, s') && DistinctThreads(panes)
    requires NoCrossedRows(SureStart(s, panes, env, threshold), s.rows)
    requires i < |panes| && !Suppressed(s, panes[i], env.now)
    ensures KeepsItsRow(s'.rows, panes[i], tr.kept[i])
  {
    ScanIsWalk(s, panes, env, threshold, tr, s');
    MissesAreWithin(s, panes, env, tr.excused, threshold);
    UncrossedPaneOwned(SureStart(s, panes, env, threshold), s.rows, s, panes, env, threshold, tr, s', i);
  }

  // ----- the exact condition -----

  ghost predicate AllKeep(rows: Rows, panes: seq<Presence>, kept: seq<Option<Key>>)
    requires |kept| == |panes|
  {
    forall i :: 0 <= i < |panes| ==> KeepsItsRow(rows, panes[i], kept[i])
  }

  /** No pane's end is suppressed, and every scanned process is alive. */
  ghost predicate PlainScan(s: Session, panes: seq<Presence>, env: Env) {
    forall i :: 0 <= i < |panes| ==> !Suppressed(s, panes[i], env.now) && panes[i].pid in env.alivePids
  }

  lemma PlainIsKept(start: Start, s: Session, panes: seq<Presence>, env: Env, threshold: int,
                    tr: ScanTrace, s': Session)
    requires ScanFrom(start, s, panes, env, threshold, tr, s') && PlainScan(s, panes, env)
    ensures |tr.kept| == |panes| && forall h :: 0 <= h < |panes| ==> tr.kept[h].Some?
  {
    ScanIsTraced(start, s, panes, env, threshold, tr, s');
    forall h | 0 <= h < |panes|
      ensures tr.kept[h].Some?
    {
      UnsuppressedIsKept(s, panes, env, tr, h);
    }
  }

  /** A pid-less row of a thread has no pid until its own pane's turn. */
  lemma {:induction false} PidlessUntilItsPane(start: Start, env: Env, tr: ScanTrace, k: Key, n: nat)
    requires Traced(start, env, tr) && n <= |start.panes| && k.Thread? && k in start.rows && start.rows[k].pid == 0
    requires forall h :: 0 <= h < n ==> k != Thread(start.panes[h].agent, start.panes[h].threadId)
    ensures k in tr.states[n].rows && tr.states[n].rows[k].pid == 0
  {
    if n > 0 {
      var h := n - 1;
      PidlessUntilItsPane(start, env, tr, k, h);
      assert StepShape(tr.states[h].rows, tr.claims[h], start.panes[h], tr.states[n].rows, tr.claims[n], tr.kept[h]);
    }
  }

  /** The row a pane can fall back on is the agent's only pid-less row of the start. */
  lemma OnlyFallback(start: Start, env: Env, tr: ScanTrace, j: nat, k: Key, q: Key)
    requires Traced(start, env, tr) && j < |start.panes| && start.panes[j].agent == k.agent
    requires OnePidlessOf(start.rows, k.agent) && CanFallBack(start.rows, k)
    requires PidlessMatch(tr.states[j].rows, tr.claims[j], start.panes[j], q)
    ensures q == k
  {
    FallbackPersists(start.panes, tr, j, q);
    assert WellKeyed(tr.states[0].rows);
    assert CanFallBack(start.rows, q);
  }

  /** A thread's pane that finds its pid-less row claimed and nothing else mints over it. */
  lemma MintsOver(start: Start, env: Env, tr: ScanTrace, j: nat, k: Key)
    requires Traced(start, env, tr) && DistinctThreads(start.panes) && PidlessRowOf(start, j, k)
    requires k in tr.claims[j] && tr.kept[j].Some?
    requires forall q :: !PidMatch(tr.states[j].rows, tr.claims[j], start.panes[j], q)
    requires forall q :: !PidlessMatch(tr.states[j].rows, tr.claims[j], start.panes[j], q)
    ensures tr.kept[j] == Some(k)
  {
    var rows, claimed, pa := tr.states[j].rows, tr.claims[j], start.panes[j];
    StepOf(start, env, tr, j);
    PidlessUntilItsPane(start, env, tr, k, j);
    assert forall q :: !MayClaim(rows, claimed, pa, q);
    assert MintKey(rows, pa) == k;
  }

  lemma NoFallbackLeft(start: Start, env: Env, tr: ScanTrace, j: nat, k: Key)
    requires Traced(start, env, tr) && PidlessRowOf(start, j, k)
    requires OnePidlessOf(start.rows, k.agent) && k in tr.claims[j]
    ensures forall q :: !PidlessMatch(tr.states[j].rows, tr.claims[j], start.panes[j], q)
  {
    forall q
      ensures !PidlessMatch(tr.states[j].rows, tr.claims[j], start.panes[j], q)
    {
      if PidlessMatch(tr.states[j].rows, tr.claims[j], start.panes[j], q) {
        OnlyFallback(start, env, tr, j, k, q);
        assert false;
      }
    }
  }

  /** Row k is pane j's thread's, may be claimed, and has no pid. */
  ghost predicate PidlessRowOf(start: Start, j: nat, k: Key) {
    j < |start.panes| && start.PidlessThread(j) && k == Thread(start.panes[j].agent, start.panes[j].threadId)
  }

  /** Pane i, in front of pane j, is the agent's first that is not sure to claim by thread or
      process, and those in front of it do not retire row k. */
  ghost predicate IsFront(start: Start, i: nat, j: nat, k: Key) {
    && i < j < |start.panes| && start.panes[i].agent == k.agent && !start.Matched(i) && k in start.rows
    && forall h :: 0 <= h < i && start.panes[h].agent == k.agent ==>
         && start.Matched(h)
         && !(start.rows[k].liveness.Alive? && start.rows[k].paneId == start.panes[h].paneId)
  }

  lemma FrontRowIsFree(start: Start, env: Env, tr: ScanTrace, i: nat, j: nat, k: Key)
    requires Traced(start, env, tr) && DistinctThreads(start.panes)
    requires PidlessRowOf(start, j, k) && IsFront(start, i, j, k)
    ensures start.Free(k, i)
    ensures forall h :: 0 <= h < i && start.panes[h].agent == k.agent ==> tr.kept[h].Some?
  {
    forall h | 0 <= h < i && start.panes[h].agent == k.agent
      ensures tr.kept[h].Some?
    {
      SureClaims(start, env, tr, h);
      StepOf(start, env, tr, h);
    }
    forall h | 0 <= h < i
      ensures start.Spares(h, k)
    {
    }
  }

  lemma FrontPaneTakes(start: Start, env: Env, tr: ScanTrace, i: nat, j: nat, k: Key)
    requires Traced(start, env, tr) && DistinctThreads(start.panes) && OnePidlessOf(start.rows, k.agent)
    requires PidlessRowOf(start, j, k) && IsFront(start, i, j, k)
    ensures tr.kept[i] == Some(k) && k in tr.claims[j]
  {
    FrontRowIsFree(start, env, tr, i, j, k);
    FreeRowWaits(start, env, tr, k, i, i);
    if HasMatch(tr.states[i].rows, tr.claims[i], start.panes[i]) {
      MatchedExactly(start, env, tr, i);
    }
    StepOf(start, env, tr, i);
    var q := FallsBackOnPidless(start, env, tr, i, k);
    assert CanFallBack(start.rows, k) && CanFallBack(start.rows, q);
    ClaimsGrow(start.panes, tr, i + 1, j);
  }

  /** A pane in front that gets the row fell back on it. */
  lemma EarlierTakerFellBack(start: Start, env: Env, tr: ScanTrace, i: nat, j: nat, k: Key)
    requires Traced(start, env, tr) && DistinctThreads(start.panes) && PidlessRowOf(start, j, k)
    requires i < j && tr.kept[i] == Some(k)
    ensures PidlessMatch(tr.states[i].rows, tr.claims[i], start.panes[i], k) && start.panes[i].agent == k.agent
    ensures !HasMatch(tr.states[i].rows, tr.claims[i], start.panes[i]) && k in tr.claims[j]
  {
    StepOf(start, env, tr, i);
    KeptOrigin(tr.states[i], tr.claims[i], start.panes[i], env, tr.states[i + 1], tr.claims[i + 1], k);
    PidlessUntilItsPane(start, env, tr, k, i);
    PidlessUntilItsPane(start, env, tr, k, i + 1);
    PidlessClaimFallsBack(tr.states[i].rows, tr.claims[i], start.panes[i], k);
    ClaimsGrow(start.panes, tr, i + 1, j);
  }

  /** And then it is the front one. */
  lemma TakerIsFront(start: Start, env: Env, tr: ScanTrace, i: nat, j: nat, k: Key)
    requires Traced(start, env, tr) && DistinctThreads(start.panes) && OnePidlessOf(start.rows, k.agent)
    requires PidlessRowOf(start, j, k) && i < j && tr.kept[i] == Some(k)
    requires forall h :: 0 <= h < i && start.panes[h].agent == k.agent ==> tr.kept[h].Some?
    ensures IsFront(start, i, j, k)
  {
    EarlierTakerFellBack(start, env, tr, i, j, k);
    FallbackPersists(start.panes, tr, i, k);
    if start.Matched(i) {
      MatchedAtTurn(start, env, tr, i);
    }
    forall h | 0 <= h < i && start.panes[h].agent == k.agent
      ensures start.Matched(h)
      ensures !(start.rows[k].liveness.Alive? && start.rows[k].paneId == start.panes[h].paneId)
    {
      StandingWasNotRetired(start, env, tr, h, i, k);
      if !start.Matched(h) {
        PassedMatched(start, env, tr, h, i, k);
      }
    }
  }

  lemma PassedMatched(start: Start, env: Env, tr: ScanTrace, h: nat, i: nat, k: Key)
    requires Traced(start, env, tr) && DistinctThreads(start.panes) && OnePidlessOf(start.rows, k.agent)
    requires h < i < |start.panes| && start.panes[h].agent == start.panes[i].agent == k.agent
    requires PidlessMatch(tr.states[i].rows, tr.claims[i], start.panes[i], k)
    requires forall g :: 0 <= g < h && start.panes[g].agent == k.agent ==> tr.kept[g].Some?
    ensures start.Matched(h)
  {
    FallbackPersists(start.panes, tr, i, k);
    assert k in tr.states[h].rows && k !in tr.claims[h + 1];
    if HasMatch(tr.states[h].rows, tr.claims[h], start.panes[h]) {
      MatchedExactly(start, env, tr, h);
    } else {
      var q := FallsBackOnPidless(start, env, tr, h, k);
      assert CanFallBack(start.rows, k) && CanFallBack(start.rows, q);
    }
  }

  /** If the row of pane j's thread is its agent's only pid-less row, a pane in front gets it
      if and only if it is the agent's first that is not sure of its own, and then loses it
      if and only if pane j is not sure of another. */
  lemma FrontPaneTakesIff(s: Session, panes: seq<Presence>, env: Env, threshold: int,
                          tr: ScanTrace, s': Session, i: nat, j: nat, k: Key)
    requires ScanOf(s, panes, env, threshold, tr, s') && DistinctThreads(panes) && PlainScan(s, panes, env)
    requires PidlessRowOf(StartOf(tr.states[0], panes, env), j, k) && OnePidlessOf(tr.states[0].rows, k.agent)
    requires i < j
    ensures
      var start := StartOf(tr.states[0], panes, env);
      && (tr.kept[i] == Some(k) <==> IsFront(start, i, j, k))
      && (tr.kept[i] == Some(k) ==> (KeepsItsRow(s'.rows, panes[i], tr.kept[i]) <==> start.Matched(j)))
  {
    var start := StartOf(tr.states[0], panes, env);
    ScanIsTraced(start, s, panes, env, threshold, tr, s');
    PlainIsKept(start, s, panes, env, threshold, tr, s');
    if IsFront(start, i, j, k) {
      FrontPaneTakes(start, env, tr, i, j, k);
    }
    if tr.kept[i] == Some(k) {
      TakerIsFront(start, env, tr, i, j, k);
      EarlierTakerFellBack(start, env, tr, i, j, k);
      FallbackLosesIff(s, panes, env, threshold, tr, s', i, j);
      RowGoesBackIff(start, env, tr, j, k);
    }
  }

  /** The thread's pane, its row claimed, gets it exactly when it is not sure of another. */
  lemma RowGoesBackIff(start: Start, env: Env, tr: ScanTrace, j: nat, k: Key)
    requires Traced(start, env, tr) && DistinctThreads(start.panes) && PidlessRowOf(start, j, k)
    requires OnePidlessOf(start.rows, k.agent) && k in tr.claims[j]
    requires forall h :: 0 <= h <= j ==> tr.kept[h].Some?
    ensures tr.kept[j] == Some(k) <==> !start.Matched(j)
  {
    StepOf(start, env, tr, j);
    if start.Matched(j) {
      MatchedAtTurn(start, env, tr, j);
      SureClaims(start, env, tr, j);
    } else {
      if HasMatch(tr.states[j].rows, tr.claims[j], start.panes[j]) {
        MatchedExactly(start, env, tr, j);
      }
      NoFallbackLeft(start, env, tr, j, k);
      MintsOver(start, env, tr, j, k);
    }
  }

  /** A pid-less row that the agent's panes do not retire stands until a pane keeps it. */
  lemma {:induction false} StandsOrTaken(start: Start, env: Env, tr: ScanTrace, j: nat, k: Key, n: nat)
    requires Traced(start, env, tr) && DistinctThreads(start.panes) && PidlessRowOf(start, j, k) && n <= j
    requires forall h :: 0 <= h < n && start.panes[h].agent == k.agent ==>
               !(start.rows[k].liveness.Alive? && start.rows[k].paneId == start.panes[h].paneId)
    ensures Stands(start, tr, k, n) || exists h :: 0 <= h < n && tr.kept[h] == Some(k)
  {
    if n > 0 {
      var h := n - 1;
      StandsOrTaken(start, env, tr, j, k, h);
      StepOf(start, env, tr, h);
      if Stands(start, tr, k, h) && tr.kept[h] != Some(k) {
        StepLeaves(tr.states[h], tr.claims[h], start.panes[h], env, tr.states[n], tr.claims[n], tr.kept[h], k);
      }
    }
  }

  /** Of a crossed pair, the pane in front takes the row if no pane before it does. */
  lemma CrossedFrontTakes(start: Start, env: Env, tr: ScanTrace, i: nat, j: nat, k: Key) returns (h: nat)
    requires Traced(start, env, tr) && DistinctThreads(start.panes) && PidlessRowOf(start, j, k)
    requires CrossedFallback(start, start.rows, i, j) && OnePidlessOf(start.rows, k.agent)
    requires forall g :: 0 <= g < i ==> tr.kept[g].Some?
    ensures h < j && tr.kept[h] == Some(k)
  {
    StandsOrTaken(start, env, tr, j, k, i);
    if Stands(start, tr, k, i) {
      h := i;
      StepOf(start, env, tr, i);
      if HasMatch(tr.states[i].rows, tr.claims[i], start.panes[i]) {
        MatchedExactly(start, env, tr, i);
      }
      var q := FallsBackOnPidless(start, env, tr, i, k);
      assert CanFallBack(start.rows, k) && CanFallBack(start.rows, q);
    } else {
      h :| 0 <= h < i && tr.kept[h] == Some(k);
    }
  }

  /** Where the agent has one pid-less row, a crossed pair costs a pane its row. */
  lemma CrossedFallbackLoses(s: Session, panes: seq<Presence>, env: Env, threshold: int,
                             tr: ScanTrace, s': Session, i: nat, j: nat)
    requires ScanOf(s, panes, env, threshold, tr, s') && DistinctThreads(panes) && PlainScan(s, panes, env)
    requires CrossedFallback(StartOf(tr.states[0], panes, env), tr.states[0].rows, i, j)
    requires OnePidlessOf(tr.states[0].rows, panes[j].agent)
    ensures !AllKeep(s'.rows, panes, tr.kept)
  {
    var start, k := StartOf(tr.states[0], panes, env), Thread(panes[j].agent, panes[j].threadId);
    ScanIsTraced(start, s, panes, env, threshold, tr, s');
    PlainIsKept(start, s, panes, env, threshold, tr, s');
    var h := CrossedFrontTakes(start, env, tr, i, j, k);
    EarlierTakerFellBack(start, env, tr, h, j, k);
    RowGoesBackIff(start, env, tr, j, k);
    FallbackLosesIff(s, panes, env, threshold, tr, s', h, j);
  }

  /** And so it does where the agent's rows are a pool, whoever takes which. */
  lemma PoolLoses(s: Session, panes: seq<Presence>, env: Env, threshold: int,
                  tr: ScanTrace, s': Session, i: nat, j: nat)
    requires ScanOf(s, panes, env, threshold, tr, s') && DistinctThreads(panes) && PlainScan(s, panes, env)
    requires CrossedFallback(StartOf(tr.states[0], panes, env), tr.states[0].rows, i, j)
    requires Pooled(StartOf(tr.states[0], panes, env), panes[j].agent)
    ensures !AllKeep(s'.rows, panes, tr.kept)
  {
    var start, k := StartOf(tr.states[0], panes, env), Thread(panes[j].agent, panes[j].threadId);
    ScanIsTraced(start, s, panes, env, threshold, tr, s');
    PlainIsKept(start, s, panes, env, threshold, tr, s');
    PoolIsEmpty(start, env, tr, j);
    NoPidRowAtTurn(start, env, tr, j);
    var h := PoolRowIsTaken(start, env, tr, j, k);
    EarlierTakerFellBack(start, env, tr, h, j, k);
    MintsOver(start, env, tr, j, k);
    FallbackLosesIff(s, panes, env, threshold, tr, s', h, j);
  }

  /** The thread's row, gone from the pool at its pane's turn, was kept by a pane before. */
  lemma PoolRowIsTaken(start: Start, env: Env, tr: ScanTrace, j: nat, k: Key) returns (h: nat)
    requires Traced(start, env, tr) && DistinctThreads(start.panes) && PidlessRowOf(start, j, k)
    requires Pooled(start, k.agent)
    requires forall q :: !PidlessMatch(tr.states[j].rows, tr.claims[j], start.panes[j], q)
    ensures h < j && tr.kept[h] == Some(k)
  {
    assert WellKeyed(tr.states[0].rows) && WellKeyed(tr.states[j].rows);
    assert CanFallBack(start.rows, k) && !OnScannedPane(start, start.rows[k], |start.panes|);
    StandsOrTaken(start, env, tr, j, k, j);
    assert Stands(start, tr, k, j) ==> PidlessMatch(tr.states[j].rows, tr.claims[j], start.panes[j], k);
    h :| 0 <= h < j && tr.kept[h] == Some(k);
  }

  /** A pane of a pool that is not sure of its thread or process has no row of its process. */
  lemma NoPidRowAtTurn(start: Start, env: Env, tr: ScanTrace, j: nat)
    requires Traced(start, env, tr) && DistinctThreads(start.panes) && j < |start.panes|
    requires Pooled(start, start.panes[j].agent) && !start.Matched(j)
    ensures forall q :: !PidMatch(tr.states[j].rows, tr.claims[j], start.panes[j], q)
  {
    assert NoPidRow(start, j);
    forall q
      ensures !PidMatch(tr.states[j].rows, tr.claims[j], start.panes[j], q)
    {
      if PidMatch(tr.states[j].rows, tr.claims[j], start.panes[j], q) {
        MatchStands(start, env, tr, j, q);
        assert Stands(start, tr, q, j);
        assert PidMatch(start.rows, {}, start.panes[j], q);
        assert false;
      }
    }
  }

  /** Each pane is settled, its agent has at most one pid-less row, or its agent's pid-less
      rows are a pool. */
  ghost predicate OutcomeFree(start: Start) {
    forall i :: 0 <= i < |start.panes| ==> Decided(start, i) || Pooled(start, start.panes[i].agent)
  }

  /** All panes end with the row they got if and only if no row that step 1 leaves is
      crossed: in every scan in which each pane is settled, or its agent has at most one
      pid-less row, or its agent's rows are a pool, and in every scan in which no pane may
      fall back on a later pane's row. */
  lemma AllKeepIff(s: Session, panes: seq<Presence>, env: Env, threshold: int, tr: ScanTrace, s': Session)
    requires ScanOf(s, panes, env, threshold, tr, s') && DistinctThreads(panes) && PlainScan(s, panes, env)
    requires
      var start := StartOf(tr.states[0], panes, env);
      OutcomeFree(start) || NoCrossedFallbacks(start, start.rows)
    ensures AllKeep(s'.rows, panes, tr.kept) <==>
            NoCrossedRows(StartOf(tr.states[0], panes, env), tr.states[0].rows)
  {
    var start := StartOf(tr.states[0], panes, env);
    if NoCrossedRows(start, start.rows) {
      forall i | 0 <= i < |panes|
        ensures KeepsItsRow(s'.rows, panes[i], tr.kept[i])
      {
        UncrossedPaneOwned(start, start.rows, s, panes, env, threshold, tr, s', i);
      }
    } else if !NoCrossedPids(start.rows, panes) {
      var j, i :| 0 <= j < i < |panes| && CrossedPid(start.rows, panes, j, i);
      CrossedPidLosesIff(s, panes, env, threshold, tr, s', j, i);
    } else {
      var i, j :| 0 <= i < j < |panes| && CrossedFallback(start, start.rows, i, j);
      if Decided(start, j) {
        CrossedFallbackLoses(s, panes, env, threshold, tr, s', i, j);
      } else {
        PoolLoses(s, panes, env, threshold, tr, s', i, j);
      }
    }
  }

  /** No row is on its last grace scan. */
  ghost predicate NoneDue(s: Session, panes: seq<Presence>, threshold: int) {
    Due(s, MissingKeys(s.rows, ActivePanes(panes)), threshold) == {}
  }

  lemma NoneDueKeepsRows(s: Session, panes: seq<Presence>, excused: set<Key>, threshold: int)
    requires NoneDue(s, panes, threshold)
    ensures AfterMisses(s, panes, excused, threshold).rows == s.rows
  {
    var missed := MissingKeys(s.rows, ActivePanes(panes)) - excused;
    assert forall k :: k in Due(s, missed, threshold) ==>
        k in Due(s, MissingKeys(s.rows, ActivePanes(panes)), threshold);
    assert Due(s, missed, threshold) == {};
    assert AfterMisses(s, panes, excused, threshold).rows == s.rows;
  }

  /** The same read off the session before the scan: while no row is on its last grace scan,
      its own rows decide. */
  lemma AllKeepBeforehandIff(s: Session, panes: seq<Presence>, env: Env, threshold: int, tr: ScanTrace, s': Session)
    requires ScanOf(s, panes, env, threshold, tr, s') && DistinctThreads(panes) && PlainScan(s, panes, env)
    requires NoneDue(s, panes, threshold)
    requires OutcomeFree(StartOf(s, panes, env)) || NoCrossedFallbacks(StartOf(s, panes, env), s.rows)
    ensures AllKeep(s'.rows, panes, tr.kept) <==> NoCrossedRows(StartOf(s, panes, env), s.rows)
  {
    ScanIsWalk(s, panes, env, threshold, tr, s');
    NoneDueKeepsRows(s, panes, tr.excused, threshold);
    assert StartOf(tr.states[0], panes, env) == StartOf(s, panes, env);
    AllKeepIff(s, panes, env, threshold, tr, s');
  }

  /** The agent's first pane, in the session before the scan, that is not sure of its own is
      sure to fall back on the only pid-less row when no row is missing from it. */
  ghost predicate IsFrontBeforehand(s: Session, panes: seq<Presence>, env: Env, threshold: int,
                                    i: nat, j: nat, k: Key) {
    && i < j < |panes| && panes[i].agent == k.agent && !StartOf(s, panes, env).Matched(i)
    && !IsMissing(s.rows, ActivePanes(panes), k) && PidlessRowOf(StartOf(s, panes, env), j, k)
    && forall h :: 0 <= h < i && panes[h].agent == k.agent ==>
         && SureStart(s, panes, env, threshold).Matched(h)
         && !(s.rows[k].liveness.Alive? && s.rows[k].paneId == panes[h].paneId)
  }

  lemma MissesKeepFront(s: Session, panes: seq<Presence>, env: Env, excused: set<Key>, threshold: int,
                        i: nat, j: nat, k: Key)
    requires IsFrontBeforehand(s, panes, env, threshold, i, j, k)
    requires WellKeyed(s.rows) && OnePidlessOf(s.rows, k.agent)
    ensures
      var start := StartOf(AfterMisses(s, panes, excused, threshold), panes, env);
      IsFront(start, i, j, k) && PidlessRowOf(start, j, k) && OnePidlessOf(start.rows, k.agent)
  {
    var start := StartOf(AfterMisses(s, panes, excused, threshold), panes, env);
    MissesAreWithin(s, panes, env, excused, threshold);
    SettledWithin(start, StartOf(s, panes, env), i);
    forall h | 0 <= h < i && panes[h].agent == k.agent
      ensures start.Matched(h)
    {
      SettledWithin(SureStart(s, panes, env, threshold), start, h);
    }
    assert k in start.rows && start.rows[k] == s.rows[k];
    forall q | CanFallBack(start.rows, q)
      ensures CanFallBack(s.rows, q) && s.rows[q] == start.rows[q]
    {
    }
  }

  /** In every scan before which the row of pane j's thread, itself not missing, is its
      agent's only pid-less row, the first pane of the agent not sure of its own falls back
      on it, loses it exactly when pane j gets it, and so does lose it when pane j is not
      suppressed and finds no row of its process. */
  lemma FrontPaneFallsBack(s: Session, panes: seq<Presence>, env: Env, threshold: int,
                           tr: ScanTrace, s': Session, i: nat, j: nat, k: Key)
    requires ScanOf(s, panes, env, threshold, tr, s') && DistinctThreads(panes)
    requires OnePidlessOf(s.rows, k.agent) && IsFrontBeforehand(s, panes, env, threshold, i, j, k)
    ensures tr.kept[i] == Some(k)
    ensures KeepsItsRow(s'.rows, panes[i], tr.kept[i]) <==> tr.kept[j] != Some(k)
    ensures !Suppressed(s, panes[j], env.now) && (forall q :: !PidMatch(s.rows, {}, panes[j], q)) ==>
              tr.kept[j] == Some(k)
  {
    var start := StartOf(tr.states[0], panes, env);
    ScanIsTraced(start, s, panes, env, threshold, tr, s');
    MissesKeepFront(s, panes, env, tr.excused, threshold, i, j, k);
    FrontPaneTakes(start, env, tr, i, j, k);
    FallbackLosesIff(s, panes, env, threshold, tr, s', i, j);
    if !Suppressed(s, panes[j], env.now) && forall q :: !PidMatch(s.rows, {}, panes[j], q) {
      UnsuppressedIsKept(s, panes, env, tr, j);
      NoProcessRow(start, s, env, threshold, tr, j);
      NoFallbackLeft(start, env, tr, j, k);
      MintsOver(start, env, tr, j, k);
    }
  }

  /** A process without a row before the scan has none at its pane's turn. */
  lemma NoProcessRow(start: Start, s: Session, env: Env, threshold: int, tr: ScanTrace, j: nat)
    requires Traced(start, env, tr) && DistinctThreads(start.panes) && j < |start.panes|
    requires start.rows == AfterMisses(s, start.panes, tr.excused, threshold).rows
    requires forall q :: !PidMatch(s.rows, {}, start.panes[j], q)
    ensures forall q :: !PidMatch(tr.states[j].rows, tr.claims[j], start.panes[j], q)
  {
    forall q
      ensures !PidMatch(tr.states[j].rows, tr.claims[j], start.panes[j], q)
    {
      if PidMatch(tr.states[j].rows, tr.claims[j], start.panes[j], q) {
        MatchStands(start, env, tr, j, q);
        assert Stands(start, tr, q, j);
        assert PidMatch(s.rows, {}, start.panes[j], q);
        assert false;
      }
    }
  }
}
