/** Which panes of a scan are sure of a claim, read off the rows before the first pane's
    turn: a pane's own thread, process or bound row, left alone by every pane in front. */
module OwnRows {
  import opened Wrappers
  import opened AgentModel
  import opened TrackerSpec
  import opened TrackerInvariants
  import opened ScanOwnership

  ghost predicate DistinctThreads(panes: seq<Presence>) {
    forall i, j :: 0 <= i < j < |panes| && panes[i].agent == panes[j].agent && panes[i].threadId != "" ==>
      panes[i].threadId != panes[j].threadId
  }

  /** The row of the pane's thread, where a scan may still claim it. */
  predicate ClaimableThread(rows: Rows, pa: Presence) {
    && pa.threadId != "" && Thread(pa.agent, pa.threadId) in rows
    && !rows[Thread(pa.agent, pa.threadId)].liveness.Exited?
  }

  /** What step 2 of a scan starts from. */
  datatype Start = Start(rows: Rows, panes: seq<Presence>, alivePids: set<int>) {

    /** Pane h leaves row x alone. The row is not of its thread or process and not a dead
        process's row on its pane; a pid-less row is safe from its fallback only when its
        thread or process, or for a row on another pane a pid-less row on its own, decides. */
    ghost predicate Spares(h: nat, x: Key)
      requires h < |panes| && x in rows
      decreases h, 4
    {
      var pa, r := panes[h], rows[x];
      pa.agent == x.agent ==>
        && x != Thread(pa.agent, pa.threadId)
        && !(r.liveness.Alive? && r.paneId == pa.paneId && !(r.pid != 0 && r.pid in alivePids))
        && if r.pid != 0 then r.pid != pa.pid else Matched(h) || (BoundSure(h) && r.paneId != pa.paneId)
    }

    /** Every pane in front of pane i leaves row x alone. */
    ghost predicate Free(x: Key, i: nat)
      requires i <= |panes|
      decreases i, 0
    {
      x in rows && forall h :: 0 <= h < i ==> Spares(h, x)
    }

    ghost predicate OwnThread(i: nat)
      requires i < |panes|
      decreases i, 1
    {
      ClaimableThread(rows, panes[i]) && Free(Thread(panes[i].agent, panes[i].threadId), i)
    }

    ghost predicate OwnProcess(i: nat)
      requires i < |panes|
      decreases i, 1
    {
      exists r :: PidMatch(rows, {}, panes[i], r) && Free(r, i)
    }

    /** Some pid-less row is on the pane. */
    ghost predicate BoundSure(i: nat)
      requires i < |panes|
      decreases i, 1
    {
      exists b :: PidlessBound(rows, {}, panes[i], b) && Free(b, i)
    }

    /** Exactly one is. */
    ghost predicate OwnBound(i: nat)
      requires i < |panes|
    {
      exists b :: PidlessBound(rows, {}, panes[i], b) && Free(b, i) && OnlyBound(i, b)
    }

    ghost predicate OnlyBound(i: nat, b: Key)
      requires i < |panes|
    {
      forall q :: PidlessBound(rows, {}, panes[i], q) ==> q == b
    }

    /** Pane i claims by thread or by process. */
    ghost predicate Matched(i: nat)
      requires i < |panes|
      decreases i, 2
    {
      OwnThread(i) || OwnProcess(i)
    }

    /** The row of pane i's thread may be claimed and has no pid. */
    predicate PidlessThread(i: nat)
      requires i < |panes|
    {
      ClaimableThread(rows, panes[i]) && rows[Thread(panes[i].agent, panes[i].threadId)].pid == 0
    }

    /** A row with a pid is there for pane i, its thread's or its process's. */
    ghost predicate SureOfPid(i: nat)
      requires i < |panes|
    {
      exists r ::
        && (ThreadMatch(rows, {}, panes[i], r) || PidMatch(rows, {}, panes[i], r))
        && rows[r].pid != 0 && Free(r, i)
    }

    /** Pane i is sure to claim something. */
    ghost predicate Sure(i: nat)
      requires i < |panes|
    {
      Matched(i) || BoundSure(i)
    }

    /** Pane i claims one and the same row in every map order. */
    ghost predicate Settled(i: nat)
      requires i < |panes|
    {
      Matched(i) || OwnBound(i)
    }
  }

  ghost predicate Traced(start: Start, env: Env, tr: ScanTrace) {
    && Walk(start.panes, tr) && PanesTraced(start.panes, env, tr)
    && start.rows == tr.states[0].rows && start.alivePids == env.alivePids
  }

  /** A thread's or process's row decides the claim. */
  ghost predicate HasMatch(rows: Rows, claimed: set<Key>, pa: Presence) {
    exists k :: ThreadMatch(rows, claimed, pa, k) || PidMatch(rows, claimed, pa, k)
  }

  ghost predicate HasBound(rows: Rows, claimed: set<Key>, pa: Presence) {
    exists k :: PidlessBound(rows, claimed, pa, k)
  }

  // ----- one step -----

  /** The pane retires the row if it keeps another. */
  predicate Retires(pa: Presence, r: Row, alivePids: set<int>) {
    r.agent == pa.agent &&
    ((r.pid != 0 && r.pid == pa.pid)
     || (r.liveness.Alive? && r.paneId == pa.paneId && !(r.pid != 0 && r.pid in alivePids)))
  }

  lemma StepLeaves(s: Session, claimed: set<Key>, pa: Presence, env: Env,
                   s': Session, claimed': set<Key>, kept: Option<Key>, x: Key)
    requires PaneStep(s, claimed, pa, env, s', claimed', kept) && kept != Some(x)
    requires x in s.rows && !Retires(pa, s.rows[x], env.alivePids)
    ensures x in s'.rows && s'.rows[x] == s.rows[x]
    ensures x in claimed' <==> x in claimed
  {
  }

  /** A row of another thread and process is kept only by a fallback that nothing of the
      pane's own forestalls. */
  lemma NotKept(s: Session, claimed: set<Key>, pa: Presence, env: Env,
                s': Session, claimed': set<Key>, kept: Option<Key>, x: Key)
    requires WellKeyed(s.rows) && PaneStep(s, claimed, pa, env, s', claimed', kept)
    requires x in s.rows && !Synthetic(x)
    requires x.agent == pa.agent ==>
               && x != Thread(pa.agent, pa.threadId)
               && if s.rows[x].pid != 0 then s.rows[x].pid != pa.pid
                  else HasMatch(s.rows, claimed, pa)
                       || (HasBound(s.rows, claimed, pa) && s.rows[x].paneId != pa.paneId)
    ensures kept != Some(x)
  {
    if exists k :: MayClaim(s.rows, claimed, pa, k) {
      assert !ThreadMatch(s.rows, claimed, pa, x) && !PidMatch(s.rows, claimed, pa, x);
      assert PidlessMatch(s.rows, claimed, pa, x) ==> !MayClaim(s.rows, claimed, pa, x);
    } else if HasMatch(s.rows, claimed, pa) {
      var k :| ThreadMatch(s.rows, claimed, pa, k) || PidMatch(s.rows, claimed, pa, k);
      SomeClaim(s.rows, claimed, pa, k);
      assert false;
    }
  }

  /** A row that matches in any way leaves the pane something to claim. */
  lemma SomeClaim(rows: Rows, claimed: set<Key>, pa: Presence, k: Key)
    requires ThreadMatch(rows, claimed, pa, k) || PidMatch(rows, claimed, pa, k) || PidlessMatch(rows, claimed, pa, k)
    ensures exists q :: MayClaim(rows, claimed, pa, q)
  {
    if q :| ThreadMatch(rows, claimed, pa, q) {
      assert MayClaim(rows, claimed, pa, q);
    } else if q :| PidMatch(rows, claimed, pa, q) {
      assert MayClaim(rows, claimed, pa, q);
    } else if q :| PidlessBound(rows, claimed, pa, q) {
      assert MayClaim(rows, claimed, pa, q);
    } else {
      assert MayClaim(rows, claimed, pa, k);
    }
  }

  // ----- a free row waits for its pane -----

  /** At pane i's turn its thread's or process's row is there to claim. */
  lemma {:induction false} MatchedAtTurn(start: Start, env: Env, tr: ScanTrace, i: nat)
    requires Traced(start, env, tr) && i < |start.panes| && start.Matched(i)
    ensures HasMatch(tr.states[i].rows, tr.claims[i], start.panes[i])
    decreases i, 1, 0
  {
    assert WellKeyed(tr.states[0].rows);
    if start.OwnThread(i) {
      var k := Thread(start.panes[i].agent, start.panes[i].threadId);
      FreeRowWaits(start, env, tr, k, i, i);
      assert ThreadMatch(tr.states[i].rows, tr.claims[i], start.panes[i], k);
    } else {
      var r :| PidMatch(start.rows, {}, start.panes[i], r) && start.Free(r, i);
      FreeRowWaits(start, env, tr, r, i, i);
      assert PidMatch(tr.states[i].rows, tr.claims[i], start.panes[i], r);
    }
  }

  /** And so is a bound row. */
  lemma {:induction false} BoundAtTurn(start: Start, env: Env, tr: ScanTrace, i: nat)
    requires Traced(start, env, tr) && i < |start.panes| && start.BoundSure(i)
    ensures HasBound(tr.states[i].rows, tr.claims[i], start.panes[i])
    decreases i, 1, 0
  {
    var b :| PidlessBound(start.rows, {}, start.panes[i], b) && start.Free(b, i);
    FreeRowWaits(start, env, tr, b, i, i);
    assert PidlessBound(tr.states[i].rows, tr.claims[i], start.panes[i], b);
  }

  /** Pane h does not keep a row it spares. */
  lemma {:induction false} SparedIsNotKept(start: Start, env: Env, tr: ScanTrace, x: Key, h: nat)
    requires Traced(start, env, tr) && h < |start.panes| && !Synthetic(x) && x in start.rows && start.Spares(h, x)
    requires x in tr.states[h].rows && tr.states[h].rows[x] == start.rows[x]
    ensures tr.kept[h] != Some(x)
    decreases h, 2, 0
  {
    if start.Matched(h) {
      MatchedAtTurn(start, env, tr, h);
    } else if start.BoundSure(h) {
      BoundAtTurn(start, env, tr, h);
    }
    assert WellKeyed(tr.states[h].rows);
    NotKept(tr.states[h], tr.claims[h], start.panes[h], env, tr.states[h + 1], tr.claims[h + 1], tr.kept[h], x);
  }

  /** A free row is unchanged and unclaimed at every turn up to its pane's. */
  lemma {:induction false} FreeRowWaits(start: Start, env: Env, tr: ScanTrace, x: Key, i: nat, n: nat)
    requires Traced(start, env, tr) && n <= i < |start.panes| && !Synthetic(x) && start.Free(x, i)
    ensures x in tr.states[n].rows && tr.states[n].rows[x] == start.rows[x] && x !in tr.claims[n]
    decreases i, 0, n
  {
    if n > 0 {
      var h := n - 1;
      FreeRowWaits(start, env, tr, x, i, h);
      assert start.Spares(h, x);
      SparedIsNotKept(start, env, tr, x, h);
      assert WellKeyed(tr.states[h].rows);
      StepLeaves(tr.states[h], tr.claims[h], start.panes[h], env, tr.states[n], tr.claims[n], tr.kept[h], x);
    }
  }

  /** A pane sure of a row finds something to claim. */
  lemma SureClaims(start: Start, env: Env, tr: ScanTrace, i: nat)
    requires Traced(start, env, tr) && i < |start.panes| && start.Sure(i)
    ensures exists q :: MayClaim(tr.states[i].rows, tr.claims[i], start.panes[i], q)
  {
    if start.Matched(i) {
      MatchedAtTurn(start, env, tr, i);
      var k :| ThreadMatch(tr.states[i].rows, tr.claims[i], start.panes[i], k)
               || PidMatch(tr.states[i].rows, tr.claims[i], start.panes[i], k);
      SomeClaim(tr.states[i].rows, tr.claims[i], start.panes[i], k);
    } else {
      BoundAtTurn(start, env, tr, i);
      var k :| PidlessBound(tr.states[i].rows, tr.claims[i], start.panes[i], k);
      SomeClaim(tr.states[i].rows, tr.claims[i], start.panes[i], k);
    }
  }

  // ----- what is still unclaimed was there from the start -----

  /** A pane before n minted row k. */
  ghost predicate MintedFor(panes: seq<Presence>, n: nat, k: Key, pid: int)
    requires n <= |panes|
  {
    exists h :: 0 <= h < n && k == Thread(panes[h].agent, panes[h].threadId) && pid == panes[h].pid
  }

  /** A row that may still be claimed, and that no pane minted, is as it was. */
  lemma {:induction false} UnclaimedPersists(panes: seq<Presence>, tr: ScanTrace, m: nat, n: nat, k: Key)
    requires Walk(panes, tr) && m <= n <= |panes| && !Synthetic(k)
    requires k in tr.states[n].rows && k !in tr.claims[n] && !tr.states[n].rows[k].liveness.Exited?
    requires !MintedFor(panes, n, k, tr.states[n].rows[k].pid)
    ensures k in tr.states[m].rows && tr.states[m].rows[k] == tr.states[n].rows[k] && k !in tr.claims[m]
    decreases n
  {
    if m < n {
      var h := n - 1;
      assert StepShape(tr.states[h].rows, tr.claims[h], panes[h], tr.states[n].rows, tr.claims[n], tr.kept[h]);
      assert k in tr.states[h].rows && tr.states[h].rows[k] == tr.states[n].rows[k];
      UnclaimedPersists(panes, tr, m, h, k);
    }
  }

  /** So is every pid-less row that a pane could fall back on. */
  lemma FallbackPersists(panes: seq<Presence>, tr: ScanTrace, n: nat, k: Key)
    requires Walk(panes, tr) && n < |panes| && PidlessMatch(tr.states[n].rows, tr.claims[n], panes[n], k)
    ensures forall m :: 0 <= m <= n ==>
              k in tr.states[m].rows && tr.states[m].rows[k] == tr.states[n].rows[k] && k !in tr.claims[m]
  {
    forall m | 0 <= m <= n
      ensures k in tr.states[m].rows && tr.states[m].rows[k] == tr.states[n].rows[k] && k !in tr.claims[m]
    {
      UnclaimedPersists(panes, tr, m, n, k);
    }
  }

  // ----- where the map order cannot matter, the pre-state decides exactly -----

  predicate CanFallBack(rows: Rows, k: Key) {
    k in rows && rows[k].pid == 0 && !rows[k].liveness.Exited? && !Synthetic(k)
  }

  /** The agent has at most one pid-less row that may be claimed. */
  ghost predicate OnePidlessOf(rows: Rows, agent: string) {
    forall k, q ::
      CanFallBack(rows, k) && CanFallBack(rows, q) && rows[k].agent == agent == rows[q].agent ==> k == q
  }

  /** The pane is settled, or its agent has at most one pid-less row. */
  ghost predicate Decided(start: Start, i: nat)
    requires i < |start.panes|
  {
    start.Settled(i) || OnePidlessOf(start.rows, start.panes[i].agent)
  }

  ghost predicate OrderFree(start: Start) {
    forall i :: 0 <= i < |start.panes| ==> Decided(start, i)
  }

  /** A pane that falls back keeps a pid-less row of the start, one on the pane if there is
      any. */
  lemma FallsBackOnPidless(start: Start, env: Env, tr: ScanTrace, h: nat, k: Key) returns (q: Key)
    requires Traced(start, env, tr) && h < |start.panes|
    requires PidlessMatch(tr.states[h].rows, tr.claims[h], start.panes[h], k)
    requires !HasMatch(tr.states[h].rows, tr.claims[h], start.panes[h])
    ensures tr.kept[h] == Some(q) && q in tr.claims[h + 1] && PidlessMatch(start.rows, {}, start.panes[h], q)
    ensures PidlessBound(tr.states[h].rows, tr.claims[h], start.panes[h], k) ==>
              PidlessBound(start.rows, {}, start.panes[h], q)
  {
    var rows, claimed, pa := tr.states[h].rows, tr.claims[h], start.panes[h];
    SomeClaim(rows, claimed, pa, k);
    assert PaneStep(tr.states[h], claimed, pa, env, tr.states[h + 1], tr.claims[h + 1], tr.kept[h]);
    q := tr.kept[h].value;
    assert MayClaim(rows, claimed, pa, q) && PidlessMatch(rows, claimed, pa, q);
    FallbackPersists(start.panes, tr, h, q);
  }

  /** Row k stands at pane h's turn as it did at the start, free to be claimed. */
  ghost predicate Stands(start: Start, tr: ScanTrace, k: Key, h: nat) {
    && h < |tr.states| && h < |tr.claims| && !Synthetic(k)
    && k in start.rows && !start.rows[k].liveness.Exited?
    && k in tr.states[h].rows && tr.states[h].rows[k] == start.rows[k] && k !in tr.claims[h]
  }

  /** A step that keeps another row exits or removes a row it retires. */
  lemma StepRetires(s: Session, claimed: set<Key>, pa: Presence, env: Env,
                    s': Session, claimed': set<Key>, kept: Option<Key>, x: Key)
    requires PaneStep(s, claimed, pa, env, s', claimed', kept) && kept.Some? && kept != Some(x)
    requires x in s.rows && Retires(pa, s.rows[x], env.alivePids) && pa.paneId != "" && pa.pid != 0
    ensures x in s'.rows ==> s'.rows[x].liveness.Exited?
  {
  }

  /** A row that may be claimed and that the pane keeps is claimed. */
  lemma KeptIsClaimed(s: Session, claimed: set<Key>, pa: Presence, env: Env,
                      s': Session, claimed': set<Key>, kept: Option<Key>, x: Key)
    requires WellKeyed(s.rows) && PaneStep(s, claimed, pa, env, s', claimed', kept)
    requires x in s.rows && !s.rows[x].liveness.Exited? && !Synthetic(x)
    requires kept == Some(x) || x == Thread(pa.agent, pa.threadId)
    ensures x in claimed'
  {
    if x !in claimed && x == Thread(pa.agent, pa.threadId) {
      assert ThreadMatch(s.rows, claimed, pa, x);
      assert MayClaim(s.rows, claimed, pa, x);
    }
  }

  lemma PassedIsNotRetired(start: Start, env: Env, tr: ScanTrace, k: Key, h: nat)
    requires Traced(start, env, tr) && h < |start.panes| && Stands(start, tr, k, h) && Stands(start, tr, k, h + 1)
    requires tr.kept[h].Some?
    ensures tr.kept[h] != Some(k) && !Retires(start.panes[h], start.rows[k], start.alivePids)
    ensures k != Thread(start.panes[h].agent, start.panes[h].threadId)
  {
    var s, claimed, pa := tr.states[h], tr.claims[h], start.panes[h];
    assert WellKeyed(s.rows);
    if tr.kept[h] == Some(k) || k == Thread(pa.agent, pa.threadId) {
      KeptIsClaimed(s, claimed, pa, env, tr.states[h + 1], tr.claims[h + 1], tr.kept[h], k);
    }
    if tr.kept[h] != Some(k) && Retires(pa, s.rows[k], env.alivePids) {
      StepRetires(s, claimed, pa, env, tr.states[h + 1], tr.claims[h + 1], tr.kept[h], k);
    }
  }

  lemma StepOf(start: Start, env: Env, tr: ScanTrace, i: nat)
    requires Traced(start, env, tr) && i < |start.panes|
    ensures WellKeyed(tr.states[i].rows)
    ensures
      PaneStep(tr.states[i], tr.claims[i], start.panes[i], env, tr.states[i + 1], tr.claims[i + 1], tr.kept[i])
  {
  }

  /** A pane on which a pid-less row stands that may be claimed keeps some row. */
  lemma FallbackIsKept(start: Start, env: Env, tr: ScanTrace, h: nat, k: Key)
    requires Traced(start, env, tr) && h < |start.panes|
    requires PidlessMatch(tr.states[h].rows, tr.claims[h], start.panes[h], k)
    ensures tr.kept[h].Some?
  {
    StepOf(start, env, tr, h);
    SomeClaim(tr.states[h].rows, tr.claims[h], start.panes[h], k);
  }

  /** A pid-less row that stands at pane i's turn was not retired by a pane before it. */
  lemma StandingWasNotRetired(start: Start, env: Env, tr: ScanTrace, h: nat, i: nat, k: Key)
    requires Traced(start, env, tr) && h < i < |start.panes| && start.panes[h].agent == start.panes[i].agent
    requires PidlessMatch(tr.states[i].rows, tr.claims[i], start.panes[i], k)
    ensures k in start.rows
    ensures !(start.rows[k].liveness.Alive? && start.rows[k].paneId == start.panes[h].paneId)
  {
    StepOf(start, env, tr, i);
    FallbackPersists(start.panes, tr, i, k);
    assert Stands(start, tr, k, h) && Stands(start, tr, k, h + 1);
    assert PidlessMatch(tr.states[h].rows, tr.claims[h], start.panes[h], k);
    FallbackIsKept(start, env, tr, h, k);
    PassedIsNotRetired(start, env, tr, k, h);
  }

  /** A pid-less row that stands after a pane has kept another was safe from its fallback. */
  lemma PidlessPassed(start: Start, env: Env, tr: ScanTrace, k: Key, h: nat)
    requires Traced(start, env, tr) && h < |start.panes| && Stands(start, tr, k, h) && Stands(start, tr, k, h + 1)
    requires start.panes[h].agent == k.agent && start.rows[k].pid == 0 && Decided(start, h)
    requires !HasMatch(tr.states[h].rows, tr.claims[h], start.panes[h])
    ensures start.BoundSure(h) && start.rows[k].paneId != start.panes[h].paneId
  {
    var rows, claimed, pa := tr.states[h].rows, tr.claims[h], start.panes[h];
    assert WellKeyed(rows);
    assert PidlessMatch(rows, claimed, pa, k);
    var q := FallsBackOnPidless(start, env, tr, h, k);
    assert q in start.rows && q != k;
    assert CanFallBack(start.rows, k) && CanFallBack(start.rows, q);
    if start.Matched(h) {
      MatchedAtTurn(start, env, tr, h);
    }
    assert start.Settled(h) && start.OwnBound(h);
    var b :| PidlessBound(start.rows, {}, pa, b) && start.Free(b, h) && start.OnlyBound(h, b);
    assert start.rows[k].paneId == pa.paneId ==>
        PidlessBound(rows, claimed, pa, k) && PidlessBound(start.rows, {}, pa, k);
  }

  /** A row that stands after an agent's pane has kept a row was spared by it. */
  lemma PassedIsSpared(start: Start, env: Env, tr: ScanTrace, k: Key, h: nat)
    requires Traced(start, env, tr) && h < |start.panes| && Stands(start, tr, k, h) && Stands(start, tr, k, h + 1)
    requires k.agent == start.panes[h].agent ==> tr.kept[h].Some? && Decided(start, h)
    requires HasMatch(tr.states[h].rows, tr.claims[h], start.panes[h]) ==> start.Matched(h)
    ensures start.Spares(h, k)
  {
    if k.agent == start.panes[h].agent {
      assert WellKeyed(tr.states[h].rows);
      PassedIsNotRetired(start, env, tr, k, h);
      if start.rows[k].pid == 0 && !start.Matched(h) {
        PidlessPassed(start, env, tr, k, h);
      }
    }
  }

  /** A row of the pane's thread or process that stands at its turn stood at all turns before. */
  lemma MatchStands(start: Start, env: Env, tr: ScanTrace, i: nat, k: Key)
    requires Traced(start, env, tr) && DistinctThreads(start.panes) && i < |start.panes|
    requires ThreadMatch(tr.states[i].rows, tr.claims[i], start.panes[i], k)
             || PidMatch(tr.states[i].rows, tr.claims[i], start.panes[i], k)
    ensures forall h :: 0 <= h <= i ==> Stands(start, tr, k, h)
  {
    assert !MintedFor(start.panes, i, k, tr.states[i].rows[k].pid);
    UnclaimedPersists(start.panes, tr, 0, i, k);
    forall h | 0 <= h <= i
      ensures Stands(start, tr, k, h)
    {
      UnclaimedPersists(start.panes, tr, h, i, k);
    }
  }

  /** Where every pane in front has kept a row, a pane that finds a row of its thread or
      process is one that was sure of it. */
  lemma {:induction false} MatchedExactly(start: Start, env: Env, tr: ScanTrace, i: nat)
    requires Traced(start, env, tr) && DistinctThreads(start.panes) && i < |start.panes|
    requires forall h :: 0 <= h < i && start.panes[h].agent == start.panes[i].agent ==>
               tr.kept[h].Some? && Decided(start, h)
    requires HasMatch(tr.states[i].rows, tr.claims[i], start.panes[i])
    ensures start.Matched(i)
    decreases i
  {
    var rows, claimed, pa := tr.states[i].rows, tr.claims[i], start.panes[i];
    var k :| ThreadMatch(rows, claimed, pa, k) || PidMatch(rows, claimed, pa, k);
    assert WellKeyed(rows);
    MatchStands(start, env, tr, i, k);
    assert Stands(start, tr, k, 0) && Stands(start, tr, k, i);
    forall h | 0 <= h < i
      ensures start.Spares(h, k)
    {
      if HasMatch(tr.states[h].rows, tr.claims[h], start.panes[h]) && pa.agent == start.panes[h].agent {
        MatchedExactly(start, env, tr, h);
      }
      if pa.agent == start.panes[h].agent {
        PassedIsSpared(start, env, tr, k, h);
      }
    }
    assert start.Free(k, i);
    assert PidMatch(rows, claimed, pa, k) ==> PidMatch(start.rows, {}, pa, k);
  }

  // ----- rows that step 1 may or may not take away -----

  /** b has every row of a that may be claimed, and what it has more is on no scanned pane. */
  ghost predicate Within(a: Start, b: Start) {
    && a.panes == b.panes && a.alivePids == b.alivePids
    && (forall k :: k in a.rows && !a.rows[k].liveness.Exited? ==> k in b.rows && b.rows[k] == a.rows[k])
    && (forall k :: k in b.rows && !b.rows[k].liveness.Exited? && b.rows[k].paneId in ActivePanes(b.panes) ==>
          k in a.rows && a.rows[k] == b.rows[k])
  }

  /** More rows of that kind leave a sure claim sure. */
  lemma {:induction false} SettledWithin(a: Start, b: Start, i: nat)
    requires Within(a, b) && i < |a.panes|
    ensures a.Matched(i) ==> b.Matched(i)
    ensures a.BoundSure(i) ==> b.BoundSure(i)
    ensures a.SureOfPid(i) ==> b.SureOfPid(i)
    ensures a.Settled(i) ==> b.Settled(i)
    decreases i, 1
  {
    var pa := a.panes[i];
    if a.OwnThread(i) {
      FreeWithin(a, b, Thread(pa.agent, pa.threadId), i);
    }
    if a.OwnProcess(i) {
      var r :| PidMatch(a.rows, {}, pa, r) && a.Free(r, i);
      FreeWithin(a, b, r, i);
      assert PidMatch(b.rows, {}, pa, r);
    }
    if a.SureOfPid(i) {
      var r :| (ThreadMatch(a.rows, {}, pa, r) || PidMatch(a.rows, {}, pa, r)) && a.rows[r].pid != 0 && a.Free(r, i);
      FreeWithin(a, b, r, i);
      assert ThreadMatch(b.rows, {}, pa, r) || PidMatch(b.rows, {}, pa, r);
    }
    if a.BoundSure(i) {
      var q :| PidlessBound(a.rows, {}, pa, q) && a.Free(q, i);
      FreeWithin(a, b, q, i);
      assert PidlessBound(b.rows, {}, pa, q);
    }
    if a.OwnBound(i) {
      var q :| PidlessBound(a.rows, {}, pa, q) && a.Free(q, i) && a.OnlyBound(i, q);
      FreeWithin(a, b, q, i);
      BoundWithin(a, b, i, q);
    }
  }

  lemma BoundWithin(a: Start, b: Start, i: nat, q: Key)
    requires Within(a, b) && i < |a.panes| && PidlessBound(a.rows, {}, a.panes[i], q) && a.OnlyBound(i, q)
    ensures PidlessBound(b.rows, {}, b.panes[i], q) && b.OnlyBound(i, q)
  {
    assert b.panes[i].paneId in ActivePanes(b.panes);
    forall p | PidlessBound(b.rows, {}, b.panes[i], p)
      ensures p == q
    {
      assert PidlessBound(a.rows, {}, a.panes[i], p);
    }
  }

  lemma {:induction false} FreeWithin(a: Start, b: Start, x: Key, i: nat)
    requires Within(a, b) && i <= |a.panes| && a.Free(x, i) && !a.rows[x].liveness.Exited?
    ensures b.Free(x, i)
    decreases i, 0
  {
    forall h | 0 <= h < i
      ensures b.Spares(h, x)
    {
      assert a.Spares(h, x);
      SettledWithin(a, b, h);
    }
  }

  ghost function StartOf(s: Session, panes: seq<Presence>, env: Env): Start {
    Start(s.rows, panes, env.alivePids)
  }

  /** What step 2 starts from if no spare pane excuses a missing row. */
  ghost function SureStart(s: Session, panes: seq<Presence>, env: Env, threshold: int): Start {
    StartOf(AfterMisses(s, panes, {}, threshold), panes, env)
  }

  /** Whichever rows are excused, step 1 leaves something between those rows and all. */
  lemma MissesAreWithin(s: Session, panes: seq<Presence>, env: Env, excused: set<Key>, threshold: int)
    ensures
      var after := StartOf(AfterMisses(s, panes, excused, threshold), panes, env);
      Within(SureStart(s, panes, env, threshold), after) && Within(after, StartOf(s, panes, env))
  {
  }

  /** A whole scan and what its step 2 starts from. */
  ghost predicate ScanFrom(start: Start, s: Session, panes: seq<Presence>, env: Env, threshold: int,
                           tr: ScanTrace, s': Session) {
    && ScanOf(s, panes, env, threshold, tr, s') && start == StartOf(tr.states[0], panes, env)
  }

  lemma ScanIsTraced(start: Start, s: Session, panes: seq<Presence>, env: Env, threshold: int,
                     tr: ScanTrace, s': Session)
    requires ScanFrom(start, s, panes, env, threshold, tr, s')
    ensures Traced(start, env, tr) && start.panes == panes
    ensures tr.states[0] == AfterMisses(s, panes, tr.excused, threshold)
  {
    ScanIsWalk(s, panes, env, threshold, tr, s');
  }
}
