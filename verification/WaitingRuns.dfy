/** How long a prompt stays on the board: a waiting row in runs that interleave readings with
    everything else the tracker does to the session. */
module WaitingRuns {
  import opened Wrappers
  import opened AgentModel
  import opened TrackerSpec
  import opened TrackerInvariants
  import opened ScanFold
  import opened ScanOwnership
  import opened OwnRows
  import opened PaneCoverage
  import opened Fixtures

  datatype Move = Read(reading: Reading) | Take(step: Step)

  ghost predicate Moves(s: Session, move: Move, threshold: int, s': Session) {
    match move
    case Read(r) => ReadingStep(s, r.ev, r.state, r.active, r.at, s')
    case Take(step) => Next(s, step, threshold, s')
  }

  ghost predicate MoveRun(states: seq<Session>, moves: seq<Move>, threshold: int) {
    && |states| == |moves| + 1
    && forall i :: 0 <= i < |moves| ==> Moves(states[i], moves[i], threshold, states[i + 1])
  }

  predicate ReadsRow(move: Move, k: Key) {
    move.Read? && InstanceKey(move.reading.ev.agent, move.reading.ev.threadId) == k
  }

  /** The move is no event of the row's own thread, and no reading of it that answers the
      prompt. */
  predicate LeavesPrompt(move: Move, k: Key, since: int) {
    && (ReadsRow(move, k) ==> !move.reading.Answers(since))
    && (move.Take? && move.step.Hook? ==> InstanceKey(move.step.ev.row.agent, move.step.ev.row.threadId) != k)
  }

  /** No pane of a scan takes the row away, to be minted anew by a later one. */
  predicate KeepsInScan(move: Move, k: Key) {
    move.Take? && move.step.Scan? ==> forall n :: 0 <= n < |move.step.tr.states| ==> k in move.step.tr.states[n].rows
  }

  /** The row, while it exists, waits since the same time for the same call. */
  predicate StillWaits(rows: Rows, k: Key, r: Row) {
    k in rows ==> rows[k].status.Waiting? && rows[k].ts == r.ts
                  && rows[k].toolDescription == r.toolDescription && rows[k].toolVerb == r.toolVerb
  }

  // ----- one move -----

  /** An event of another row leaves the row as it is or takes it over. */
  lemma OtherEventLeavesRow(s: Session, ev: Event, seed: bool, active: bool, now: int, s': Session, k: Key)
    requires EventStep(s, ev, seed, active, now, s') && InstanceKey(ev.row.agent, ev.row.threadId) != k
    ensures k in s'.rows ==> k in s.rows && s'.rows[k] == s.rows[k]
  {
  }

  lemma ReadingLeavesPrompt(s: Session, r: Reading, s': Session, k: Key)
    requires ReadingStep(s, r.ev, r.state, r.active, r.at, s') && k in s.rows && s.rows[k].status.Waiting?
    requires k.Thread? && k.thread != ""
    requires InstanceKey(r.ev.agent, r.ev.threadId) == k ==> !r.Answers(s.rows[k].ts)
    ensures k in s'.rows ==> s'.rows[k] == s.rows[k]
  {
    var next := ScanEventOver(RowOfThread(s.rows, r.ev.agent, r.ev.threadId), r.ev, r.state);
    if InstanceKey(r.ev.agent, r.ev.threadId) == k {
      WaitingLeavesOnlyWhenAnswered(s, r.ev, r.state, r.active, r.at, s');
    } else if r.state.HasSignal() && next.Some? {
      assert next.value.agent == r.ev.agent && next.value.threadId == r.ev.threadId;
      OtherEventLeavesRow(s, Event(next.value, false, false, 0), false, r.active, r.at, s', k);
    }
  }

  /** A pane's claim or mint keeps what a row already there waits for. */
  lemma PaneStepLeavesPrompt(s: Session, claimed: set<Key>, pa: Presence, env: Env,
                             s': Session, claimed': set<Key>, kept: Option<Key>, k: Key, r: Row)
    requires PaneStep(s, claimed, pa, env, s', claimed', kept) && k in s.rows && StillWaits(s.rows, k, r)
    ensures StillWaits(s'.rows, k, r)
  {
  }

  lemma {:induction false} PanesLeavePrompt(panes: seq<Presence>, env: Env, tr: ScanTrace, n: nat, k: Key, r: Row)
    requires PanesTraced(panes, env, tr) && n <= |panes| && StillWaits(tr.states[0].rows, k, r)
    requires forall m :: 0 <= m < |tr.states| ==> k in tr.states[m].rows
    ensures StillWaits(tr.states[n].rows, k, r)
  {
    if n > 0 {
      PanesLeavePrompt(panes, env, tr, n - 1, k, r);
      PaneStepLeavesPrompt(tr.states[n - 1], tr.claims[n - 1], panes[n - 1], env, tr.states[n], tr.claims[n],
                           tr.kept[n - 1], k, r);
    }
  }

  lemma ScanLeavesPrompt(s: Session, panes: seq<Presence>, env: Env, threshold: int, tr: ScanTrace, s': Session,
                         k: Key, r: Row)
    requires ScanStep(s, panes, env, threshold, tr, s') && k in s.rows && StillWaits(s.rows, k, r)
    requires KeepsInScan(Take(Scan(panes, env, tr)), k)
    ensures StillWaits(s'.rows, k, r)
  {
    if !Detached(s, AfterMisses(s, panes, tr.excused, threshold)) {
      PanesLeavePrompt(panes, env, tr, |panes|, k, r);
    }
  }

  lemma StepLeavesPrompt(s: Session, step: Step, threshold: int, s': Session, k: Key, r: Row)
    requires Next(s, step, threshold, s') && k in s.rows && StillWaits(s.rows, k, r)
    requires LeavesPrompt(Take(step), k, r.ts) && KeepsInScan(Take(step), k)
    ensures StillWaits(s'.rows, k, r)
  {
    match step
    case Hook(ev, seed, active, at) => OtherEventLeavesRow(s, ev, seed, active, at, s', k);
    case Scan(panes, env, tr) => ScanLeavesPrompt(s, panes, env, threshold, tr, s', k, r);
    case _ =>
  }

  // ----- whole runs -----

  /** From state 0 to state n the row is always there, and no move answers its prompt or is
      an event of its thread. */
  ghost predicate Unanswered(states: seq<Session>, moves: seq<Move>, threshold: int, k: Key, n: nat) {
    && MoveRun(states, moves, threshold) && n < |states| && k.Thread? && k.thread != ""
    && (forall m :: 0 <= m <= n ==> k in states[m].rows) && states[0].rows[k].status.Waiting?
    && (forall i :: 0 <= i < n ==> LeavesPrompt(moves[i], k, states[0].rows[k].ts) && KeepsInScan(moves[i], k))
  }

  lemma {:induction false} StillWaitsUnanswered(states: seq<Session>, moves: seq<Move>, threshold: int, k: Key,
                                                n: nat)
    requires Unanswered(states, moves, threshold, k, n)
    ensures StillWaits(states[n].rows, k, states[0].rows[k])
  {
    if n > 0 {
      StillWaitsUnanswered(states, moves, threshold, k, n - 1);
      match moves[n - 1]
      case Read(r) => ReadingLeavesPrompt(states[n - 1], r, states[n], k);
      case Take(step) => StepLeavesPrompt(states[n - 1], step, threshold, states[n], k, states[0].rows[k]);
    }
  }

  /** Whatever else happens to the session, events and readings of other threads, scans,
      sweeps, reconciles, prunes and dismissals, a row that goes waiting stays so, with its
      time and its call, while it exists; the first reading of its own thread that answers
      with a status recorded strictly later, and no other reading, ends the wait. */
  lemma WaitingUntilAnswered(states: seq<Session>, moves: seq<Move>, threshold: int, k: Key, n: nat)
    requires Unanswered(states, moves, threshold, k, n)
    ensures StillWaits(states[n].rows, k, states[0].rows[k])
    ensures n < |moves| && ReadsRow(moves[n], k) ==>
              && k in states[n + 1].rows
              && var prompt := moves[n].reading.state.prompt;
                 if prompt.atMs > states[0].rows[k].ts
                    && prompt.verdict in {Working, VerdictDone, VerdictInterrupted, VerdictError} then
                   Gives(prompt.verdict, states[n + 1].rows[k].status)
                 else states[n + 1] == states[n]
  {
    StillWaitsUnanswered(states, moves, threshold, k, n);
    if n < |moves| && ReadsRow(moves[n], k) {
      var r := moves[n].reading;
      WaitingLeavesOnlyWhenAnswered(states[n], r.ev, r.state, r.active, r.at, states[n + 1]);
    }
  }

  // ----- exactly when a scan takes a row away and leaves it -----

  /** Pane h carries the pid of the row of pane m's thread, which comes behind it, and does not
      claim the row by it: the pane has a thread of its own, or the row had exited. */
  predicate MovedBehind(rows: Rows, panes: seq<Presence>, k: Key, h: nat, m: nat) {
    && h < m < |panes| && panes[h].agent == panes[m].agent && k == Thread(panes[m].agent, panes[m].threadId)
    && k in rows && rows[k].pid == panes[h].pid && (panes[h].threadId != "" || rows[k].liveness.Exited?)
  }

  lemma TurnKeepsPid(s: Session, claimed: set<Key>, pa: Presence, env: Env,
                     s': Session, claimed': set<Key>, kept: Option<Key>, k: Key)
    requires WellKeyed(s.rows) && PaneStep(s, claimed, pa, env, s', claimed', kept)
    requires k.Thread? && k != Thread(pa.agent, pa.threadId) && k in s.rows && k in s'.rows
    ensures s'.rows[k].pid == s.rows[k].pid
    ensures s.rows[k].liveness.Exited? ==> s'.rows[k].liveness.Exited?
  {
    PaneStepHasShape(s, claimed, pa, env, s', claimed', kept);
    if kept == Some(k) {
      KeptOrigin(s, claimed, pa, env, s', claimed', k);
    }
  }

  /** Until its thread's pane's turn a row keeps its pid, and stays exited. */
  lemma {:induction false} UntilItsPane(start: Start, env: Env, tr: ScanTrace, k: Key, n: nat)
    requires Traced(start, env, tr) && n <= |start.panes| && k.Thread? && k in start.rows
    requires forall g :: 0 <= g < n ==> k != Thread(start.panes[g].agent, start.panes[g].threadId)
    requires forall m :: 0 <= m <= n ==> k in tr.states[m].rows
    ensures tr.states[n].rows[k].pid == start.rows[k].pid
    ensures start.rows[k].liveness.Exited? ==> tr.states[n].rows[k].liveness.Exited?
  {
    if n > 0 {
      var h := n - 1;
      UntilItsPane(start, env, tr, k, h);
      StepOf(start, env, tr, h);
      TurnKeepsPid(tr.states[h], tr.claims[h], start.panes[h], env, tr.states[n], tr.claims[n], tr.kept[h], k);
    }
  }

  /** A pane with the row's pid and no thread of its own claims the row. */
  lemma PidPaneKeeps(start: Start, env: Env, tr: ScanTrace, threshold: int, k: Key, h: nat)
    requires Traced(start, env, tr) && Inv(tr.states[0], threshold) && h < |start.panes|
    requires k.Thread? && k in start.rows && !start.rows[k].liveness.Exited? && k.agent == start.panes[h].agent
    requires start.panes[h].threadId == "" && start.rows[k].pid == start.panes[h].pid
    requires start.panes[h].pid in env.alivePids
    requires forall g :: 0 <= g < h ==> k != Thread(start.panes[g].agent, start.panes[g].threadId)
    ensures tr.kept[h] == Some(k)
  {
    FreeRowWaits(start, env, tr, k, h, h);
    PanesKeepInv(start.panes, env, tr, h, threshold);
    StepOf(start, env, tr, h);
    var rows, claimed, pa := tr.states[h].rows, tr.claims[h], start.panes[h];
    assert PidMatch(rows, claimed, pa, k);
    SomeClaim(rows, claimed, pa, k);
    assert forall q :: MayClaim(rows, claimed, pa, q) ==> PidMatch(rows, claimed, pa, q);
  }

  /** A row that is gone at turn n went at an earlier turn. */
  lemma {:induction false} LastTurn(tr: ScanTrace, k: Key, n: nat) returns (h: nat)
    requires n < |tr.states| && k in tr.states[0].rows && k !in tr.states[n].rows
    ensures h < n && k !in tr.states[h + 1].rows && forall m :: 0 <= m <= h ==> k in tr.states[m].rows
  {
    if m :| 0 <= m < n && k !in tr.states[m].rows {
      h := LastTurn(tr, k, m);
    } else {
      h := n - 1;
    }
  }

  lemma {:induction false} NextMint(tr: ScanTrace, k: Key, n: nat, end: nat) returns (m: nat)
    requires n <= end < |tr.states| && k !in tr.states[n].rows && k in tr.states[end].rows
    ensures n <= m < end && k !in tr.states[m].rows && k in tr.states[m + 1].rows
    decreases end - n
  {
    if k in tr.states[n + 1].rows {
      m := n;
    } else {
      m := NextMint(tr, k, n + 1, end);
    }
  }

  /** A row that goes and comes back has moved. */
  lemma ReturnedIsMoved(start: Start, env: Env, tr: ScanTrace, threshold: int, k: Key, n: nat)
    returns (h: nat, m: nat)
    requires Traced(start, env, tr) && Inv(tr.states[0], threshold) && DistinctThreads(start.panes)
    requires forall i :: 0 <= i < |start.panes| ==> start.panes[i].pid in env.alivePids
    requires k.Thread? && n <= |start.panes| && k in start.rows && k !in tr.states[n].rows
    requires k in tr.states[|start.panes|].rows
    ensures MovedBehind(start.rows, start.panes, k, h, m)
  {
    h := LastTurn(tr, k, n);
    m := NextMint(tr, k, n, |start.panes|);
    StepOf(start, env, tr, h);
    StepOf(start, env, tr, m);
    assert StepShape(tr.states[h].rows, tr.claims[h], start.panes[h], tr.states[h + 1].rows, tr.claims[h + 1],
                     tr.kept[h]);
    assert StepShape(tr.states[m].rows, tr.claims[m], start.panes[m], tr.states[m + 1].rows, tr.claims[m + 1],
                     tr.kept[m]);
    assert k == Thread(start.panes[m].agent, start.panes[m].threadId);
    UntilItsPane(start, env, tr, k, h);
    if start.panes[h].threadId == "" && !start.rows[k].liveness.Exited? {
      PidPaneKeeps(start, env, tr, threshold, k, h);
    }
  }

  /** A row that has moved is taken away. */
  lemma MovedIsTaken(start: Start, env: Env, tr: ScanTrace, k: Key, h: nat, m: nat)
    requires Traced(start, env, tr) && DistinctThreads(start.panes) && k.Thread? && k.thread != ""
    requires MovedBehind(start.rows, start.panes, k, h, m) && tr.kept[h].Some?
    ensures exists n :: 0 <= n < |tr.states| && k !in tr.states[n].rows
  {
    if forall n :: 0 <= n < |tr.states| ==> k in tr.states[n].rows {
      UntilItsPane(start, env, tr, k, h);
      StepOf(start, env, tr, h);
      assert StepShape(tr.states[h].rows, tr.claims[h], start.panes[h], tr.states[h + 1].rows, tr.claims[h + 1],
                       tr.kept[h]);
      if tr.kept[h] == Some(k) {
        KeptOrigin(tr.states[h], tr.claims[h], start.panes[h], env, tr.states[h + 1], tr.claims[h + 1], k);
      }
      assert false;
    }
  }

  /** No row of the thread has moved behind a pane with its pid. */
  ghost predicate NotMoved(rows: Rows, panes: seq<Presence>, k: Key) {
    forall h, m :: 0 <= h < m < |panes| ==> !MovedBehind(rows, panes, k, h, m)
  }

  /** A scan that leaves a thread's row has kept it at every pane's turn if and only if it has
      not moved: no pane in front of its thread's carries its pid, except one without a thread
      while the row has not exited. */
  lemma KeptInScanIff(s: Session, panes: seq<Presence>, env: Env, threshold: int, tr: ScanTrace, s': Session, k: Key)
    requires ScanOf(s, panes, env, threshold, tr, s') && DistinctThreads(panes) && PlainScan(s, panes, env)
    requires k.Thread? && k in s.rows && k in s'.rows
    ensures KeepsInScan(Take(Scan(panes, env, tr)), k) <==> NotMoved(tr.states[0].rows, panes, k)
  {
    var start := StartOf(tr.states[0], panes, env);
    ScanIsTraced(start, s, panes, env, threshold, tr, s');
    PlainIsKept(start, s, panes, env, threshold, tr, s');
    ThreadAtBothEnds(s, panes, env, threshold, tr, s', k);
    if NotMoved(start.rows, panes, k) {
      NotMovedIsKept(start, env, tr, threshold, k);
    } else {
      var h, m :| 0 <= h < m < |panes| && MovedBehind(start.rows, panes, k, h, m);
      MovedIsTaken(start, env, tr, k, h, m);
    }
  }

  lemma NotMovedIsKept(start: Start, env: Env, tr: ScanTrace, threshold: int, k: Key)
    requires Traced(start, env, tr) && Inv(tr.states[0], threshold) && DistinctThreads(start.panes)
    requires forall i :: 0 <= i < |start.panes| ==> start.panes[i].pid in env.alivePids
    requires k.Thread? && k in start.rows && k in tr.states[|start.panes|].rows && NotMoved(start.rows, start.panes, k)
    ensures forall n :: 0 <= n < |tr.states| ==> k in tr.states[n].rows
  {
    if n :| 0 <= n < |tr.states| && k !in tr.states[n].rows {
      var h, m := ReturnedIsMoved(start, env, tr, threshold, k, n);
      assert false;
    }
  }

  /** A thread's row that a scan leaves is there at the first pane's turn and after the last. */
  lemma ThreadAtBothEnds(s: Session, panes: seq<Presence>, env: Env, threshold: int, tr: ScanTrace, s': Session,
                         k: Key)
    requires ScanOf(s, panes, env, threshold, tr, s') && k.Thread? && k in s.rows && k in s'.rows
    ensures Inv(tr.states[0], threshold) && k in tr.states[0].rows && k in tr.states[|panes|].rows && k.thread != ""
  {
    MissesKeepInv(s, panes, tr.excused, threshold);
    DetachedIff(s, panes, tr.excused, threshold);
  }

  /** The scan finds live processes of threads of their own, and the row has not moved. */
  ghost predicate SeenPlainly(s: Session, move: Move, threshold: int, s': Session, k: Key) {
    move.Take? && move.step.Scan? ==>
      && ScanOf(s, move.step.panes, move.step.env, threshold, move.step.tr, s')
      && DistinctThreads(move.step.panes) && PlainScan(s, move.step.panes, move.step.env)
      && NotMoved(move.step.tr.states[0].rows, move.step.panes, k)
  }

  /** So through scans of that kind it is enough that the row is there after each move. */
  lemma WaitingThroughScans(states: seq<Session>, moves: seq<Move>, threshold: int, k: Key, n: nat)
    requires MoveRun(states, moves, threshold) && n < |states| && k.Thread? && k.thread != ""
    requires (forall m :: 0 <= m <= n ==> k in states[m].rows) && states[0].rows[k].status.Waiting?
    requires forall i :: 0 <= i < n ==> LeavesPrompt(moves[i], k, states[0].rows[k].ts)
    requires forall i :: 0 <= i < n ==> SeenPlainly(states[i], moves[i], threshold, states[i + 1], k)
    ensures StillWaits(states[n].rows, k, states[0].rows[k])
    ensures n < |moves| && ReadsRow(moves[n], k) ==>
              && k in states[n + 1].rows
              && var prompt := moves[n].reading.state.prompt;
                 if prompt.atMs > states[0].rows[k].ts
                    && prompt.verdict in {Working, VerdictDone, VerdictInterrupted, VerdictError} then
                   Gives(prompt.verdict, states[n + 1].rows[k].status)
                 else states[n + 1] == states[n]
  {
    forall i | 0 <= i < n
      ensures KeepsInScan(moves[i], k)
    {
      if moves[i].Take? && moves[i].step.Scan? {
        assert SeenPlainly(states[i], moves[i], threshold, states[i + 1], k);
        KeptInScanIff(states[i], moves[i].step.panes, moves[i].step.env, threshold, moves[i].step.tr, states[i + 1], k);
      }
    }
    WaitingUntilAnswered(states, moves, threshold, k, n);
  }

  // ----- one way of it, whatever processes are alive -----

  /** No pane of the row's thread comes behind another pane of its agent that carries the
      row's pid. */
  predicate Unmoved(panes: seq<Presence>, k: Key, pid: int) {
    forall h, m :: 0 <= h < m < |panes| && panes[h].agent == panes[m].agent ==>
      !(k == Thread(panes[m].agent, panes[m].threadId) && pid == panes[h].pid)
  }

  /** Row k has its first pid or that of a pane before n; if it is gone, a pane before n has
      its first pid. */
  ghost predicate Traceable(panes: seq<Presence>, rows: Rows, k: Key, pid: int, n: nat)
    requires n <= |panes|
  {
    if k in rows then rows[k].pid == pid || exists h :: 0 <= h < n && rows[k].pid == panes[h].pid
    else exists h :: 0 <= h < n && panes[h].agent == k.agent && panes[h].pid == pid
  }

  lemma StepIsTraceable(panes: seq<Presence>, rows: Rows, claimed: set<Key>, rows': Rows, claimed': set<Key>,
                        kept: Option<Key>, k: Key, pid: int, n: nat)
    requires n < |panes| && k.Thread? && DistinctPanes(panes) && Unmoved(panes, k, pid)
    requires WellKeyed(rows) && StepShape(rows, claimed, panes[n], rows', claimed', kept)
    requires Traceable(panes, rows, k, pid, n)
    ensures Traceable(panes, rows', k, pid, n + 1)
    ensures k in rows' ==> k in rows
  {
    if k in rows' {
      assert k in rows;
    }
  }

  lemma {:induction false} AlwaysTraceable(panes: seq<Presence>, tr: ScanTrace, k: Key, pid: int, n: nat)
    requires Walk(panes, tr) && n <= |panes| && k.Thread?
    requires k in tr.states[0].rows && tr.states[0].rows[k].pid == pid && Unmoved(panes, k, pid)
    ensures Traceable(panes, tr.states[n].rows, k, pid, n)
    ensures forall m :: 0 <= m <= n && k in tr.states[n].rows ==> k in tr.states[m].rows
  {
    if n > 0 {
      var h := n - 1;
      AlwaysTraceable(panes, tr, k, pid, h);
      StepIsTraceable(panes, tr.states[h].rows, tr.claims[h], tr.states[n].rows, tr.claims[n], tr.kept[h], k, pid, h);
    }
  }

  /** A scan that leaves a thread's row, and sees no pane of the thread behind another pane
      with the row's pid, has not taken the row away in between. */
  lemma UnmovedIsKept(s: Session, panes: seq<Presence>, env: Env, threshold: int, tr: ScanTrace, s': Session, k: Key)
    requires ScanOf(s, panes, env, threshold, tr, s') && k.Thread? && k in s.rows && k in s'.rows
    requires Unmoved(panes, k, s.rows[k].pid)
    ensures KeepsInScan(Take(Scan(panes, env, tr)), k)
  {
    ScanIsWalk(s, panes, env, threshold, tr, s');
    DetachedIff(s, panes, tr.excused, threshold);
    assert k in tr.states[0].rows && tr.states[0].rows[k].pid == s.rows[k].pid;
    AlwaysTraceable(panes, tr, k, s.rows[k].pid, |panes|);
  }

  const OLD_KEY := Thread(CC, "T2")
  const NEW_KEY := Thread(CC, "T1")
  const OLD_ROW := PidlessRow(CC, "T2").(status := Waiting, pid := 11, paneId := "%1", liveness := Alive)
  const MOVED := Session(map[OLD_KEY := OLD_ROW], {}, map[], map[])
  const SAME_PANE := PlainPane(CC, "%1", 11, "T1")
  const NEXT_PANE := PlainPane(CC, "%2", 22, "T2")

  lemma MovedMisses()
    ensures Excusable(MOVED.rows, [SAME_PANE, NEXT_PANE], {})
    ensures AfterMisses(MOVED, [SAME_PANE, NEXT_PANE], {}, 2) == MOVED
  {
    assert [SAME_PANE, NEXT_PANE][0] == SAME_PANE;
    assert "%1" in ActivePanes([SAME_PANE, NEXT_PANE]);
    assert MissingKeys(MOVED.rows, ActivePanes([SAME_PANE, NEXT_PANE])) == {};
    assert forall agent :: OfAgent(MOVED.rows, {}, agent) == {};
    assert AfterMisses(MOVED, [SAME_PANE, NEXT_PANE], {}, 2).rows == MOVED.rows;
    assert AfterMisses(MOVED, [SAME_PANE, NEXT_PANE], {}, 2).misses == MOVED.misses;
  }

  lemma MovedFirstPane(env: Env) returns (s': Session)
    ensures PaneStep(MOVED, {}, SAME_PANE, env, s', {}, Some(NEW_KEY))
    ensures s'.rows == map[NEW_KEY := MintedRow(MOVED.rows, SAME_PANE, env.now)] && s'.ended == map[]
  {
    assert "T1"[1] != "T2"[1];
    assert forall k :: !MayClaim(MOVED.rows, {}, SAME_PANE, k);
    s' := Bind(Expire(MOVED, SAME_PANE), NEW_KEY, MintedRow(MOVED.rows, SAME_PANE, env.now), SAME_PANE, env.alivePids);
    assert s'.rows == map[NEW_KEY := MintedRow(MOVED.rows, SAME_PANE, env.now)];
  }

  lemma MovedSecondPane(env: Env, s: Session) returns (s': Session)
    requires s.rows == map[NEW_KEY := MintedRow(MOVED.rows, SAME_PANE, env.now)] && s.ended == map[]
    ensures PaneStep(s, {}, NEXT_PANE, env, s', {}, Some(OLD_KEY))
    ensures OLD_KEY in s'.rows && s'.rows[OLD_KEY].status.Idle?
  {
    assert "T1"[1] != "T2"[1];
    assert forall k :: !MayClaim(s.rows, {}, NEXT_PANE, k);
    s' := Bind(Expire(s, NEXT_PANE), OLD_KEY, MintedRow(s.rows, NEXT_PANE, env.now), NEXT_PANE, env.alivePids);
  }

  lemma MovedPanes()
    ensures Inv(MOVED, 2) && !Unmoved([SAME_PANE, NEXT_PANE], OLD_KEY, OLD_ROW.pid)
  {
    var panes := [SAME_PANE, NEXT_PANE];
    assert panes[0].agent == panes[1].agent && OLD_KEY == Thread(panes[1].agent, panes[1].threadId);
  }

  /** A process that changed its thread takes the old thread's row away, and the pane that now
      runs the old thread mints it idle: the row is there before and after the scan, but not
      at every pane's turn, and its prompt is gone unanswered. */
  lemma PromptLostInOneScan(env: Env) returns (panes: seq<Presence>, tr: ScanTrace, s': Session)
    ensures Inv(MOVED, 2) && ScanStep(MOVED, panes, env, 2, tr, s')
    ensures OLD_KEY in MOVED.rows && MOVED.rows[OLD_KEY].status.Waiting?
    ensures OLD_KEY in s'.rows && s'.rows[OLD_KEY].status.Idle?
    ensures !KeepsInScan(Take(Scan(panes, env, tr)), OLD_KEY) && !Unmoved(panes, OLD_KEY, OLD_ROW.pid)
  {
    panes := [SAME_PANE, NEXT_PANE];
    MovedPanes();
    MovedMisses();
    var s1 := MovedFirstPane(env);
    var s2 := MovedSecondPane(env, s1);
    tr := TwoStepsAreTraced(SAME_PANE, NEXT_PANE, env, MOVED, s1, s2, {}, {}, Some(NEW_KEY), Some(OLD_KEY));
    assert "T1"[1] != "T2"[1];
    assert OLD_KEY !in tr.states[1].rows;
    s' := ExitGhosts(s2, {});
  }
}
