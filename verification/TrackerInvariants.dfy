/** What every tracker operation keeps, and hence what holds in every state reachable by
    any sequence of events, scans, sweeps, prunes and dismissals. */
module TrackerInvariants {
  import opened Wrappers
  import opened AgentModel
  import opened TrackerSpec

  /** A row's identity fields agree with the key it is stored under. */
  ghost predicate WellKeyed(rows: Rows) {
    forall k :: k in rows ==>
      && rows[k].agent == k.agent
      && rows[k].threadId == (if k.Thread? then k.thread else "")
      && (k.Thread? ==> k.thread != "")
  }

  /** One live process has one row. */
  ghost predicate OneRowPerProcess(rows: Rows) {
    forall k, q :: k in rows && q in rows && k != q && rows[k].agent == rows[q].agent && rows[k].pid == rows[q].pid ==>
      rows[k].pid == 0
  }

  /** Side-table entries belong to rows, an unseen row is terminal or waiting, and a miss
      counter never reaches the threshold. */
  ghost predicate SideTablesFit(s: Session, threshold: int) {
    && s.unseen <= s.rows.Keys
    && s.misses.Keys <= s.rows.Keys
    && (forall k :: k in s.unseen ==> NeedsAttention(s.rows[k].status))
    && (forall k :: k in s.misses ==> 1 <= s.misses[k] < threshold)
  }

  ghost predicate Inv(s: Session, threshold: int) {
    WellKeyed(s.rows) && OneRowPerProcess(s.rows) && SideTablesFit(s, threshold)
  }

  // ----- building blocks -----

  lemma ForgetKeepsInv(s: Session, gone: set<Key>, threshold: int)
    requires Inv(s, threshold)
    ensures Inv(Forget(s, gone), threshold)
  {
  }

  /** Under one row per process at most one other row shares the event's process, so the
      order in which the program meets superseded rows cannot matter. */
  lemma SupersededIsUnique(s: Session, key: Key, stored: Row, k: Key, q: Key)
    requires OneRowPerProcess(s.rows)
    requires SameProcess(s.rows[key := stored], key, stored, k)
    requires SameProcess(s.rows[key := stored], key, stored, q)
    ensures k == q
  {
  }

  lemma SupersedingKeepsIdentity(rows: Rows, key: Key, stored: Row, r: Row, gone: set<Key>)
    requires Supersedes(rows, key, stored, r, gone)
    ensures r.agent == stored.agent && r.threadId == stored.threadId && r.pid == stored.pid
    ensures key !in gone && forall k :: SameProcess(rows, key, stored, k) ==> k in gone
  {
  }

  lemma SettleKeepsRows(s: Session, key: Key, stored: Row, r: Row, gone: set<Key>, inactive: bool)
    requires WellKeyed(s.rows) && OneRowPerProcess(s.rows)
    requires key == InstanceKey(stored.agent, stored.threadId)
    requires Supersedes(s.rows[key := stored], key, stored, r, gone)
    ensures key !in gone
    ensures WellKeyed(Settle(s, key, r, gone, inactive).rows) &&
        OneRowPerProcess(Settle(s, key, r, gone, inactive).rows)
  {
    var rows := s.rows[key := stored];
    var s' := Settle(s, key, r, gone, inactive);
    SupersedingKeepsIdentity(rows, key, stored, r, gone);
    forall k | k in s'.rows && k != key && s'.rows[k].agent == r.agent && s'.rows[k].pid == r.pid
      ensures r.pid == 0
    {
      assert r.pid != 0 ==> SameProcess(rows, key, stored, k);
    }
  }

  lemma SettleKeepsInv(s: Session, key: Key, stored: Row, r: Row, gone: set<Key>, inactive: bool, threshold: int)
    requires Inv(s, threshold)
    requires key == InstanceKey(stored.agent, stored.threadId)
    requires Supersedes(s.rows[key := stored], key, stored, r, gone)
    ensures Inv(Settle(s, key, r, gone, inactive), threshold)
  {
    SettleKeepsRows(s, key, stored, r, gone, inactive);
    SettleKeepsTables(s, key, r, gone, inactive, threshold);
  }

  lemma SettleKeepsTables(s: Session, key: Key, r: Row, gone: set<Key>, inactive: bool, threshold: int)
    requires SideTablesFit(s, threshold) && key !in gone
    ensures SideTablesFit(Settle(s, key, r, gone, inactive), threshold)
  {
  }

  lemma EventKeepsInv(s: Session, ev: Event, seed: bool, active: bool, now: int, s': Session, threshold: int)
    requires Inv(s, threshold) && EventStep(s, ev, seed, active, now, s')
    ensures Inv(s', threshold)
  {
    var key := InstanceKey(ev.row.agent, ev.row.threadId);
    if !ev.ended {
      var stored := Enrich(Lookup(s.rows, key), ev.row);
      var r, gone :|
        && Supersedes(s.rows[key := stored], key, stored, r, gone)
        && s' == Settle(s, key, r, gone, seed || !active);
      SettleKeepsInv(s, key, stored, r, gone, seed || !active, threshold);
    }
  }

  /** When an event takes over a row of its process that had a pane, its own row keeps a
      pane, and no other row of the process is left. */
  lemma SupersedingKeepsPane(s: Session, ev: Event, seed: bool, active: bool, now: int, s': Session, k: Key)
    requires OneRowPerProcess(s.rows) && EventStep(s, ev, seed, active, now, s') && !ev.ended
    requires
      var key := InstanceKey(ev.row.agent, ev.row.threadId);
      var stored := Enrich(Lookup(s.rows, key), ev.row);
      SameProcess(s.rows[key := stored], key, stored, k) && s.rows[k].paneId != ""
    ensures
      var key := InstanceKey(ev.row.agent, ev.row.threadId);
      && key in s'.rows && s'.rows[key].paneId != ""
      && s'.rows[key].pid == s.rows[k].pid
      && k !in s'.rows
  {
    var key := InstanceKey(ev.row.agent, ev.row.threadId);
    var stored := Enrich(Lookup(s.rows, key), ev.row);
    var rows := s.rows[key := stored];
    var r, gone :| Supersedes(rows, key, stored, r, gone) && s' == Settle(s, key, r, gone, seed || !active);
    var q :| SameProcess(rows, key, stored, q) && r == AdoptPane(stored, rows[q]);
    SupersededIsUnique(s, key, stored, k, q);
  }

  lemma MissesKeepInv(s: Session, panes: seq<Presence>, excused: set<Key>, threshold: int)
    requires Inv(s, threshold)
    ensures Inv(AfterMisses(s, panes, excused, threshold), threshold)
  {
  }

  lemma DisplacingKeepsInv(s: Session, keep: Key, agent: string, pane: string, pid: int, alivePids: set<int>,
                           threshold: int)
    requires Inv(s, threshold)
    ensures Inv(RetireDisplaced(s, keep, agent, pane, pid, alivePids), threshold)
  {
    var s' := RetireDisplaced(s, keep, agent, pane, pid, alivePids);
    assert forall k :: k in s'.rows ==>
        s'.rows[k] == s.rows[k].(liveness := s'.rows[k].liveness, paneId := s'.rows[k].paneId);
  }

  lemma RebindingKeepsRows(s: Session, k: Key, r: Row, pid: int)
    requires WellKeyed(s.rows) && OneRowPerProcess(s.rows)
    requires r.agent == k.agent
    requires r.threadId == (if k.Thread? then k.thread else "") && (k.Thread? ==> k.thread != "")
    requires r.pid == pid || (k in s.rows && r.pid == s.rows[k].pid)
    ensures
      var rows := RetireSuperseded(s.(rows := s.rows[k := r], misses := s.misses - {k}), k, r.agent, pid).rows;
      WellKeyed(rows) && OneRowPerProcess(rows)
  {
    var s1 := s.(rows := s.rows[k := r], misses := s.misses - {k});
    var s2 := RetireSuperseded(s1, k, r.agent, pid);
    forall q | q in s2.rows && q != k && s2.rows[q].agent == r.agent && s2.rows[q].pid == r.pid
      ensures r.pid == 0
    {
      assert q in s.rows && s.rows[q] == s2.rows[q];
      if r.pid == pid {
        assert q !in Superseded(s1.rows, k, r.agent, pid);
      }
    }
  }

  /** Binding a row of the pane's process, or one whose pid is unchanged, leaves one row
      for the process: every other row of that process goes. */
  lemma RebindingKeepsInv(s: Session, k: Key, r: Row, pid: int, threshold: int)
    requires Inv(s, threshold)
    requires r.agent == k.agent
    requires r.threadId == (if k.Thread? then k.thread else "") && (k.Thread? ==> k.thread != "")
    requires k in s.rows ==> r.status == s.rows[k].status
    requires r.pid == pid || (k in s.rows && r.pid == s.rows[k].pid)
    ensures Inv(RetireSuperseded(s.(rows := s.rows[k := r], misses := s.misses - {k}), k, r.agent, pid), threshold)
  {
    RebindingKeepsRows(s, k, r, pid);
  }

  lemma BindKeepsInv(s: Session, k: Key, r: Row, pa: Presence, alivePids: set<int>, threshold: int)
    requires Inv(s, threshold)
    requires r.agent == pa.agent == k.agent
    requires r.threadId == (if k.Thread? then k.thread else "") && (k.Thread? ==> k.thread != "")
    requires k in s.rows ==> r.status == s.rows[k].status
    requires r.pid == pa.pid || (k in s.rows && r.pid == s.rows[k].pid)
    ensures Inv(Bind(s, k, r, pa, alivePids), threshold)
  {
    RebindingKeepsInv(s, k, r, pa.pid, threshold);
    DisplacingKeepsInv(RetireSuperseded(s.(rows := s.rows[k := r], misses := s.misses - {k}), k, pa.agent, pa.pid),
                       k, pa.agent, pa.paneId, pa.pid, alivePids, threshold);
  }

  lemma PaneStepKeepsInv(s: Session, claimed: set<Key>, pa: Presence, env: Env,
                         s': Session, claimed': set<Key>, kept: Option<Key>, threshold: int)
    requires Inv(s, threshold) && PaneStep(s, claimed, pa, env, s', claimed', kept)
    ensures Inv(s', threshold)
  {
    if exists k :: MayClaim(s.rows, claimed, pa, k) {
      BindKeepsInv(s, kept.value, Stamp(s.rows[kept.value], pa, pa.threadName), pa, env.alivePids, threshold);
    } else if !Suppressed(s, pa, env.now) {
      var k := MintKey(s.rows, pa);
      BindKeepsInv(Expire(s, pa), k, MintedRow(s.rows, pa, env.now), pa, env.alivePids, threshold);
    }
  }

  lemma {:induction false} PanesKeepInv(panes: seq<Presence>, env: Env, tr: ScanTrace, n: nat, threshold: int)
    requires PanesTraced(panes, env, tr) && n <= |panes|
    requires Inv(tr.states[0], threshold)
    ensures Inv(tr.states[n], threshold)
  {
    if n > 0 {
      PanesKeepInv(panes, env, tr, n - 1, threshold);
      PaneStepKeepsInv(tr.states[n - 1], tr.claims[n - 1], panes[n - 1], env,
                       tr.states[n], tr.claims[n], tr.kept[n - 1], threshold);
    }
  }

  lemma ExitGhostsKeepsInv(s: Session, claimed: set<Key>, threshold: int)
    requires Inv(s, threshold)
    ensures Inv(ExitGhosts(s, claimed), threshold)
  {
    var s' := ExitGhosts(s, claimed);
    assert forall k :: k in s'.rows ==> s'.rows[k] == s.rows[k].(liveness := s'.rows[k].liveness);
  }

  lemma ScanKeepsInv(s: Session, panes: seq<Presence>, env: Env, threshold: int, tr: ScanTrace, s': Session)
    requires Inv(s, threshold) && ScanStep(s, panes, env, threshold, tr, s')
    ensures Inv(s', threshold)
  {
    MissesKeepInv(s, panes, tr.excused, threshold);
    if !Detached(s, AfterMisses(s, panes, tr.excused, threshold)) {
      PanesKeepInv(panes, env, tr, |panes|, threshold);
      ExitGhostsKeepsInv(tr.states[|panes|], tr.claims[|panes|], threshold);
    }
  }

  // ----- runs -----

  datatype Step =
    | Hook(ev: Event, seed: bool, active: bool, at: int)
    | Scan(panes: seq<Presence>, env: Env, tr: ScanTrace)
    | LivenessSweep(alivePids: set<int>)
    | ReconcileStale(at: int, staleMs: int, probe: Row -> Verdict)
    | PruneStuckRows(at: int, timeoutMs: int)
    | PruneTerminalRows
    | DismissRow(agent: string, threadId: string, paneId: string, pid: int, row: Option<Key>)
    | MarkRowsSeen

  /** Dismissal removes one matching row, whichever the map yields first. */
  ghost predicate DismissStep(s: Session, agent: string, threadId: string, paneId: string, pid: int,
                              row: Option<Key>, s': Session) {
    if row.Some? then
      && row.value in s.rows && Matches(s.rows[row.value], agent, threadId, paneId, pid)
      && s' == Forget(s, {row.value})
    else
      && (forall k :: k in s.rows ==> !Matches(s.rows[k], agent, threadId, paneId, pid))
      && s' == s
  }

  ghost predicate Next(s: Session, step: Step, threshold: int, s': Session) {
    match step
    case Hook(ev, seed, active, at) => EventStep(s, ev, seed, active, at, s')
    case Scan(panes, env, tr) => ScanStep(s, panes, env, threshold, tr, s')
    case LivenessSweep(alivePids) => s' == Sweep(s, alivePids)
    case ReconcileStale(at, staleMs, probe) => s' == Reconcile(s, at, staleMs, probe)
    case PruneStuckRows(at, timeoutMs) => s' == PruneStuck(s, at, timeoutMs)
    case PruneTerminalRows => s' == PruneTerminal(s)
    case DismissRow(agent, threadId, paneId, pid, row) => DismissStep(s, agent, threadId, paneId, pid, row, s')
    case MarkRowsSeen => s' == MarkSeen(s)
  }

  /** A run of one session from its birth. */
  ghost predicate IsRun(states: seq<Session>, steps: seq<Step>, threshold: int) {
    && |states| == |steps| + 1
    && states[0] == EMPTY_SESSION
    && forall i :: 0 <= i < |steps| ==> Next(states[i], steps[i], threshold, states[i + 1])
  }

  /** s' has the rows of s with at most their time, their liveness, or the status of a row
      that needs no attention changed. */
  ghost predicate SameShape(s: Session, s': Session) {
    && s'.rows.Keys == s.rows.Keys && s'.unseen == s.unseen && s'.misses == s.misses
    && forall k :: k in s.rows ==>
         && s'.rows[k].agent == s.rows[k].agent && s'.rows[k].threadId == s.rows[k].threadId
         && s'.rows[k].pid == s.rows[k].pid
         && (NeedsAttention(s.rows[k].status) ==> s'.rows[k].status == s.rows[k].status)
  }

  lemma SameShapeKeepsInv(s: Session, s': Session, threshold: int)
    requires Inv(s, threshold) && SameShape(s, s')
    ensures Inv(s', threshold)
  {
  }

  /** Neither a sweep nor a reconcile moves a row, and an absent session stays absent. */
  lemma SweepKeepsShape(s: Session, alivePids: set<int>)
    ensures SameShape(s, Sweep(s, alivePids))
    ensures s.rows == map[] ==> Sweep(s, alivePids) == s
  {
    assert s.rows == map[] ==> Sweep(s, alivePids).rows == s.rows;
  }

  lemma ReconcileKeepsIdentity(r: Row, now: int, staleMs: int, probe: Row -> Verdict)
    ensures
      var r' := ReconcileRow(r, now, staleMs, probe);
      && r'.agent == r.agent && r'.threadId == r.threadId && r'.pid == r.pid
      && (NeedsAttention(r.status) ==> r'.status == r.status)
  {
  }

  lemma ReconcileKeepsShape(s: Session, now: int, staleMs: int, probe: Row -> Verdict)
    ensures SameShape(s, Reconcile(s, now, staleMs, probe))
    ensures s.rows == map[] ==> Reconcile(s, now, staleMs, probe) == s
  {
    forall k | k in s.rows
      ensures
        var r := Reconcile(s, now, staleMs, probe).rows[k];
        && r.agent == s.rows[k].agent && r.threadId == s.rows[k].threadId && r.pid == s.rows[k].pid
        && (NeedsAttention(s.rows[k].status) ==> r.status == s.rows[k].status)
    {
      ReconcileKeepsIdentity(s.rows[k], now, staleMs, probe);
    }
    assert s.rows == map[] ==> Reconcile(s, now, staleMs, probe).rows == s.rows;
  }

  lemma NextKeepsInv(s: Session, step: Step, threshold: int, s': Session)
    requires Inv(s, threshold) && Next(s, step, threshold, s')
    ensures Inv(s', threshold)
  {
    match step
    case Hook(ev, seed, active, at) => EventKeepsInv(s, ev, seed, active, at, s', threshold);
    case Scan(panes, env, tr) => ScanKeepsInv(s, panes, env, threshold, tr, s');
    case LivenessSweep(alivePids) =>
      SweepKeepsShape(s, alivePids);
      SameShapeKeepsInv(s, s', threshold);
    case ReconcileStale(at, staleMs, probe) =>
      ReconcileKeepsShape(s, at, staleMs, probe);
      SameShapeKeepsInv(s, s', threshold);
    case PruneStuckRows(at, timeoutMs) =>
      ForgetKeepsInv(s, (set k | k in s.rows && StuckTest(at, timeoutMs)(s.rows[k])), threshold);
    case PruneTerminalRows => ForgetKeepsInv(s, (set k | k in s.rows && DeadTest()(s.rows[k])), threshold);
    case DismissRow(_, _, _, _, row) =>
      if row.Some? {
        ForgetKeepsInv(s, {row.value}, threshold);
      }
    case MarkRowsSeen =>
  }

  /** In every state of every run no two rows share a process, every side-table entry has
      its row, every unseen row is terminal or waiting, and every miss counter is below the
      threshold. */
  lemma {:induction false} OneRowPerProcessAlways(states: seq<Session>, steps: seq<Step>, threshold: int, n: nat)
    requires IsRun(states, steps, threshold) && n < |states|
    ensures Inv(states[n], threshold)
  {
    if n > 0 {
      OneRowPerProcessAlways(states, steps, threshold, n - 1);
      NextKeepsInv(states[n - 1], steps[n - 1], threshold, states[n]);
    }
  }
}
