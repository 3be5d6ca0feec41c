/** What the sweep, the reconcile, the prunes and a dismissal leave of each row, read off the
    row itself. */
module UpkeepEffects {
  import opened Wrappers
  import opened AgentModel
  import opened TrackerSpec
  import opened TrackerInvariants
  import opened PrunePipeline

  /** A sweep exits exactly the rows whose process is gone, of those that have a process, have
      not exited and have not ended their turn, and changes nothing else. */
  lemma SweepExitsTheGone(s: Session, alivePids: set<int>, k: Key)
    requires k in s.rows
    ensures
      var s', r := Sweep(s, alivePids), s.rows[k];
      && s' == s.(rows := s'.rows) && s'.rows.Keys == s.rows.Keys
      && s'.rows[k] == if r.pid != 0 && r.pid !in alivePids && r.liveness != Exited
                          && r.status !in {Done, Error, Interrupted} then r.(liveness := Exited) else r
  {
  }

  /** A reconcile turns a running alive row older than the limit done when its process has
      ended, restarts its clock when its process is working, and changes nothing else. */
  lemma ReconcileAsksTheStale(s: Session, now: int, staleMs: int, probe: Row -> Verdict, k: Key)
    requires k in s.rows
    ensures
      var s', r := Reconcile(s, now, staleMs, probe), s.rows[k];
      var asked := r.status == Running && r.liveness == Alive && r.pid != 0 && now - r.ts > staleMs;
      && s' == s.(rows := s'.rows) && s'.rows.Keys == s.rows.Keys
      && s'.rows[k] == if asked && probe(r) == Ended then r.(status := Done, ts := now)
                       else if asked && probe(r) == Working then r.(ts := now) else r
  {
  }

  /** A prune of running rows removes exactly those older than the limit that are not alive,
      or that are older than thirty minutes. */
  lemma PruneRemovesTheStuck(s: Session, now: int, timeoutMs: int, k: Key)
    ensures
      var s' := PruneStuck(s, now, timeoutMs);
      && (k in s'.rows <==>
          && k in s.rows
          && !(s.rows[k].status == Running && now - s.rows[k].ts > timeoutMs
               && (s.rows[k].liveness != Alive || now - s.rows[k].ts > 1800000)))
      && IsPart(s', s, k)
  {
  }

  /** A prune of dead rows removes exactly the exited ones that are not running. */
  lemma PruneRemovesTheExited(s: Session, k: Key)
    ensures
      var s' := PruneTerminal(s);
      && (k in s'.rows <==> k in s.rows && !(s.rows[k].liveness == Exited && s.rows[k].status != Running))
      && IsPart(s', s, k)
  {
  }

  /** What s' still has of the row is as in s, and a row removed has no flag and no counter. */
  ghost predicate IsPart(s': Session, s: Session, k: Key) {
    && s'.ended == s.ended
    && if k in s'.rows then
         && k in s.rows && s'.rows[k] == s.rows[k] && (k in s'.unseen <==> k in s.unseen)
         && Lookup(s'.misses, k) == Lookup(s.misses, k)
       else k in s.rows ==> k !in s'.unseen && k !in s'.misses
  }

  /** What one state build makes of a row: a running alive one that is a minute old is asked,
      then a running one may be three minutes old, or thirty while it is alive, and any other
      may be anything but exited. */
  lemma BuildAtRow(s: Session, now: int, probe: Row -> Verdict, k: Key)
    requires k in s.rows
    ensures
      var s', r := Prepare(s, now, probe), s.rows[k];
      var asked := r.status == Running && r.liveness == Alive && r.pid != 0 && now - r.ts > 60000;
      var r' := if asked && probe(r) == Ended then r.(status := Done, ts := now)
                else if asked && probe(r) == Working then r.(ts := now) else r;
      var stays := if r'.status == Running then
                     now - r'.ts <= 180000 || (r'.liveness == Alive && now - r'.ts <= 1800000)
                   else r'.liveness != Exited;
      (k in s'.rows <==> stays) && (stays ==> s'.rows[k] == r')
  {
    BuildKeepsExactlySurvivors(s, now, probe, k);
  }

  /** The row is the agent's and has each identifier that is given. */
  predicate IsNamed(r: Row, agent: string, threadId: string, paneId: string, pid: int) {
    && r.agent == agent && (threadId != "" ==> r.threadId == threadId)
    && (paneId != "" ==> r.paneId == paneId) && (pid != 0 ==> r.pid == pid)
  }

  /** A dismissal removes one of the rows it names, or, when it names none, nothing. */
  lemma DismissalRemovesOne(s: Session, agent: string, threadId: string, paneId: string, pid: int,
                            row: Option<Key>, s': Session)
    requires DismissStep(s, agent, threadId, paneId, pid, row, s')
    ensures
      if exists k :: k in s.rows && IsNamed(s.rows[k], agent, threadId, paneId, pid) then
        && row.Some? && row.value in s.rows && IsNamed(s.rows[row.value], agent, threadId, paneId, pid)
        && s' == s.(rows := s.rows - {row.value}, unseen := s.unseen - {row.value}, misses := s.misses - {row.value})
      else row == None && s' == s
  {
    assert forall k :: k in s.rows ==>
        (Matches(s.rows[k], agent, threadId, paneId, pid) <==> IsNamed(s.rows[k], agent, threadId, paneId, pid));
    if row.Some? {
      assert IsNamed(s.rows[row.value], agent, threadId, paneId, pid);
    }
  }
}
