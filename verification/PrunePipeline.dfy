/** The maintenance every state build runs on the tracker: reconcile stale running rows
    against the probe, then the two prune tiers. */
module PrunePipeline {
  import opened AgentModel
  import opened TrackerSpec

  const RECONCILE_STALE_MS := 60 * 1000
  const STUCK_RUNNING_TIMEOUT_MS := 3 * 60 * 1000

  function Prepare(s: Session, now: int, probe: Row -> Verdict): Session {
    PruneTerminal(PruneStuck(Reconcile(s, now, RECONCILE_STALE_MS, probe), now, STUCK_RUNNING_TIMEOUT_MS))
  }

  /** When a row outlives one build. */
  ghost predicate Survives(r: Row, now: int, probe: Row -> Verdict) {
    if !r.status.Running? then !r.liveness.Exited?
    else
      || now - r.ts <= STUCK_RUNNING_TIMEOUT_MS
      || (r.liveness.Alive? && now - r.ts <= ALIVE_PRUNE_CEILING_MS)
      || (r.liveness.Alive? && r.pid != 0 && (probe(r).Working? || probe(r).Ended?))
  }

  /** The rows a build keeps are exactly the surviving ones, in their reconciled form. */
  lemma BuildKeepsExactlySurvivors(s: Session, now: int, probe: Row -> Verdict, k: Key)
    ensures k in Prepare(s, now, probe).rows <==> k in s.rows && Survives(s.rows[k], now, probe)
    ensures k in Prepare(s, now, probe).rows ==>
              Prepare(s, now, probe).rows[k] == ReconcileRow(s.rows[k], now, RECONCILE_STALE_MS, probe)
  {
  }

  /** After a build no exited row is left unless it is running, and every running row is
      recent, or alive and below the ceiling. */
  lemma BuildLeavesNoDeadRow(s: Session, now: int, probe: Row -> Verdict, k: Key)
    requires k in Prepare(s, now, probe).rows
    ensures
      var r := Prepare(s, now, probe).rows[k];
      && (r.liveness.Exited? ==> r.status.Running?)
      && (r.status.Running? ==>
          now - r.ts <= STUCK_RUNNING_TIMEOUT_MS || (r.liveness.Alive? && now - r.ts <= ALIVE_PRUNE_CEILING_MS))
  {
    BuildKeepsExactlySurvivors(s, now, probe, k);
  }

  /** An alive running row its process confirms survives however old it is, with a fresh
      clock; one its process declares ended turns done instead of vanishing. */
  lemma ConfirmedRowSurvives(s: Session, now: int, probe: Row -> Verdict, k: Key)
    requires k in s.rows && IsStale(s.rows[k], now, RECONCILE_STALE_MS)
    requires probe(s.rows[k]).Working? || probe(s.rows[k]).Ended?
    ensures
      var rows' := Prepare(s, now, probe).rows;
      && k in rows' && rows'[k].ts == now
      && rows'[k].status == (if probe(s.rows[k]).Working? then Running else Done)
  {
    BuildKeepsExactlySurvivors(s, now, probe, k);
  }

  lemma SideTablesFollow(s: Session, now: int, probe: Row -> Verdict)
    requires s.unseen <= s.rows.Keys && s.misses.Keys <= s.rows.Keys
    ensures
      var s' := Prepare(s, now, probe);
      && s'.unseen == s.unseen * s'.rows.Keys
      && s'.misses.Keys == s.misses.Keys * s'.rows.Keys
      && (forall k :: k in s'.misses ==> s'.misses[k] == s.misses[k])
      && s'.ended == s.ended
  {
  }

  lemma SurvivorsSettle(r: Row, now: int, probe: Row -> Verdict)
    requires Survives(r, now, probe)
    ensures
      var r' := ReconcileRow(r, now, RECONCILE_STALE_MS, probe);
      Survives(r', now, probe) && ReconcileRow(r', now, RECONCILE_STALE_MS, probe) == r'
  {
  }

  lemma RowsSettle(s: Session, now: int, probe: Row -> Verdict)
    ensures Prepare(Prepare(s, now, probe), now, probe).rows == Prepare(s, now, probe).rows
  {
    var s1 := Prepare(s, now, probe);
    var s2 := Prepare(s1, now, probe);
    forall k
      ensures k in s1.rows <==> k in s2.rows
      ensures k in s1.rows ==> s2.rows[k] == s1.rows[k]
    {
      BuildKeepsExactlySurvivors(s, now, probe, k);
      BuildKeepsExactlySurvivors(s1, now, probe, k);
      if k in s1.rows {
        SurvivorsSettle(s.rows[k], now, probe);
      }
    }
  }

  /** A second build at the same time changes nothing. */
  lemma BuildIsIdempotent(s: Session, now: int, probe: Row -> Verdict)
    requires s.unseen <= s.rows.Keys && s.misses.Keys <= s.rows.Keys
    ensures Prepare(Prepare(s, now, probe), now, probe) == Prepare(s, now, probe)
  {
    var s1 := Prepare(s, now, probe);
    RowsSettle(s, now, probe);
    SideTablesFollow(s, now, probe);
    SideTablesFollow(s1, now, probe);
    SameSession(Prepare(s1, now, probe), s1);
  }

  lemma SameSession(a: Session, b: Session)
    requires a.rows == b.rows && a.unseen == b.unseen && a.ended == b.ended
    requires a.misses.Keys == b.misses.Keys && forall k :: k in b.misses ==> a.misses[k] == b.misses[k]
    ensures a == b
  {
    assert a.misses == b.misses;
  }
}
