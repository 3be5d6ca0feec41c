/** What keeps a row's pane and its liveness together over whole runs. */
module BoundRows {
  import opened Wrappers
  import opened AgentModel
  import opened TrackerSpec
  import opened TrackerInvariants
  import opened ScanOwnership
  import opened OwnRows
  import opened FallbackPool

  /** A row on a pane is alive or exited. */
  ghost predicate BoundIsAlive(rows: Rows) {
    forall k :: k in rows && rows[k].paneId != "" ==> rows[k].liveness.Alive? || rows[k].liveness.Exited?
  }

  /** A hook as the watchers send it: it says nothing of panes. */
  predicate PaneFree(step: Step) {
    step.Hook? ==> step.ev.row.paneId == "" && step.ev.row.liveness.Unset?
  }

  lemma EventKeepsBound(s: Session, ev: Event, seed: bool, active: bool, now: int, s': Session)
    requires BoundIsAlive(s.rows) && EventStep(s, ev, seed, active, now, s')
    requires ev.row.paneId == "" && ev.row.liveness.Unset?
    ensures BoundIsAlive(s'.rows)
  {
    var key := InstanceKey(ev.row.agent, ev.row.threadId);
    if !ev.ended {
      var stored := Enrich(Lookup(s.rows, key), ev.row);
      var rows := s.rows[key := stored];
      EnrichKeepsBound(Lookup(s.rows, key), ev.row);
      var r, gone :| Supersedes(rows, key, stored, r, gone) && s' == Settle(s, key, r, gone, seed || !active);
      SupersedingKeepsBound(rows, key, stored, r, gone);
    }
  }

  /** A row whose pane and liveness fit, as the watchers' rows do. */
  predicate FitsPane(r: Row) {
    if r.paneId == "" then r.liveness.Unset? else r.liveness.Alive? || r.liveness.Exited?
  }

  lemma EnrichKeepsBound(prev: Option<Row>, ev: Row)
    requires ev.paneId == "" && ev.liveness.Unset?
    requires prev.Some? && prev.value.paneId != "" ==> prev.value.liveness.Alive? || prev.value.liveness.Exited?
    ensures FitsPane(Enrich(prev, ev))
  {
  }

  lemma SupersedingKeepsBound(rows: Rows, key: Key, stored: Row, r: Row, gone: set<Key>)
    requires BoundIsAlive(rows) && FitsPane(stored) && Supersedes(rows, key, stored, r, gone)
    ensures r.paneId != "" ==> r.liveness.Alive? || r.liveness.Exited?
  {
  }

  lemma BindKeepsBound(s: Session, k: Key, r: Row, pa: Presence, alivePids: set<int>)
    requires BoundIsAlive(s.rows) && r.liveness.Alive?
    ensures BoundIsAlive(Bind(s, k, r, pa, alivePids).rows)
  {
    BindShape(s, k, r, pa, alivePids);
  }

  lemma PaneStepKeepsBound(s: Session, claimed: set<Key>, pa: Presence, env: Env,
                           s': Session, claimed': set<Key>, kept: Option<Key>)
    requires BoundIsAlive(s.rows) && PaneStep(s, claimed, pa, env, s', claimed', kept)
    ensures BoundIsAlive(s'.rows)
  {
    if exists k :: MayClaim(s.rows, claimed, pa, k) {
      BindKeepsBound(s, kept.value, Stamp(s.rows[kept.value], pa, pa.threadName), pa, env.alivePids);
    } else if kept.Some? {
      BindKeepsBound(Expire(s, pa), kept.value, MintedRow(s.rows, pa, env.now), pa, env.alivePids);
    }
  }

  lemma {:induction false} PanesKeepBound(panes: seq<Presence>, env: Env, tr: ScanTrace, n: nat)
    requires PanesTraced(panes, env, tr) && n <= |panes| && BoundIsAlive(tr.states[0].rows)
    ensures BoundIsAlive(tr.states[n].rows)
  {
    if n > 0 {
      PanesKeepBound(panes, env, tr, n - 1);
      PaneStepKeepsBound(tr.states[n - 1], tr.claims[n - 1], panes[n - 1], env, tr.states[n], tr.claims[n],
                         tr.kept[n - 1]);
    }
  }

  lemma NextKeepsBound(s: Session, step: Step, threshold: int, s': Session)
    requires BoundIsAlive(s.rows) && Next(s, step, threshold, s') && PaneFree(step)
    ensures BoundIsAlive(s'.rows)
  {
    match step
    case Hook(ev, seed, active, at) => EventKeepsBound(s, ev, seed, active, at, s');
    case Scan(panes, env, tr) =>
      if !Detached(s, AfterMisses(s, panes, tr.excused, threshold)) {
        PanesKeepBound(panes, env, tr, |panes|);
      }
    case _ =>
  }

  /** In every state of every run whose hooks say nothing of panes a row on a pane is alive or
      exited, so no pid-less row that may be claimed is a stray. */
  lemma {:induction false} NoStraysInRuns(states: seq<Session>, steps: seq<Step>, threshold: int, n: nat,
                                          panes: seq<Presence>, env: Env)
    requires IsRun(states, steps, threshold) && n < |states| && DistinctPanes(panes)
    requires forall i :: 0 <= i < |steps| ==> PaneFree(steps[i])
    ensures BoundIsAlive(states[n].rows) && NoStrays(StartOf(states[n], panes, env))
  {
    if n > 0 {
      NoStraysInRuns(states, steps, threshold, n - 1, panes, env);
      NextKeepsBound(states[n - 1], steps[n - 1], threshold, states[n]);
    }
  }
}
