/** The server code that drives the tracker: the fold of one pane-scan reading, and the
    maintenance before every state build. */
module ServerLoops {
  import opened Wrappers
  import opened AgentModel
  import opened TrackerSpec
  import opened TrackerInvariants
  import opened AgentTracker
  import opened ScanFold
  import opened PrunePipeline

  /** Folds one reading into the row of its thread; reports whether its status is news. */
  method FoldReading(tracker: Tracker, session: string, ev: Row, state: ScanState, now: int) returns (changed: bool)
    requires tracker.Valid() && ev.agent != ""
    modifies tracker`instances, tracker`unseen, tracker`paneMisses, tracker`recentlyEnded, tracker`eventTimestamps
    modifies tracker.MapOf(session)
    ensures tracker.Valid()
    ensures ReadingStep(old(tracker.View(session)), ev, state, session in tracker.active, now, tracker.View(session))
    ensures !changed ==>
              StatusOf(tracker.View(session).rows, InstanceKey(ev.agent, ev.threadId)) ==
              StatusOf(old(tracker.View(session)).rows, InstanceKey(ev.agent, ev.threadId))
    ensures ev.threadId != "" ==>
              var key := Thread(ev.agent, ev.threadId);
              changed <==> StatusOf(tracker.View(session).rows, key) != StatusOf(old(tracker.View(session)).rows, key)
    ensures forall t :: t != session ==> tracker.View(t) == old(tracker.View(t))
  {
    if !state.HasSignal() {
      return false;
    }
    ghost var s := tracker.View(session);
    var previous := tracker.GetEvent(session, ev.agent, ev.threadId, "");
    assert previous == RowOfThread(s.rows, ev.agent, ev.threadId);
    var next := ScanEventOver(previous, ev, state);
    if next.None? {
      return false;
    }
    changed := previous.None? || previous.value.status != next.value.status;
    tracker.ApplyEvent(session, Event(next.value, false, false, 0), false, now);
    FoldedReading(s, ev, state, session in tracker.active, now, tracker.View(session), next.value);
  }

  /** Applying the event a reading makes is that reading's step. */
  lemma FoldedReading(s: Session, ev: Row, state: ScanState, active: bool, now: int, s': Session, next: Row)
    requires state.HasSignal()
    requires ScanEventOver(RowOfThread(s.rows, ev.agent, ev.threadId), ev, state) == Some(next)
    requires EventStep(s, Event(next, false, false, 0), false, active, now, s')
    ensures ReadingStep(s, ev, state, active, now, s')
    ensures
      var key := InstanceKey(ev.agent, ev.threadId);
      var previous := RowOfThread(s.rows, ev.agent, ev.threadId);
      && (previous.Some? && previous.value.status == next.status ==> StatusOf(s'.rows, key) == StatusOf(s.rows, key))
      && (ev.threadId != "" && !(previous.Some? && previous.value.status == next.status) ==>
          StatusOf(s'.rows, key) != StatusOf(s.rows, key))
  {
    EventSetsStatus(s, next, active, now, s');
  }

  /** Reconciles stale running rows against the probe first, then prunes. */
  method PrepareState(tracker: Tracker, now: int, probe: Row -> Verdict)
    requires tracker.Valid()
    modifies tracker`instances, tracker`unseen, tracker`paneMisses, tracker.instances.Values
    ensures tracker.Valid()
    ensures forall t :: tracker.View(t) == Prepare(old(tracker.View(t)), now, probe)
  {
    var changed := tracker.ReconcileStaleRunning(now, RECONCILE_STALE_MS, probe);
    tracker.PruneStuckRunning(now, STUCK_RUNNING_TIMEOUT_MS);
    tracker.PruneExited();
  }
}
