/** What one pane-scan reading of an agent process does to the row of its thread: the
    reading taken from the process's session file, and the fold of readings into rows. */
module ScanFold {
  import opened Wrappers
  import opened AgentModel
  import opened TrackerSpec

  const BUSY_HUNG_MS := 30 * 60 * 1000

  /** The statuses Claude Code records in a session file; Other is any other text. */
  datatype FileStatus = FileBusy | FileIdle | FileWaiting | FileShell | FileOther

  datatype SessionFile = SessionFile(
    sessionId: string,
    name: string,
    status: FileStatus,
    statusUpdatedAt: int,
    updatedAt: int)

  datatype PromptResolution = PromptResolution(verdict: Verdict, atMs: int) {
    /** Only a status recorded after the row went waiting can answer its prompt. */
    predicate Clears(waitingSinceMs: int) {
      !verdict.NoSignal? && atMs > waitingSinceMs
    }
  }

  const NO_RESOLUTION := PromptResolution(NoSignal, 0)

  datatype ScanState = ScanState(
    threadId: string,
    threadName: string,
    verdict: Verdict,
    prompt: PromptResolution,
    waitingSinceMs: int)
  {
    predicate HasSignal() {
      !verdict.NoSignal? || !prompt.verdict.NoSignal? || waitingSinceMs != 0
    }

    /** The reading records an open dialog that the row does not already describe. */
    predicate OpensDialog(previous: Option<Row>) {
      waitingSinceMs != 0
      && (previous.None? || !(previous.value.status.Waiting? || previous.value.ts >= waitingSinceMs))
    }

    function WaitingOver(previous: Option<Row>, ev: Row): Row {
      var w := ev.(status := Waiting, ts := waitingSinceMs);
      if previous.Some? then
        w.(toolDescription := previous.value.toolDescription, toolVerb := previous.value.toolVerb)
      else w
    }
  }

  // ----- the session file -----

  predicate BusyHung(file: SessionFile, now: int) {
    file.updatedAt != 0 && now - file.updatedAt > BUSY_HUNG_MS
  }

  function ClassifyPromptResolution(file: SessionFile, now: int): PromptResolution {
    if file.statusUpdatedAt == 0 then NO_RESOLUTION
    else match file.status
      case FileBusy => if BusyHung(file, now) then NO_RESOLUTION else PromptResolution(Working, file.statusUpdatedAt)
      case FileIdle => PromptResolution(VerdictDone, file.statusUpdatedAt)
      case _ => NO_RESOLUTION
  }

  function DialogOpenSince(file: SessionFile): int {
    if file.status.FileWaiting? then file.statusUpdatedAt else 0
  }

  function ScanStateForFile(file: Option<SessionFile>, now: int): ScanState {
    if file.None? then ScanState("", "", NoSignal, NO_RESOLUTION, 0)
    else
      ScanState(file.value.sessionId, file.value.name,
                if file.value.status.FileShell? then Working else NoSignal,
                ClassifyPromptResolution(file.value, now),
                DialogOpenSince(file.value))
  }

  // ----- the fold -----

  function ScanStatus(verdict: Verdict): Option<Status> {
    match verdict
    case Working => Some(Running)
    case VerdictDone => Some(Done)
    case VerdictInterrupted => Some(Interrupted)
    case VerdictError => Some(Error)
    case _ => None
  }

  /** What one reading makes of the row it describes, None to leave the row alone. */
  function ScanEventOver(previous: Option<Row>, ev: Row, state: ScanState): Option<Row> {
    if previous.Some? && previous.value.status.Waiting? then
      if !state.prompt.Clears(previous.value.ts) then None
      else
        match ScanStatus(state.prompt.verdict)
        case None => None
        case Some(Running) =>
          Some(ev.(status := Running, toolDescription := previous.value.toolDescription,
                   toolVerb := previous.value.toolVerb))
        case Some(status) => Some(ev.(status := status))
    else if state.OpensDialog(previous) then Some(state.WaitingOver(previous, ev))
    else
      match ScanStatus(state.verdict)
      case None => None
      case Some(status) => Some(ev.(status := status))
  }

  /** The row a lookup by agent and thread finds. */
  function RowOfThread(rows: Rows, agent: string, threadId: string): Option<Row> {
    if threadId == "" then None else Lookup(rows, Thread(agent, threadId))
  }

  /** One reading folded into a session; ev is its event before it has a status. */
  ghost predicate ReadingStep(s: Session, ev: Row, state: ScanState, active: bool, now: int, s': Session) {
    var next := if state.HasSignal() then
        ScanEventOver(RowOfThread(s.rows, ev.agent, ev.threadId), ev, state) else None;
    match next
    case None => s' == s
    case Some(row) => EventStep(s, Event(row, false, false, 0), false, active, now, s')
  }

  lemma SupersedingKeepsStatus(rows: Rows, key: Key, stored: Row, r: Row, gone: set<Key>)
    requires Supersedes(rows, key, stored, r, gone)
    ensures r.status == stored.status && r.ts == stored.ts
    ensures r.toolDescription == stored.toolDescription && r.toolVerb == stored.toolVerb
  {
  }

  lemma EnrichKeepsStatus(prev: Option<Row>, ev: Row)
    ensures
      var r := Enrich(prev, ev);
      r.status == ev.status && r.ts == ev.ts && r.toolDescription == ev.toolDescription && r.toolVerb == ev.toolVerb
  {
  }

  /** Folding an event leaves its row with the event's status, time and call. */
  lemma EventSetsStatus(s: Session, row: Row, active: bool, now: int, s': Session)
    requires EventStep(s, Event(row, false, false, 0), false, active, now, s')
    ensures
      var key := InstanceKey(row.agent, row.threadId);
      && key in s'.rows && s'.rows[key].status == row.status && s'.rows[key].ts == row.ts
      && s'.rows[key].toolDescription == row.toolDescription && s'.rows[key].toolVerb == row.toolVerb
  {
    var key := InstanceKey(row.agent, row.threadId);
    var stored := Enrich(Lookup(s.rows, key), row);
    EnrichKeepsStatus(Lookup(s.rows, key), row);
    var rows := s.rows[key := stored];
    assert Settles(s, rows, key, stored, !active, s');
    var r, gone :| Supersedes(rows, key, stored, r, gone) && s' == Settle(s, key, r, gone, !active);
    SupersedingKeepsStatus(rows, key, stored, r, gone);
  }

  /** The statuses an answered prompt or a scan's verdict can leave. */
  predicate Gives(verdict: Verdict, status: Status) {
    || (verdict == Working && status == Running) || (verdict == VerdictDone && status == Done)
    || (verdict == VerdictInterrupted && status == Interrupted) || (verdict == VerdictError && status == Error)
  }

  /** A waiting row leaves its state if and only if the reading records, strictly after the
      row went waiting, that the agent is working, done, interrupted or failed, and then
      takes that status; it is left exactly alone otherwise. An approval keeps the
      description and the verb of the call the prompt was about. */
  lemma WaitingLeavesOnlyWhenAnswered(s: Session, ev: Row, state: ScanState, active: bool, now: int, s': Session)
    requires ReadingStep(s, ev, state, active, now, s') && ev.threadId != ""
    requires
      var key := Thread(ev.agent, ev.threadId);
      key in s.rows && s.rows[key].status.Waiting?
    ensures
      var key := Thread(ev.agent, ev.threadId);
      if state.prompt.atMs > s.rows[key].ts
         && state.prompt.verdict in {Working, VerdictDone, VerdictInterrupted, VerdictError} then
        && key in s'.rows && s'.rows[key].ts == ev.ts
        && Gives(state.prompt.verdict, s'.rows[key].status)
        && var call := if state.prompt.verdict == Working then s.rows[key] else ev;
           s'.rows[key].toolDescription == call.toolDescription && s'.rows[key].toolVerb == call.toolVerb
      else s' == s
  {
    var next := ScanEventOver(RowOfThread(s.rows, ev.agent, ev.threadId), ev, state);
    if state.HasSignal() && next.Some? {
      EventSetsStatus(s, next.value, active, now, s');
    }
  }

  /** What a session file makes of a waiting row: busy and not hung for thirty minutes, or
      idle, since after the row went waiting, it ends the wait as running or as done; any
      other file leaves the row alone. */
  lemma FileEndsWaitIff(s: Session, ev: Row, file: Option<SessionFile>, at: int, active: bool, now: int, s': Session)
    requires ReadingStep(s, ev, ScanStateForFile(file, at), active, now, s') && ev.threadId != ""
    requires
      var key := Thread(ev.agent, ev.threadId);
      key in s.rows && s.rows[key].status.Waiting?
    ensures
      var key := Thread(ev.agent, ev.threadId);
      if file.Some? && file.value.statusUpdatedAt != 0 && file.value.statusUpdatedAt > s.rows[key].ts
         && file.value.status == FileBusy && (file.value.updatedAt == 0 || at - file.value.updatedAt <= 1800000) then
        key in s'.rows && s'.rows[key].status == Running && s'.rows[key].ts == ev.ts
      else if file.Some? && file.value.statusUpdatedAt != 0 && file.value.statusUpdatedAt > s.rows[key].ts
              && file.value.status == FileIdle then
        key in s'.rows && s'.rows[key].status == Done && s'.rows[key].ts == ev.ts
      else s' == s
  {
    WaitingLeavesOnlyWhenAnswered(s, ev, ScanStateForFile(file, at), active, now, s');
  }

  /** What a session file makes of a row that is not waiting, or of none: a dialog open since
      after the row's latest event turns it waiting at that time, a shell turns it running,
      and any other file leaves the session alone. */
  lemma FileOverOther(s: Session, ev: Row, file: Option<SessionFile>, at: int, active: bool, now: int, s': Session)
    requires ReadingStep(s, ev, ScanStateForFile(file, at), active, now, s') && ev.threadId != ""
    requires
      var key := Thread(ev.agent, ev.threadId);
      key in s.rows ==> !s.rows[key].status.Waiting?
    ensures
      var key := Thread(ev.agent, ev.threadId);
      if file.Some? && file.value.status == FileWaiting && file.value.statusUpdatedAt != 0
         && (key in s.rows ==> s.rows[key].ts < file.value.statusUpdatedAt) then
        key in s'.rows && s'.rows[key].status == Waiting && s'.rows[key].ts == file.value.statusUpdatedAt
      else if file.Some? && file.value.status == FileShell then
        && key in s'.rows && s'.rows[key].status == Running && s'.rows[key].ts == ev.ts
        && s'.rows[key].toolDescription == ev.toolDescription && s'.rows[key].toolVerb == ev.toolVerb
      else s' == s
  {
    var state, key := ScanStateForFile(file, at), Thread(ev.agent, ev.threadId);
    if state.waitingSinceMs != 0 && (key in s.rows ==> s.rows[key].ts < state.waitingSinceMs) {
      DialogRestoresWaiting(s, ev, state, active, now, s');
    } else {
      ReadingSets(s, ev, state, active, now, s');
    }
  }

  /** A reading without a dialog to record gives a row that is not waiting the status of its
      verdict, or leaves the session alone when it has none. */
  lemma ReadingSets(s: Session, ev: Row, state: ScanState, active: bool, now: int, s': Session)
    requires ReadingStep(s, ev, state, active, now, s') && ev.threadId != ""
    requires
      var key := Thread(ev.agent, ev.threadId);
      && (key in s.rows ==> !s.rows[key].status.Waiting?)
      && (state.waitingSinceMs == 0 || (key in s.rows && s.rows[key].ts >= state.waitingSinceMs))
    ensures
      var key := Thread(ev.agent, ev.threadId);
      if state.verdict in {Working, VerdictDone, VerdictInterrupted, VerdictError} then
        && key in s'.rows && s'.rows[key].ts == ev.ts && Gives(state.verdict, s'.rows[key].status)
        && s'.rows[key].toolDescription == ev.toolDescription && s'.rows[key].toolVerb == ev.toolVerb
      else s' == s
  {
    var next := ScanEventOver(RowOfThread(s.rows, ev.agent, ev.threadId), ev, state);
    if state.HasSignal() && next.Some? {
      EventSetsStatus(s, next.value, active, now, s');
    }
  }

  /** A reading turns a row that is not waiting into a waiting one exactly when it records
      a dialog opened after the row's latest event; the row takes the dialog's time and
      keeps its call description. */
  lemma DialogRestoresWaiting(s: Session, ev: Row, state: ScanState, active: bool, now: int, s': Session)
    requires ReadingStep(s, ev, state, active, now, s') && ev.threadId != ""
    requires
      var previous := RowOfThread(s.rows, ev.agent, ev.threadId);
      previous.Some? ==> !previous.value.status.Waiting?
    ensures
      var key := Thread(ev.agent, ev.threadId);
      && (key in s'.rows && s'.rows[key].status.Waiting? <==>
          state.waitingSinceMs != 0 && (key in s.rows ==> s.rows[key].ts < state.waitingSinceMs))
      && (key in s'.rows && s'.rows[key].status.Waiting? ==>
          && s'.rows[key].ts == state.waitingSinceMs
          && (key in s.rows ==>
              && s'.rows[key].toolDescription == s.rows[key].toolDescription
              && s'.rows[key].toolVerb == s.rows[key].toolVerb))
  {
    var next := ScanEventOver(RowOfThread(s.rows, ev.agent, ev.threadId), ev, state);
    if state.HasSignal() && next.Some? {
      EventSetsStatus(s, next.value, active, now, s');
    }
  }

  datatype Reading = Reading(ev: Row, state: ScanState, active: bool, at: int) {
    /** The reading records, strictly after that time, that the agent is working, done,
        interrupted or failed. */
    predicate Answers(since: int) {
      state.prompt.atMs > since && state.prompt.verdict in {Working, VerdictDone, VerdictInterrupted, VerdictError}
    }
  }

  /** A sequence of readings of one thread. */
  ghost predicate ReadingRun(states: seq<Session>, readings: seq<Reading>, agent: string, threadId: string) {
    && |states| == |readings| + 1
    && forall i :: 0 <= i < |readings| ==>
         && readings[i].ev.agent == agent && readings[i].ev.threadId == threadId
         && ReadingStep(states[i], readings[i].ev, readings[i].state, readings[i].active, readings[i].at, states[i + 1])
  }

  /** However many readings a waiting row's thread gets, the row is untouched until one of
      them answers a prompt strictly after the time the row went waiting. */
  lemma {:induction false} WaitingDoesNotFlap(states: seq<Session>, readings: seq<Reading>, agent: string,
                                              threadId: string, n: nat)
    requires ReadingRun(states, readings, agent, threadId) && threadId != "" && n < |states|
    requires
      var key := Thread(agent, threadId);
      key in states[0].rows && states[0].rows[key].status.Waiting?
    requires forall i :: 0 <= i < n ==> !readings[i].Answers(states[0].rows[Thread(agent, threadId)].ts)
    ensures states[n] == states[0]
  {
    if n > 0 {
      WaitingDoesNotFlap(states, readings, agent, threadId, n - 1);
      WaitingLeavesOnlyWhenAnswered(states[n - 1], readings[n - 1].ev, readings[n - 1].state,
                                    readings[n - 1].active, readings[n - 1].at, states[n]);
    }
  }

  function StatusOf(rows: Rows, k: Key): Option<Status> {
    if k in rows then Some(rows[k].status) else None
  }

  /** The status one reading leaves, as a function of the status and time it finds. */
  lemma ReadingStatus(s: Session, ev: Row, state: ScanState, active: bool, now: int, s': Session)
    requires ReadingStep(s, ev, state, active, now, s') && ev.threadId != ""
    ensures
      var key := Thread(ev.agent, ev.threadId);
      var next := ScanEventOver(Lookup(s.rows, key), ev, state);
      if state.HasSignal() && next.Some? then
        key in s'.rows && s'.rows[key].status == next.value.status && s'.rows[key].ts == next.value.ts
      else s' == s
  {
    var next := ScanEventOver(RowOfThread(s.rows, ev.agent, ev.threadId), ev, state);
    if state.HasSignal() && next.Some? {
      EventSetsStatus(s, next.value, active, now, s');
    }
  }

  /** The row, if any, after one application of a file's reading; a later reading of the
      same file does not change its status. */
  lemma FileReadingSettles(file: Option<SessionFile>, now1: int, now2: int, previous: Option<Row>,
                           ev1: Row, ev2: Row, after: Option<Row>)
    requires now1 <= now2
    requires
      var state := ScanStateForFile(file, now1);
      var next := ScanEventOver(previous, ev1, state);
      if state.HasSignal() && next.Some? then
        after.Some? && after.value.status == next.value.status && after.value.ts == next.value.ts
      else after == previous
    ensures
      var state := ScanStateForFile(file, now2);
      var again := ScanEventOver(after, ev2, state);
      state.HasSignal() && again.Some? ==> after.Some? && again.value.status == after.value.status
  {
  }

  /** A reading taken from a session file settles the row: reading the unchanged file again
      at any later time, by which a busy file may have turned hung, does not change the
      row's status. */
  lemma FileReadingIsIdempotent(s: Session, file: Option<SessionFile>, now1: int, now2: int,
                                ev1: Row, ev2: Row, active1: bool, active2: bool, at1: int, at2: int,
                                s1: Session, s2: Session)
    requires now1 <= now2 && ev1.agent == ev2.agent && ev1.threadId == ev2.threadId != ""
    requires ReadingStep(s, ev1, ScanStateForFile(file, now1), active1, at1, s1)
    requires ReadingStep(s1, ev2, ScanStateForFile(file, now2), active2, at2, s2)
    ensures
      var key := Thread(ev1.agent, ev1.threadId);
      StatusOf(s2.rows, key) == StatusOf(s1.rows, key)
  {
    var key := Thread(ev1.agent, ev1.threadId);
    ReadingStatus(s, ev1, ScanStateForFile(file, now1), active1, at1, s1);
    ReadingStatus(s1, ev2, ScanStateForFile(file, now2), active2, at2, s2);
    FileReadingSettles(file, now1, now2, Lookup(s.rows, key), ev1, ev2, Lookup(s1.rows, key));
  }
}
