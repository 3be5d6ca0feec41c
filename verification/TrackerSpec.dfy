/** What each tracker operation does to one session, as functions and relations on
    values. Where the program walks a map, whose order is random, the relation allows
    every order. */
module TrackerSpec {
  import opened Wrappers
  import opened AgentModel

  const END_SUPPRESS_MS := 5000
  const ALIVE_PRUNE_CEILING_MS := 30 * 60 * 1000

  /** Removes rows together with their side-table entries. */
  function Forget(s: Session, gone: set<Key>): Session {
    s.(rows := s.rows - gone, unseen := s.unseen - gone, misses := s.misses - gone)
  }

  // ----- watcher events -----

  function Prefer(own: string, other: string): string {
    if own != "" then own else other
  }

  function PreferIndex(own: Option<int>, other: Option<int>): Option<int> {
    if own.Some? then own else other
  }

  function PreferLiveness(own: Liveness, other: Liveness): Liveness {
    if own.Unset? then other else own
  }

  function KeepBinding(ev: Row, prev: Row): Row {
    if prev.paneId == "" then ev
    else ev.(paneId := Prefer(ev.paneId, prev.paneId),
             liveness := PreferLiveness(ev.liveness, prev.liveness),
             windowIndex := PreferIndex(ev.windowIndex, prev.windowIndex),
             paneIndex := PreferIndex(ev.paneIndex, prev.paneIndex))
  }

  function KeepIdentity(ev: Row, prev: Row): Row {
    ev.(pid := if ev.pid == 0 then prev.pid else ev.pid,
        paneTitle := Prefer(ev.paneTitle, prev.paneTitle),
        subagent := Prefer(ev.subagent, prev.subagent),
        threadName := Prefer(ev.threadName, prev.threadName),
        firstSeenTs := if prev.firstSeenTs != 0 then prev.firstSeenTs else ev.firstSeenTs)
  }

  /** The event's row after it inherits what its predecessor knew. */
  function Enrich(prev: Option<Row>, ev: Row): Row {
    var r := if prev.Some? then KeepIdentity(KeepBinding(ev, prev.value), prev.value) else ev;
    if r.firstSeenTs == 0 then r.(firstSeenTs := r.ts) else r
  }

  function AdoptPane(dst: Row, src: Row): Row {
    dst.(paneId := Prefer(dst.paneId, src.paneId),
         liveness := PreferLiveness(dst.liveness, src.liveness),
         windowIndex := PreferIndex(dst.windowIndex, src.windowIndex),
         paneIndex := PreferIndex(dst.paneIndex, src.paneIndex),
         paneTitle := Prefer(dst.paneTitle, src.paneTitle))
  }

  /** k is another row of the process that stored describes. */
  predicate SameProcess(rows: Rows, key: Key, stored: Row, k: Key) {
    k in rows && k != key && stored.pid != 0 && rows[k].agent == stored.agent && rows[k].pid == stored.pid
  }

  /** k is a synthetic row that may graduate into stored when no pid decides. */
  predicate MayGraduate(rows: Rows, key: Key, stored: Row, k: Key) {
    && k in rows && k != key && rows[k].agent == stored.agent && Synthetic(k)
    && if stored.paneId == "" then
         rows[k].paneId != "" && !(stored.pid != 0 && rows[k].pid != 0 && rows[k].pid != stored.pid)
       else
         rows[k].paneId == stored.paneId
  }

  function Graduate(stored: Row, k: Row): Row {
    if stored.paneId == "" then AdoptPane(stored, k).(liveness := k.liveness) else stored
  }

  /** The row an event ends with and the rows it replaces. */
  ghost predicate Supersedes(rows: Rows, key: Key, stored: Row, r: Row, gone: set<Key>) {
    if exists k :: SameProcess(rows, key, stored, k) then
      && (forall k :: k in gone <==> SameProcess(rows, key, stored, k))
      && exists k :: SameProcess(rows, key, stored, k) && r == AdoptPane(stored, rows[k])
    else if exists k :: MayGraduate(rows, key, stored, k) then
      exists k :: MayGraduate(rows, key, stored, k) && gone == {k} && r == Graduate(stored, rows[k])
    else
      gone == {} && r == stored
  }

  function FlagUnseen(unseen: set<Key>, key: Key, status: Status, inactive: bool): set<Key> {
    if NeedsAttention(status) then (if inactive then unseen + {key} else unseen)
    else unseen - {key}
  }

  function EndRow(s: Session, key: Key, now: int): Session {
    var ended := if key in s.rows && s.rows[key].paneId != "" then
                   s.ended[(key.agent, s.rows[key].paneId) := now + END_SUPPRESS_MS]
                 else s.ended;
    Forget(s, {key}).(ended := ended)
  }

  /** A live event that ends as row r and replaces the rows in gone. */
  function Settle(s: Session, key: Key, r: Row, gone: set<Key>, inactive: bool): Session {
    var s1 := Forget(s, gone);
    s1.(rows := s1.rows[key := r], unseen := FlagUnseen(s1.unseen, key, r.status, inactive))
  }

  ghost predicate Settles(s: Session, rows: Rows, key: Key, stored: Row, inactive: bool, s': Session) {
    exists r, gone ::
      Supersedes(rows, key, stored, r, gone) && s' == Settle(s, key, r, gone, inactive)
  }

  ghost predicate EventStep(s: Session, ev: Event, seed: bool, active: bool, now: int, s': Session) {
    var key := InstanceKey(ev.row.agent, ev.row.threadId);
    if ev.ended then s' == EndRow(s, key, now)
    else
      var stored := Enrich(Lookup(s.rows, key), ev.row);
      Settles(s, s.rows[key := stored], key, stored, seed || !active, s')
  }

  // ----- pane scan, step 1: rows whose pane disappeared -----

  function ActivePanes(panes: seq<Presence>): set<string> {
    set i | 0 <= i < |panes| :: panes[i].paneId
  }

  predicate BoundTo(rows: Rows, pane: string) {
    pane != "" && exists k :: k in rows && rows[k].liveness.Alive? && rows[k].paneId == pane
  }

  /** How many incoming panes of the agent no alive row is bound to. */
  function SpareCount(rows: Rows, panes: seq<Presence>, agent: string): nat {
    if |panes| == 0 then 0
    else
      var last := panes[|panes| - 1];
      SpareCount(rows, panes[..|panes| - 1], agent)
      + if last.agent == agent && !BoundTo(rows, last.paneId) then 1 else 0
  }

  predicate IsMissing(rows: Rows, active: set<string>, k: Key) {
    k in rows && rows[k].liveness.Alive? && rows[k].paneId != "" && rows[k].paneId !in active
  }

  function MissingKeys(rows: Rows, active: set<string>): set<Key> {
    set k | k in rows && IsMissing(rows, active, k)
  }

  function OfAgent(rows: Rows, ks: set<Key>, agent: string): set<Key> {
    set k | k in ks && k in rows && rows[k].agent == agent
  }

  /** excused are missing rows a spare pane stands in for; a spare pane is left over only
      when every missing row of its agent is excused. */
  ghost predicate Excusable(rows: Rows, panes: seq<Presence>, excused: set<Key>) {
    var missing := MissingKeys(rows, ActivePanes(panes));
    && excused <= missing
    && forall agent ::
         var mine := OfAgent(rows, excused, agent);
         && |mine| <= SpareCount(rows, panes, agent)
         && (|mine| < SpareCount(rows, panes, agent) ==> OfAgent(rows, missing, agent) <= mine)
  }

  function MissCount(s: Session, k: Key): int {
    if k in s.misses then s.misses[k] else 0
  }

  function Due(s: Session, missed: set<Key>, threshold: int): set<Key> {
    set k | k in missed && MissCount(s, k) + 1 >= threshold
  }

  function Unbind(r: Row): Row {
    r.(liveness := Exited, paneId := "")
  }

  /** The missed rows count one more miss or, when due, exit; a due synthetic row goes. */
  function ApplyMisses(s: Session, missed: set<Key>, excused: set<Key>, threshold: int): Session {
    var due := Due(s, missed, threshold);
    var gone := set k | k in due && Synthetic(k);
    Session(
      map k | k in s.rows && k !in gone :: if k in due then Unbind(s.rows[k]) else s.rows[k],
      s.unseen - gone,
      map k | k in s.misses.Keys + missed && k !in excused && k !in due ::
        if k in missed then MissCount(s, k) + 1 else s.misses[k],
      s.ended)
  }

  function AfterMisses(s: Session, panes: seq<Presence>, excused: set<Key>, threshold: int): Session {
    ApplyMisses(s, MissingKeys(s.rows, ActivePanes(panes)) - excused, excused, threshold)
  }

  // ----- pane scan, step 2: claim or mint one row per pane -----

  predicate Eligible(rows: Rows, claimed: set<Key>, pa: Presence, k: Key) {
    && k in rows && rows[k].agent == pa.agent && k !in claimed
    && !rows[k].liveness.Exited? && !Synthetic(k)
  }

  predicate ThreadMatch(rows: Rows, claimed: set<Key>, pa: Presence, k: Key) {
    Eligible(rows, claimed, pa, k) && pa.threadId != "" && k == Thread(pa.agent, pa.threadId)
  }

  /** A pid match that carries another resolved thread id is the superseded identity. */
  predicate PidMatch(rows: Rows, claimed: set<Key>, pa: Presence, k: Key) {
    && Eligible(rows, claimed, pa, k) && pa.pid != 0 && rows[k].pid == pa.pid
    && !(pa.threadId != "" && rows[k].threadId != "" && rows[k].threadId != pa.threadId)
  }

  predicate PidlessMatch(rows: Rows, claimed: set<Key>, pa: Presence, k: Key) {
    Eligible(rows, claimed, pa, k) && rows[k].pid == 0
  }

  predicate PidlessBound(rows: Rows, claimed: set<Key>, pa: Presence, k: Key) {
    PidlessMatch(rows, claimed, pa, k) && rows[k].paneId == pa.paneId
  }

  /** The rows the pane may claim: the thread's own row, else a row of its process, else
      a row without a pid, one already on this pane first. */
  ghost predicate MayClaim(rows: Rows, claimed: set<Key>, pa: Presence, k: Key) {
    if exists q :: ThreadMatch(rows, claimed, pa, q) then ThreadMatch(rows, claimed, pa, k)
    else if exists q :: PidMatch(rows, claimed, pa, q) then PidMatch(rows, claimed, pa, k)
    else if exists q :: PidlessBound(rows, claimed, pa, q) then PidlessBound(rows, claimed, pa, k)
    else PidlessMatch(rows, claimed, pa, k)
  }

  function Stamp(r: Row, pa: Presence, threadName: string): Row {
    r.(paneId := pa.paneId, liveness := Alive, windowIndex := pa.windowIndex,
       paneIndex := pa.paneIndex, paneTitle := pa.paneTitle,
       threadName := Prefer(threadName, r.threadName))
  }

  /** A live row of another process holds the thread key. */
  predicate HeldElsewhere(rows: Rows, pa: Presence, k: Key) {
    k in rows && rows[k].pid != 0 && rows[k].pid != pa.pid && rows[k].liveness.Alive?
  }

  function MintKey(rows: Rows, pa: Presence): Key {
    var tk := InstanceKey(pa.agent, pa.threadId);
    if pa.threadId != "" && !HeldElsewhere(rows, pa, tk) then tk else Pane(pa.agent, pa.paneId)
  }

  function MintedRow(rows: Rows, pa: Presence, now: int): Row {
    var k := MintKey(rows, pa);
    var name := if k.Thread? then pa.threadName else "";
    if k in rows then Stamp(rows[k], pa, name).(pid := pa.pid)
    else Row(pa.agent, if k.Thread? then k.thread else "", name, Idle, now, 0, pa.paneId,
             pa.windowIndex, pa.paneIndex, Alive, pa.pid, pa.paneTitle, "", "", "")
  }

  predicate Suppressed(s: Session, pa: Presence, now: int) {
    (pa.agent, pa.paneId) in s.ended && now < s.ended[(pa.agent, pa.paneId)]
  }

  function Superseded(rows: Rows, keep: Key, agent: string, pid: int): set<Key> {
    set k | k in rows && k != keep && pid != 0 && rows[k].agent == agent && rows[k].pid == pid
  }

  predicate IsDisplaced(rows: Rows, keep: Key, agent: string, pane: string, pid: int, alivePids: set<int>, k: Key) {
    && k in rows && k != keep && pane != "" && rows[k].agent == agent && rows[k].paneId == pane
    && rows[k].liveness.Alive? && rows[k].pid != pid && !(rows[k].pid != 0 && rows[k].pid in alivePids)
  }

  function Displaced(rows: Rows, keep: Key, agent: string, pane: string, pid: int, alivePids: set<int>): set<Key> {
    set k | k in rows && IsDisplaced(rows, keep, agent, pane, pid, alivePids, k)
  }

  function RetireSuperseded(s: Session, keep: Key, agent: string, pid: int): Session {
    Forget(s, Superseded(s.rows, keep, agent, pid))
  }

  function UnbindRows(s: Session, out: set<Key>): Session {
    s.(rows := map k | k in s.rows :: if k in out then Unbind(s.rows[k]) else s.rows[k],
       misses := s.misses - out)
  }

  function RetireDisplaced(s: Session, keep: Key, agent: string, pane: string, pid: int, alivePids: set<int>): Session {
    UnbindRows(s, Displaced(s.rows, keep, agent, pane, pid, alivePids))
  }

  /** Pane pa gives row k the value r, then retires what the pane's process and the
      pane itself displace. */
  function Bind(s: Session, k: Key, r: Row, pa: Presence, alivePids: set<int>): Session {
    var s1 := s.(rows := s.rows[k := r], misses := s.misses - {k});
    var s2 := RetireSuperseded(s1, k, pa.agent, pa.pid);
    RetireDisplaced(s2, k, pa.agent, pa.paneId, pa.pid, alivePids)
  }

  function Expire(s: Session, pa: Presence): Session {
    s.(ended := s.ended - {(pa.agent, pa.paneId)})
  }

  /** The clock and the process table as one scan sees them. */
  datatype Env = Env(now: int, alivePids: set<int>)

  ghost predicate PaneStep(s: Session, claimed: set<Key>, pa: Presence, env: Env,
                           s': Session, claimed': set<Key>, kept: Option<Key>) {
    if exists k :: MayClaim(s.rows, claimed, pa, k) then
      && kept.Some? && MayClaim(s.rows, claimed, pa, kept.value)
      && claimed' == claimed + {kept.value}
      && s' == Bind(s, kept.value, Stamp(s.rows[kept.value], pa, pa.threadName), pa, env.alivePids)
    else if Suppressed(s, pa, env.now) then
      kept == None && claimed' == claimed && s' == s
    else
      && kept == Some(MintKey(s.rows, pa)) && claimed' == claimed
      && s' == Bind(Expire(s, pa), kept.value, MintedRow(s.rows, pa, env.now), pa, env.alivePids)
  }

  // ----- pane scan, step 3 and the whole scan -----

  predicate IsSeedGhost(rows: Rows, claimed: set<Key>, k: Key) {
    && k in rows && k !in claimed && !Synthetic(k) && rows[k].liveness.Unset?
    && (NeedsAttention(rows[k].status) || rows[k].status.Idle?)
  }

  function ExitGhosts(s: Session, claimed: set<Key>): Session {
    s.(rows := map k | k in s.rows ::
         if IsSeedGhost(s.rows, claimed, k) then s.rows[k].(liveness := Exited) else s.rows[k])
  }

  /** One scan's choices: the rows excused in step 1, then for each pane of step 2 the
      state and the claimed set before it and the row kept for it. */
  datatype ScanTrace = ScanTrace(
    excused: set<Key>,
    states: seq<Session>,
    claims: seq<set<Key>>,
    kept: seq<Option<Key>>)

  ghost predicate PanesTraced(panes: seq<Presence>, env: Env, tr: ScanTrace) {
    && |tr.kept| == |panes| && |tr.states| == |panes| + 1 && |tr.claims| == |panes| + 1
    && tr.claims[0] == {}
    && forall i :: 0 <= i < |panes| ==>
         PaneStep(tr.states[i], tr.claims[i], panes[i], env, tr.states[i + 1], tr.claims[i + 1], tr.kept[i])
  }

  /** Step 1 removed the session's last row: the program then works on a map that is no
      longer the session's. */
  predicate Detached(s: Session, s1: Session) {
    s.rows != map[] && s1.rows == map[]
  }

  /** A detached scan leaves the session empty and may only drop expired suppressions. */
  ghost predicate OnlyExpires(s: Session, now: int, s': Session) {
    && s' == s.(ended := s'.ended)
    && (forall p :: p in s'.ended ==> p in s.ended && s'.ended[p] == s.ended[p])
    && (forall p :: p in s.ended && p !in s'.ended ==> s.ended[p] <= now)
  }

  ghost predicate ScanStep(s: Session, panes: seq<Presence>, env: Env, threshold: int, tr: ScanTrace, s': Session) {
    && Excusable(s.rows, panes, tr.excused)
    && var s1 := AfterMisses(s, panes, tr.excused, threshold);
       if Detached(s, s1) then OnlyExpires(s1, env.now, s')
       else
         && PanesTraced(panes, env, tr)
         && tr.states[0] == s1
         && s' == ExitGhosts(tr.states[|panes|], tr.claims[|panes|])
  }

  // ----- sweeps, prunes and dismissal -----

  function Sweep(s: Session, alivePids: set<int>): Session {
    s.(rows := map k | k in s.rows ::
         if SweepExits(s.rows[k], alivePids) then s.rows[k].(liveness := Exited) else s.rows[k])
  }

  predicate SweepExits(r: Row, alivePids: set<int>) {
    r.pid != 0 && !r.liveness.Exited? && !IsTerminal(r.status) && r.pid !in alivePids
  }

  predicate IsStale(r: Row, now: int, staleMs: int) {
    r.status.Running? && r.liveness.Alive? && r.pid != 0 && now - r.ts > staleMs
  }

  function ReconcileRow(r: Row, now: int, staleMs: int, probe: Row -> Verdict): Row {
    if !IsStale(r, now, staleMs) then r
    else match probe(r)
      case Ended => r.(status := Done, ts := now)
      case Working => r.(ts := now)
      case _ => r
  }

  function Reconcile(s: Session, now: int, staleMs: int, probe: Row -> Verdict): Session {
    s.(rows := map k | k in s.rows :: ReconcileRow(s.rows[k], now, staleMs, probe))
  }

  predicate IsStuck(r: Row, now: int, timeoutMs: int) {
    && r.status.Running? && now - r.ts > timeoutMs
    && !(r.liveness.Alive? && now - r.ts <= ALIVE_PRUNE_CEILING_MS)
  }

  predicate IsDead(r: Row) {
    r.liveness.Exited? && !r.status.Running?
  }

  function StuckTest(now: int, timeoutMs: int): Row -> bool {
    r => IsStuck(r, now, timeoutMs)
  }

  function DeadTest(): Row -> bool {
    r => IsDead(r)
  }

  function ForgetWhere(s: Session, test: Row -> bool): Session {
    Forget(s, set k | k in s.rows && test(s.rows[k]))
  }

  function PruneStuck(s: Session, now: int, timeoutMs: int): Session {
    ForgetWhere(s, StuckTest(now, timeoutMs))
  }

  function PruneTerminal(s: Session): Session {
    ForgetWhere(s, DeadTest())
  }

  /** An empty string or a zero pid matches every row. */
  predicate Matches(r: Row, agent: string, threadId: string, paneId: string, pid: int) {
    && r.agent == agent && (threadId == "" || r.threadId == threadId)
    && (paneId == "" || r.paneId == paneId) && (pid == 0 || r.pid == pid)
  }

  function MarkSeen(s: Session): Session {
    s.(unseen := s.unseen - s.rows.Keys)
  }
}
