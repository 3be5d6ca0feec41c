/** The tracker itself: a table of row maps per session with its side tables, changed in
    place. Every method is proved against the per-session relations of TrackerSpec. */
module AgentTracker {
  import opened Wrappers
  import opened AgentModel
  import opened TrackerSpec
  import opened TrackerInvariants

  const MAX_EVENT_TIMESTAMPS := 30

  /** One session's instance map; the tracker and a running scan may share it. */
  class RowMap {
    var rows: Rows

    constructor ()
      ensures rows == map[]
    {
      rows := map[];
    }
  }

  function Get<V>(m: map<string, V>, session: string, default: V): V {
    if session in m then m[session] else default
  }

  function LastOf(ts: seq<int>, n: nat): (last: seq<int>)
    ensures |last| == (if |ts| < n then |ts| else n) && last == ts[|ts| - |last|..]
  {
    if |ts| > n then ts[|ts| - n..] else ts
  }

  /** The first graduation candidate the map yields, if there is one. */
  method FindGraduate(rows: Rows, key: Key, stored: Row) returns (found: Option<Key>)
    ensures found.Some? ==> MayGraduate(rows, key, stored, found.value)
    ensures found.None? ==> forall k :: !MayGraduate(rows, key, stored, k)
  {
    var todo := rows.Keys;
    while todo != {}
      invariant todo <= rows.Keys
      invariant forall k :: k in rows && k !in todo ==> !MayGraduate(rows, key, stored, k)
      decreases todo
    {
      var k :| k in todo;
      todo := todo - {k};
      var ev := rows[k];
      if k == key || ev.agent != stored.agent || !Synthetic(k) {
        continue;
      }
      if ev.paneId != "" && stored.paneId == "" {
        if stored.pid != 0 && ev.pid != 0 && ev.pid != stored.pid {
          continue;
        }
        return Some(k);
      }
      if stored.paneId != "" && ev.paneId == stored.paneId {
        return Some(k);
      }
    }
    return None;
  }

  /** How one row bears on a pane's claim. */
  datatype ClaimKind = NoClaim | ByThread | ByPid | ByFallback(bound: bool)

  method ClassifyClaim(rows: Rows, claimed: set<Key>, pa: Presence, k: Key) returns (kind: ClaimKind)
    requires k in rows
    ensures kind.ByThread? <==> ThreadMatch(rows, claimed, pa, k)
    ensures kind.ByPid? <==> PidMatch(rows, claimed, pa, k) && !ThreadMatch(rows, claimed, pa, k)
    ensures kind.ByFallback? <==> PidlessMatch(rows, claimed, pa, k) && !ThreadMatch(rows, claimed, pa, k)
    ensures kind.ByFallback? ==> (kind.bound <==> PidlessBound(rows, claimed, pa, k))
  {
    var ev := rows[k];
    if ev.agent != pa.agent || k in claimed || ev.liveness.Exited? || Synthetic(k) {
      return NoClaim;
    }
    if pa.threadId != "" && k == Thread(pa.agent, pa.threadId) {
      return ByThread;
    }
    if pa.pid != 0 && ev.pid == pa.pid {
      if pa.threadId != "" && ev.threadId != "" && ev.threadId != pa.threadId {
        return NoClaim;
      }
      return ByPid;
    }
    if ev.pid == 0 {
      return ByFallback(ev.paneId == pa.paneId);
    }
    return NoClaim;
  }

  /** The row a scanned pane claims: one pass over the map in any order, leaving early only
      on the thread's own row. */
  method FindClaim(rows: Rows, claimed: set<Key>, pa: Presence) returns (best: Option<Key>)
    ensures best.Some? ==> MayClaim(rows, claimed, pa, best.value)
    ensures best.None? ==> forall k :: !MayClaim(rows, claimed, pa, k)
  {
    var byPid: Option<Key>, fallback: Option<Key> := None, None;
    var todo := rows.Keys;
    while todo != {}
      invariant todo <= rows.Keys
      invariant forall k :: ThreadMatch(rows, claimed, pa, k) ==> k in todo
      invariant byPid.Some? ==> PidMatch(rows, claimed, pa, byPid.value)
      invariant byPid.None? ==> forall k :: PidMatch(rows, claimed, pa, k) ==> k in todo
      invariant fallback.Some? ==> PidlessMatch(rows, claimed, pa, fallback.value)
      invariant fallback.None? ==> forall k :: PidlessMatch(rows, claimed, pa, k) ==> k in todo
      invariant (forall k :: PidlessBound(rows, claimed, pa, k) ==> k in todo)
                || (fallback.Some? && PidlessBound(rows, claimed, pa, fallback.value))
      decreases todo
    {
      var k :| k in todo;
      todo := todo - {k};
      var kind := ClassifyClaim(rows, claimed, pa, k);
      match kind
      case NoClaim =>
      case ByThread =>
        return Some(k);
      case ByPid =>
        if byPid.None? {
          byPid := Some(k);
        }
      case ByFallback(bound) =>
        if bound || fallback.None? {
          fallback := Some(k);
        }
    }
    best := if byPid.Some? then byPid else fallback;
  }

  /** Incoming panes of each agent that no alive row is bound to. */
  method CountSpares(rows: Rows, panes: seq<Presence>) returns (spare: map<string, nat>)
    ensures forall agent :: Get(spare, agent, 0) == SpareCount(rows, panes, agent)
  {
    var active := ActivePanes(panes);
    var bound: set<string> :=
      set k | k in rows && rows[k].liveness.Alive? && rows[k].paneId != "" && rows[k].paneId in active ::
        rows[k].paneId;
    spare := map[];
    for i := 0 to |panes|
      invariant forall agent :: Get(spare, agent, 0) == SpareCount(rows, panes[..i], agent)
    {
      var pa := panes[i];
      assert panes[..i + 1][..i] == panes[..i];
      assert pa.paneId in bound <==> BoundTo(rows, pa.paneId);
      if pa.paneId !in bound {
        spare := spare[pa.agent := Get(spare, pa.agent, 0) + 1];
      }
    }
    assert panes[..|panes|] == panes;
  }

  /** Exits one row that is not terminal if its process is gone. */
  method SweepRow(ev: Row, alivePids: set<int>) returns (ev': Row, exits: bool)
    ensures ev' == if SweepExits(ev, alivePids) then ev.(liveness := Exited) else ev
    ensures exits <==> SweepExits(ev, alivePids)
  {
    ev', exits := ev, false;
    if ev.pid == 0 || ev.liveness.Exited? || IsTerminal(ev.status) {
      return;
    }
    if ev.pid !in alivePids {
      ev', exits := ev.(liveness := Exited), true;
    }
  }

  /** Sweeps the rows of one session one by one. */
  method SweepRows(rows: Rows, alivePids: set<int>) returns (rows': Rows, changed: bool)
    ensures rows' == map k | k in rows ::
                       if SweepExits(rows[k], alivePids) then rows[k].(liveness := Exited) else rows[k]
    ensures changed <==> SomeExits(rows, alivePids)
  {
    rows', changed := rows, false;
    var todo := rows.Keys;
    while todo != {}
      invariant rows'.Keys == rows.Keys && todo <= rows.Keys
      invariant forall k :: k in rows && k in todo ==> rows'[k] == rows[k]
      invariant forall k :: k in rows && k !in todo ==>
          rows'[k] == if SweepExits(rows[k], alivePids) then rows[k].(liveness := Exited) else rows[k]
      invariant changed ==> SomeExits(rows, alivePids)
      invariant !changed ==> forall k :: k in rows && SweepExits(rows[k], alivePids) ==> k in todo
      decreases todo
    {
      var k :| k in todo;
      todo := todo - {k};
      var ev, exits := SweepRow(rows'[k], alivePids);
      rows' := rows'[k := ev];
      assert exits <==> SweepExits(rows[k], alivePids);
      changed := changed || exits;
    }
  }

  /** Asks the probe about one row if it is a stale alive running one with a pid. */
  method ProbeRow(ev: Row, now: int, staleMs: int, probe: Row -> Verdict) returns (ev': Row, ended: bool)
    ensures ev' == ReconcileRow(ev, now, staleMs, probe)
    ensures ended <==> IsStale(ev, now, staleMs) && probe(ev).Ended?
  {
    ev', ended := ev, false;
    if !ev.status.Running? || !ev.liveness.Alive? || ev.pid == 0 || now - ev.ts <= staleMs {
      return;
    }
    match probe(ev)
    case Ended =>
      ev', ended := ev.(status := Done, ts := now), true;
    case Working =>
      ev' := ev.(ts := now);
    case _ =>
  }

  /** Reconciles the rows of one session one by one. */
  method ReconcileRows(rows: Rows, now: int, staleMs: int, probe: Row -> Verdict) returns (rows': Rows, changed: bool)
    ensures rows' == map k | k in rows :: ReconcileRow(rows[k], now, staleMs, probe)
    ensures changed <==> SomeEnded(rows, now, staleMs, probe)
  {
    rows', changed := rows, false;
    var todo := rows.Keys;
    while todo != {}
      invariant rows'.Keys == rows.Keys && todo <= rows.Keys
      invariant forall k :: k in rows ==>
          rows'[k] == if k in todo then rows[k] else ReconcileRow(rows[k], now, staleMs, probe)
      invariant changed ==> SomeEnded(rows, now, staleMs, probe)
      invariant !changed ==> forall k :: HasEnded(rows, now, staleMs, probe, k) ==> k in todo
      decreases todo
    {
      var k :| k in todo;
      todo := todo - {k};
      var ev, ended := ProbeRow(rows'[k], now, staleMs, probe);
      rows' := rows'[k := ev];
      assert ended <==> HasEnded(rows, now, staleMs, probe, k);
      changed := changed || ended;
    }
  }

  class Tracker {
    var instances: map<string, RowMap>
    var unseen: map<string, set<Key>>
    var paneMisses: map<string, map<Key, int>>
    var recentlyEnded: map<string, map<(string, string), int>>
    var eventTimestamps: map<string, seq<int>>
    var active: set<string>
    const missThreshold: int

    /** Sessions never share a row map. */
    ghost predicate Separate()
      reads this
    {
      forall s, t :: s in instances && t in instances && s != t ==> instances[s] != instances[t]
    }

    /** Everything the tracker holds about one session, as a value. */
    ghost function View(session: string): Session
      reads this, instances.Values
    {
      Session(
        if session in instances then instances[session].rows else map[],
        Get(unseen, session, {}),
        Get(paneMisses, session, map[]),
        Get(recentlyEnded, session, map[]))
    }

    ghost predicate Valid()
      reads this, instances.Values
    {
      Separate() && forall s :: Inv(View(s), missThreshold)
    }

    /** Every session's row map is the one it had, or a new one. */
    twostate predicate MapsKept()
      reads this
    {
      forall t :: t in instances ==> fresh(instances[t]) || (t in old(instances) && instances[t] == old(instances[t]))
    }

    constructor (missThreshold: int)
      ensures Valid() && this.missThreshold == missThreshold
      ensures forall s :: View(s) == EMPTY_SESSION
      ensures fresh(instances.Values)
    {
      this.missThreshold := missThreshold;
      instances, unseen, paneMisses, recentlyEnded := map[], map[], map[], map[];
      eventTimestamps, active := map[], {};
    }

    // ----- primitives -----

    method ClearMissState(session: string, key: Key)
      modifies this`paneMisses
      ensures View(session) == old(View(session)).(misses := old(View(session)).misses - {key})
      ensures forall t :: t != session ==> View(t) == old(View(t))
    {
      paneMisses := paneMisses[session := Get(paneMisses, session, map[]) - {key}];
    }

    /** The session's row map, if it has one. */
    ghost function MapOf(session: string): set<RowMap>
      reads this
    {
      if session in instances then {instances[session]} else {}
    }

    method DeleteInstance(session: string, key: Key)
      requires Separate()
      modifies this`instances, this`unseen, this`paneMisses, MapOf(session)
      ensures Separate()
      ensures View(session) == Forget(old(View(session)), {key})
      ensures forall t :: t != session ==> View(t) == old(View(t))
      ensures instances == old(instances) || (instances == old(instances) - {session} && View(session).rows == map[])
      ensures View(session).rows == map[] ==> session !in instances
      ensures session in old(instances) ==> old(instances[session]).rows == old(instances[session].rows) - {key}
    {
      if session in instances {
        var si := instances[session];
        si.rows := si.rows - {key};
        if si.rows == map[] {
          instances := instances - {session};
        }
      }
      unseen := unseen[session := Get(unseen, session, {}) - {key}];
      ClearMissState(session, key);
    }

    // ----- watcher events -----

    /** Puts row in place of key's row and deletes the row it replaces. */
    method Replace(session: string, si: RowMap, key: Key, row: Row, k: Key)
      requires Separate() && session in instances && instances[session] == si
      requires k != key && key in si.rows
      modifies this`instances, this`unseen, this`paneMisses, si
      ensures Separate() && instances == old(instances)
      ensures View(session) == Forget(old(View(session)).(rows := old(View(session)).rows[key := row]), {k})
      ensures forall t :: t != session ==> View(t) == old(View(t))
    {
      si.rows := si.rows[key := row];
      DeleteInstance(session, k);
      assert key in View(session).rows;
    }

    /** Deletes every other row of the event's process, adopting its pane; at most one
        exists, so the map's order does not matter. */
    method SupersedeProcess(session: string, si: RowMap, key: Key, ghost s0: Session, ghost rows: Rows, stored: Row)
      returns (row: Row, graduated: bool, ghost gone: set<Key>)
      requires Separate() && session in instances && instances[session] == si
      requires OneRowPerProcess(s0.rows) && rows == s0.rows[key := stored]
      requires View(session) == s0.(rows := rows)
      modifies this`instances, this`unseen, this`paneMisses, si
      ensures Separate() && instances == old(instances)
      ensures forall t :: t != session ==> View(t) == old(View(t))
      ensures graduated ==> Supersedes(rows, key, stored, row, gone)
      ensures graduated ==> View(session) == Forget(s0.(rows := rows[key := row]), gone)
      ensures !graduated ==> (forall k :: !SameProcess(rows, key, stored, k)) && View(session) == s0.(rows := rows)
    {
      row, graduated, gone := stored, false, {};
      ghost var from: Option<Key> := None;
      if stored.pid != 0 {
        var todo := si.rows.Keys;
        while todo != {}
          invariant Separate() && instances == old(instances)
          invariant forall t :: t != session ==> View(t) == old(View(t))
          invariant graduated <==> from.Some?
          invariant todo <= rows.Keys && (from.Some? ==> from.value !in todo)
          invariant forall k :: k in rows && k !in todo && SameProcess(rows, key, stored, k) ==> from == Some(k)
          invariant from.None? ==> row == stored && View(session) == s0.(rows := rows)
          invariant from.Some? ==>
                      && SameProcess(rows, key, stored, from.value) && row == AdoptPane(stored, rows[from.value])
                      && View(session) == Forget(s0.(rows := rows[key := row]), {from.value})
          decreases todo
        {
          var k :| k in todo;
          todo := todo - {k};
          assert k != key ==> si.rows[k] == rows[k];
          if k != key && si.rows[k].agent == stored.agent && si.rows[k].pid == stored.pid {
            if from.Some? {
              assert false;
            }
            row := AdoptPane(row, si.rows[k]);
            Replace(session, si, key, row, k);
            graduated, from := true, Some(k);
          }
        }
      }
      if from.Some? {
        gone := {from.value};
        OneSuperseded(rows, key, stored, row, from.value);
      }
    }

    /** Without a pid to decide, at most one synthetic row graduates into the event's. */
    method GraduateSynthetic(session: string, si: RowMap, key: Key, ghost s0: Session, ghost rows: Rows, stored: Row)
      returns (row: Row, ghost gone: set<Key>)
      requires Separate() && session in instances && instances[session] == si
      requires View(session) == s0.(rows := rows) && key in rows && rows[key] == stored
      requires forall k :: !SameProcess(rows, key, stored, k)
      modifies this`instances, this`unseen, this`paneMisses, si
      ensures Separate() && instances == old(instances)
      ensures forall t :: t != session ==> View(t) == old(View(t))
      ensures Supersedes(rows, key, stored, row, gone)
      ensures View(session) == Forget(s0.(rows := rows[key := row]), gone)
    {
      row, gone := stored, {};
      var found := FindGraduate(si.rows, key, stored);
      if found.Some? {
        var k := found.value;
        assert MayGraduate(rows, key, stored, k);
        if stored.paneId == "" {
          row := AdoptPane(stored, si.rows[k]).(liveness := si.rows[k].liveness);
        }
        Replace(session, si, key, row, k);
        gone := {k};
      }
    }

    method FlagRow(session: string, key: Key, status: Status, inactive: bool)
      modifies this`unseen
      ensures View(session) ==
              old(View(session)).(unseen := FlagUnseen(old(View(session)).unseen, key, status, inactive))
      ensures forall t :: t != session ==> View(t) == old(View(t))
    {
      var flags := Get(unseen, session, {});
      if NeedsAttention(status) {
        if inactive {
          unseen := unseen[session := flags + {key}];
        }
      } else {
        unseen := unseen[session := flags - {key}];
      }
    }

    /** No synthetic row may be minted on the pane until the given time. */
    method SuppressPane(session: string, agent: string, pane: string, until: int)
      modifies this`recentlyEnded
      ensures View(session) == old(View(session)).(ended := old(View(session)).ended[(agent, pane) := until])
      ensures forall t :: t != session ==> View(t) == old(View(t))
    {
      recentlyEnded := recentlyEnded[session := Get(recentlyEnded, session, map[])[(agent, pane) := until]];
    }

    /** Removes an ended thread's row and suppresses new synthetic rows on its pane. */
    method EndThread(session: string, key: Key, now: int)
      requires Separate() && Inv(View(session), missThreshold)
      modifies this`instances, this`unseen, this`paneMisses, this`recentlyEnded, MapOf(session)
      ensures Separate()
      ensures instances == old(instances) || instances == old(instances) - {session}
      ensures View(session) == EndRow(old(View(session)), key, now)
      ensures forall t :: t != session ==> View(t) == old(View(t))
    {
      if session !in instances {
        AbsentIsForgotten(View(session), key, missThreshold);
      } else {
        var si := instances[session];
        if key in si.rows && si.rows[key].paneId != "" {
          SuppressPane(session, key.agent, si.rows[key].paneId, now + END_SUPPRESS_MS);
        }
        DeleteInstance(session, key);
      }
    }

    /** The session's row map, created empty when it has none. */
    method Ensure(session: string) returns (si: RowMap)
      requires Separate()
      modifies this`instances
      ensures Separate() && session in instances && instances[session] == si
      ensures session in old(instances) ==> instances == old(instances)
      ensures session !in old(instances) ==> fresh(si) && instances == old(instances)[session := si] && si.rows == map[]
      ensures forall t :: View(t) == old(View(t))
    {
      if session !in instances {
        si := new RowMap();
        instances := instances[session := si];
      } else {
        si := instances[session];
      }
    }

    method PutRow(session: string, si: RowMap, key: Key, row: Row)
      requires Separate() && session in instances && instances[session] == si
      modifies si
      ensures View(session) == old(View(session)).(rows := old(View(session)).rows[key := row])
      ensures forall t :: t != session ==> View(t) == old(View(t))
    {
      si.rows := si.rows[key := row];
    }

    /** Retires the rows the stored row replaces: its process's, else one synthetic. */
    method RetireReplaced(session: string, si: RowMap, key: Key, ghost s0: Session, ghost rows: Rows, stored: Row)
      returns (row: Row, ghost gone: set<Key>)
      requires Separate() && session in instances && instances[session] == si
      requires OneRowPerProcess(s0.rows) && rows == s0.rows[key := stored]
      requires View(session) == s0.(rows := rows)
      modifies this`instances, this`unseen, this`paneMisses, si
      ensures Separate() && instances == old(instances)
      ensures forall t :: t != session ==> View(t) == old(View(t))
      ensures Supersedes(rows, key, stored, row, gone)
      ensures View(session) == Forget(s0.(rows := rows[key := row]), gone)
    {
      var graduated;
      row, graduated, gone := SupersedeProcess(session, si, key, s0, rows, stored);
      if !graduated {
        row, gone := GraduateSynthetic(session, si, key, s0, rows, stored);
      }
    }

    /** Stores a live event's row, retires the rows it replaces and sets its flag. */
    method StoreEvent(session: string, event: Event, inactive: bool)
      requires Valid() && !event.ended
      modifies this`instances, this`unseen, this`paneMisses, MapOf(session)
      ensures Separate() && MapsKept()
      ensures
        var key := InstanceKey(event.row.agent, event.row.threadId);
        var s := old(View(session));
        var stored := Enrich(Lookup(s.rows, key), event.row);
        Settles(s, s.rows[key := stored], key, stored, inactive, View(session))
      ensures forall t :: t != session ==> View(t) == old(View(t))
    {
      ghost var s := View(session);
      assert Inv(s, missThreshold);
      var key := InstanceKey(event.row.agent, event.row.threadId);
      var si := Ensure(session);
      var stored := Enrich(Lookup(si.rows, key), event.row);
      ghost var rows := s.rows[key := stored];
      PutRow(session, si, key, stored);
      var row, gone := RetireReplaced(session, si, key, s, rows, stored);
      ghost var s1 := View(session);
      FlagRow(session, key, event.row.status, inactive);
      ForgottenSettles(s, rows, key, stored, row, gone, inactive, s1, View(session));
    }

    /** Folds one watcher event into its session. */
    method ApplyEvent(session: string, event: Event, seed: bool, now: int)
      requires Valid()
      modifies this`instances, this`unseen, this`paneMisses, this`recentlyEnded, this`eventTimestamps, MapOf(session)
      ensures Valid() && MapsKept()
      ensures EventStep(old(View(session)), event, seed, session in active, now, View(session))
      ensures forall t :: t != session ==> View(t) == old(View(t))
      ensures eventTimestamps ==
              if event.ended then old(eventTimestamps)
              else
                var recent := Get(old(eventTimestamps), session, []) + [event.row.ts];
                old(eventTimestamps)[session := LastOf(recent, 30)]
    {
      ghost var s := View(session);
      if event.ended {
        EndThread(session, InstanceKey(event.row.agent, event.row.threadId), now);
      } else {
        StoreEvent(session, event, seed || session !in active);
        var ts := Get(eventTimestamps, session, []) + [event.row.ts];
        eventTimestamps := eventTimestamps[session := LastOf(ts, MAX_EVENT_TIMESTAMPS)];
      }
      EventKeepsInv(s, event, seed, session in active, now, View(session), missThreshold);
      StaysValid(session);
    }

    /** Changing one session and keeping its invariant keeps them all. */
    twostate lemma StaysValid(session: string)
      requires old(Valid()) && Separate() && Inv(View(session), missThreshold)
      requires forall t :: t != session ==> View(t) == old(View(t))
      ensures Valid()
    {
      forall t
        ensures Inv(View(t), missThreshold)
      {
        if t != session {
          assert old(Inv(View(t), missThreshold));
        }
      }
    }

    // ----- pane scan, step 1 -----

    method CountMiss(session: string, key: Key, misses: int)
      modifies this`paneMisses
      ensures View(session) == old(View(session)).(misses := old(View(session)).misses[key := misses])
      ensures forall t :: t != session ==> View(t) == old(View(t))
    {
      paneMisses := paneMisses[session := Get(paneMisses, session, map[])[key := misses]];
    }

    /** One missing row that no spare pane excuses. */
    method MissRow(session: string, si: RowMap, key: Key) returns (changed: bool)
      requires Separate() && session in instances && instances[session] == si
      requires key in si.rows
      modifies this`instances, this`unseen, this`paneMisses, si
      ensures Separate()
      ensures forall t :: t != session ==> View(t) == old(View(t))
      ensures instances == old(instances) || (instances == old(instances) - {session} && View(session).rows == map[])
      ensures View(session).rows == si.rows && (si.rows == map[] ==> session !in instances)
      ensures
        var s := old(View(session));
        View(session) == AfterMiss(s, key, missThreshold) && (changed <==> MissCount(s, key) + 1 >= missThreshold)
    {
      var counts := Get(paneMisses, session, map[]);
      var misses := (if key in counts then counts[key] else 0) + 1;
      if misses < missThreshold {
        CountMiss(session, key, misses);
        return false;
      }
      if Synthetic(key) {
        DeleteInstance(session, key);
      } else {
        ClearMissState(session, key);
        PutRow(session, si, key, Unbind(si.rows[key]));
        assert key in si.rows;
      }
      return true;
    }

    /** Step 1 at one row. */
    method VisitRow(session: string, si: RowMap, active: set<string>, spare: map<string, nat>, k: Key,
                    ghost s: Session, ghost panes: seq<Presence>, ghost missed: set<Key>, ghost excused: set<Key>,
                    ghost todo: set<Key>)
      returns (spare': map<string, nat>, exits: bool, ghost missed': set<Key>, ghost excused': set<Key>)
      requires Separate() && session in instances && instances[session] == si
      requires active == ActivePanes(panes) && k in todo
      requires MissProgress(s, panes, missThreshold, spare, missed, excused, todo, View(session))
      modifies this`instances, this`unseen, this`paneMisses, si
      ensures Separate()
      ensures forall t :: t != session ==> View(t) == old(View(t))
      ensures instances == old(instances) || (instances == old(instances) - {session} && View(session).rows == map[])
      ensures View(session).rows == si.rows && (si.rows == map[] ==> session !in instances)
      ensures MissProgress(s, panes, missThreshold, spare', missed', excused', todo - {k}, View(session))
      ensures Due(s, missed', missThreshold) == Due(s, missed, missThreshold) + if exits then {k} else {}
    {
      spare', exits, missed', excused' := spare, false, missed, excused;
      UntouchedRow(s, missed, excused, missThreshold, k);
      var ev := si.rows[k];
      if !ev.liveness.Alive? || ev.paneId == "" || ev.paneId in active {
        return;
      }
      if Get(spare, ev.agent, 0) > 0 {
        ExcuseProgress(s, panes, missThreshold, spare, missed, excused, todo, View(session), k);
        spare' := spare[ev.agent := spare[ev.agent] - 1];
        ClearMissState(session, k);
        excused' := excused + {k};
        return;
      }
      MissingProgress(s, panes, missThreshold, spare, missed, excused, todo, View(session), k);
      DueOneMore(s, missed, missThreshold, k);
      exits := MissRow(session, si, k);
      missed' := missed + {k};
    }

    /** Previously alive rows whose pane disappeared: a spare pane of the agent excuses one
        of them, whichever the map yields first; the others count a miss. */
    method RetireMissing(session: string, panes: seq<Presence>) returns (changed: bool, ghost excused: set<Key>)
      requires Separate()
      modifies this`instances, this`unseen, this`paneMisses, MapOf(session)
      ensures Separate()
      ensures forall t :: t != session ==> View(t) == old(View(t))
      ensures instances == old(instances) || (instances == old(instances) - {session} && View(session).rows == map[])
      ensures session in old(instances) ==> View(session).rows == old(instances[session]).rows
      ensures Excusable(old(View(session)).rows, panes, excused)
      ensures View(session) == AfterMisses(old(View(session)), panes, excused, missThreshold)
      ensures changed <==> View(session).rows != old(View(session)).rows
      ensures session in old(instances) ==> (Detached(old(View(session)), View(session)) <==> session !in instances)
    {
      changed, excused := false, {};
      ghost var s := View(session);
      ghost var missed: set<Key> := {};
      NothingMissed(s, panes, missThreshold);
      if session !in instances {
        return;
      }
      var si := instances[session];
      var active := ActivePanes(panes);
      var spare := CountSpares(si.rows, panes);
      var todo := si.rows.Keys;
      MissStart(s, panes, missThreshold, spare);
      while todo != {}
        invariant Separate()
        invariant forall t :: t != session ==> View(t) == old(View(t))
        invariant instances == old(instances) ||
            (instances == old(instances) - {session} && View(session).rows == map[])
        invariant View(session).rows == si.rows
        invariant MissProgress(s, panes, missThreshold, spare, missed, excused, todo, View(session))
        invariant changed <==> Due(s, missed, missThreshold) != {}
        invariant Detached(s, View(session)) <==> session !in instances
        decreases todo
      {
        var k :| k in todo;
        ProgressHasRow(s, panes, missThreshold, spare, missed, excused, todo, View(session), k);
        var exits;
        spare, exits, missed, excused := VisitRow(session, si, active, spare, k, s, panes, missed, excused, todo);
        todo := todo - {k};
        changed := changed || exits;
      }
      DueShow(s, panes, missThreshold, spare, missed, excused, {}, View(session));
      MissEnd(s, panes, missThreshold, spare, missed, excused, View(session));
    }

    // ----- pane scan, step 2 -----

    method IsPaneEndSuppressed(session: string, pa: Presence, now: int) returns (suppressed: bool)
      modifies this`recentlyEnded
      ensures suppressed <==> Suppressed(old(View(session)), pa, now)
      ensures View(session) == if suppressed then old(View(session)) else Expire(old(View(session)), pa)
      ensures forall t :: t != session ==> View(t) == old(View(t))
    {
      var ended := Get(recentlyEnded, session, map[]);
      var k := (pa.agent, pa.paneId);
      if k !in ended {
        assert ended - {k} == ended;
        return false;
      }
      if now >= ended[k] {
        recentlyEnded := recentlyEnded[session := ended - {k}];
        return false;
      }
      return true;
    }

    /** Deletes every other row of the agent that holds the pid. */
    method RetireSupersededPidRows(session: string, agent: string, keep: Key, pid: int) returns (changed: bool)
      requires Separate()
      modifies this`instances, this`unseen, this`paneMisses, MapOf(session)
      ensures Separate()
      ensures View(session) == RetireSuperseded(old(View(session)), keep, agent, pid)
      ensures forall t :: t != session ==> View(t) == old(View(t))
      ensures keep in old(View(session)).rows || session !in old(instances) ==> instances == old(instances)
      ensures changed <==> View(session).rows != old(View(session)).rows
    {
      changed := false;
      ghost var s := View(session);
      ghost var gone: set<Key> := {};
      ghost var all := Superseded(s.rows, keep, agent, pid);
      if pid == 0 || session !in instances {
        assert all == {};
        return;
      }
      var si := instances[session];
      var todo := si.rows.Keys;
      while todo != {}
        invariant Separate()
        invariant forall t :: t != session ==> View(t) == old(View(t))
        invariant instances == old(instances) ||
            (instances == old(instances) - {session} && View(session).rows == map[])
        invariant si.rows == View(session).rows
        invariant todo <= s.rows.Keys && gone == all - todo
        invariant View(session) == Forget(s, gone)
        invariant changed <==> gone != {}
        decreases todo
      {
        var k :| k in todo;
        VisitOne(all, gone, todo, k);
        todo := todo - {k};
        assert si.rows[k] == s.rows[k];
        if k == keep || si.rows[k].agent != agent || si.rows[k].pid != pid {
          continue;
        }
        ForgetOneMore(s, gone, k);
        DeleteInstance(session, k);
        gone := gone + {k};
        changed := true;
      }
      assert gone == all;
      ForgettingShows(s, gone);
      assert keep in s.rows ==> keep in View(session).rows;
    }

    /** Exits and unbinds every other alive row of the agent that still claims the pane for
        a process that is gone. */
    method RetireDisplacedPaneRows(session: string, agent: string, keep: Key, pane: string, pid: int,
                                   alivePids: set<int>)
      returns (changed: bool)
      requires Separate()
      modifies this`paneMisses, MapOf(session)
      ensures View(session) == RetireDisplaced(old(View(session)), keep, agent, pane, pid, alivePids)
      ensures forall t :: t != session ==> View(t) == old(View(t))
      ensures changed <==> View(session).rows != old(View(session)).rows
    {
      changed := false;
      ghost var s := View(session);
      ghost var out: set<Key> := {};
      UnbindNothing(s);
      ghost var all := Displaced(s.rows, keep, agent, pane, pid, alivePids);
      if pane == "" || session !in instances {
        assert all == {};
        return;
      }
      var si := instances[session];
      var todo := si.rows.Keys;
      while todo != {}
        invariant forall t :: t != session ==> View(t) == old(View(t))
        invariant todo <= s.rows.Keys && out == all - todo
        invariant View(session) == UnbindRows(s, out)
        invariant changed <==> out != {}
        decreases todo
      {
        var k :| k in todo;
        VisitOne(all, out, todo, k);
        todo := todo - {k};
        var ev := si.rows[k];
        assert ev == s.rows[k];
        if k == keep || ev.agent != agent || ev.paneId != pane || !ev.liveness.Alive? || ev.pid == pid {
          continue;
        }
        if ev.pid != 0 && ev.pid in alivePids {
          continue;
        }
        UnbindOneMore(s, out, k);
        PutRow(session, si, k, Unbind(ev));
        ClearMissState(session, k);
        out := out + {k};
        changed := true;
      }
      assert out == all;
      UnbindingShows(s, out);
    }

    /** Gives key's row its new value and drops its miss counter. */
    method PlaceRow(session: string, si: RowMap, key: Key, row: Row)
      requires Separate() && Aliased(session, si)
      requires View(session).misses.Keys <= View(session).rows.Keys
      modifies this`paneMisses, si
      ensures Separate()
      ensures View(session) ==
              if session in instances then
                var s := old(View(session));
                s.(rows := s.rows[key := row], misses := s.misses - {key})
              else old(View(session))
      ensures forall t :: t != session ==> View(t) == old(View(t))
    {
      var existed := key in si.rows;
      si.rows := si.rows[key := row];
      if existed {
        ClearMissState(session, key);
      }
    }

    /** Gives key's row its new value and retires what it displaces. When si is no longer the
        session's map only si changes. */
    method BindRow(session: string, si: RowMap, key: Key, row: Row, pa: Presence, alivePids: set<int>)
      returns (retired: bool)
      requires Separate() && Aliased(session, si)
      requires View(session).misses.Keys <= View(session).rows.Keys
      modifies this`instances, this`unseen, this`paneMisses, si
      ensures Separate() && instances == old(instances)
      ensures View(session) ==
              if session in instances then Bind(old(View(session)), key, row, pa, alivePids) else old(View(session))
      ensures forall t :: t != session ==> View(t) == old(View(t))
      ensures session in instances ==>
                (SameButTitles(old(View(session)).rows, View(session).rows) <==>
                 !retired && Restamps(old(View(session)).rows, key, row))
    {
      ghost var s := View(session);
      PlaceRow(session, si, key, row);
      var superseded := RetireSupersededPidRows(session, pa.agent, key, pa.pid);
      var displaced := RetireDisplacedPaneRows(session, pa.agent, key, pa.paneId, pa.pid, alivePids);
      retired := superseded || displaced;
      BindingShows(s, key, row, pa, alivePids, retired);
    }

    /** si is the session's row map, or a map that belongs to no session any more. */
    ghost predicate Aliased(session: string, si: RowMap)
      reads this
    {
      && (session in instances ==> instances[session] == si)
      && (forall t :: t in instances && t != session ==> instances[t] != si)
    }

    /** Stamps the pane onto the row that claims it. */
    method ClaimRow(session: string, si: RowMap, key: Key, pa: Presence, alivePids: set<int>) returns (changed: bool)
      requires Separate() && Aliased(session, si) && key in si.rows
      requires View(session).misses.Keys <= View(session).rows.Keys
      modifies this`instances, this`unseen, this`paneMisses, si
      ensures Separate() && instances == old(instances)
      ensures forall t :: t != session ==> View(t) == old(View(t))
      ensures View(session) ==
              if session in instances then
                Bind(old(View(session)), key, Stamp(old(View(session)).rows[key], pa, pa.threadName), pa, alivePids)
              else old(View(session))
      ensures session in instances ==> (!changed <==> SameButTitles(old(View(session)).rows, View(session).rows))
    {
      var ev := si.rows[key];
      var wasDifferent :=
        || ev.paneId != pa.paneId
        || !ev.liveness.Alive?
        || ev.windowIndex != pa.windowIndex
        || ev.paneIndex != pa.paneIndex
        || (pa.threadName != "" && ev.threadName != pa.threadName);
      var retired := BindRow(session, si, key, Stamp(ev, pa, pa.threadName), pa, alivePids);
      changed := retired || wasDifferent;
    }

    /** Mints the pane's row, or restamps the one that holds its key. */
    method MintRow(session: string, si: RowMap, pa: Presence, env: Env) returns (changed: bool)
      requires Separate() && Aliased(session, si)
      requires View(session).misses.Keys <= View(session).rows.Keys
      modifies this`instances, this`unseen, this`paneMisses, si
      ensures Separate() && instances == old(instances)
      ensures forall t :: t != session ==> View(t) == old(View(t))
      ensures View(session) ==
              if session in instances then
                Bind(old(View(session)), MintKey(old(View(session)).rows, pa),
                     MintedRow(old(View(session)).rows, pa, env.now), pa, env.alivePids)
              else old(View(session))
      ensures session in instances ==> (!changed <==> SameButTitles(old(View(session)).rows, View(session).rows))
    {
      var key := Pane(pa.agent, pa.paneId);
      var threadId := "";
      if pa.threadId != "" {
        var tk := InstanceKey(pa.agent, pa.threadId);
        if tk !in si.rows || si.rows[tk].pid == 0 || si.rows[tk].pid == pa.pid || !si.rows[tk].liveness.Alive? {
          key, threadId := tk, pa.threadId;
        }
      }
      var threadName := if threadId != "" then pa.threadName else "";
      var row, wasDifferent;
      if key !in si.rows {
        row := Row(pa.agent, threadId, threadName, Idle, env.now, 0, pa.paneId,
                   pa.windowIndex, pa.paneIndex, Alive, pa.pid, pa.paneTitle, "", "", "");
        wasDifferent := true;
      } else {
        var existing := si.rows[key];
        wasDifferent :=
          || existing.paneId != pa.paneId
          || !existing.liveness.Alive?
          || existing.windowIndex != pa.windowIndex
          || existing.paneIndex != pa.paneIndex
          || existing.pid != pa.pid
          || (threadName != "" && existing.threadName != threadName);
        row := Stamp(existing, pa, threadName).(pid := pa.pid);
      }
      assert session in instances ==>
          key == MintKey(View(session).rows, pa) && row == MintedRow(View(session).rows, pa, env.now);
      var retired := BindRow(session, si, key, row, pa, env.alivePids);
      changed := retired || wasDifferent;
    }

    /** Step 2 for one pane. */
    method BindPane(session: string, si: RowMap, claimed: set<Key>, pa: Presence, env: Env)
      returns (claimed': set<Key>, changed: bool, ghost kept: Option<Key>)
      requires Separate() && Aliased(session, si)
      requires View(session).misses.Keys <= View(session).rows.Keys
      modifies this`instances, this`unseen, this`paneMisses, this`recentlyEnded, si
      ensures Separate() && instances == old(instances)
      ensures forall t :: t != session ==> View(t) == old(View(t))
      ensures session in instances ==>
                PaneStep(old(View(session)), claimed, pa, env, View(session), claimed', kept)
      ensures session in instances ==> (!changed <==> SameButTitles(old(View(session)).rows, View(session).rows))
      ensures session !in instances ==> OnlyExpires(old(View(session)), env.now, View(session))
    {
      claimed', changed, kept := claimed, false, None;
      ghost var s := View(session);
      var best := FindClaim(si.rows, claimed, pa);
      if best.Some? {
        MayClaimHasRow(si.rows, claimed, pa, best.value);
        claimed' := claimed + {best.value};
        changed := ClaimRow(session, si, best.value, pa, env.alivePids);
        kept := best;
        if session in instances {
          ClaimIsStep(s, claimed, pa, env, best.value, View(session));
        }
        return;
      }
      var suppressed := IsPaneEndSuppressed(session, pa, env.now);
      if suppressed {
        return;
      }
      kept := Some(MintKey(si.rows, pa));
      changed := MintRow(session, si, pa, env);
      if session in instances {
        MintIsStep(s, claimed, pa, env, View(session));
      }
    }

    /** Step 2 for every pane, while si is the session's own map. */
    method BindPanes(session: string, si: RowMap, panes: seq<Presence>, env: Env)
      returns (claimed: set<Key>, changed: bool, ghost tr: ScanTrace)
      requires Separate() && session in instances && instances[session] == si && Inv(View(session), missThreshold)
      modifies this`instances, this`unseen, this`paneMisses, this`recentlyEnded, si
      ensures Separate() && instances == old(instances)
      ensures forall t :: t != session ==> View(t) == old(View(t))
      ensures TracedTo(panes, env, tr, old(View(session)), View(session), claimed)
      ensures Inv(View(session), missThreshold)
      ensures changed <==> PanesShow(tr.states)
      ensures !changed ==> SameButTitles(old(View(session)).rows, View(session).rows)
    {
      claimed, changed := {}, false;
      tr := ScanTrace({}, [View(session)], [{}], []);
      for i := 0 to |panes|
        invariant Separate() && instances == old(instances)
        invariant forall t :: t != session ==> View(t) == old(View(t))
        invariant Inv(View(session), missThreshold)
        invariant TracedTo(panes[..i], env, tr, old(View(session)), View(session), claimed)
        invariant changed <==> PanesShow(tr.states)
        invariant !changed ==> SameButTitles(old(View(session)).rows, View(session).rows)
      {
        ghost var s, before := View(session), claimed;
        var news;
        ghost var kept;
        claimed, news, kept := BindPane(session, si, claimed, panes[i], env);
        PaneStepKeepsInv(s, before, panes[i], env, View(session), claimed, kept, missThreshold);
        ghost var longer :=
          ExtendTrace(panes[..i], env, tr, old(View(session)), s, before, panes[i], View(session), claimed, kept);
        PrefixStep(panes, i);
        OneMoreShows(tr.states, View(session));
        tr, changed := longer, changed || news;
      }
      assert panes[..|panes|] == panes;
    }

    /** Step 2 after step 1 removed the session's last row: every pane is stamped onto a map
        that no session holds any more. */
    method BindDetached(session: string, si: RowMap, panes: seq<Presence>, env: Env) returns (claimed: set<Key>)
      requires Separate() && session !in instances && Aliased(session, si)
      requires View(session).misses == map[]
      modifies this`instances, this`unseen, this`paneMisses, this`recentlyEnded, si
      ensures Separate() && instances == old(instances)
      ensures forall t :: t != session ==> View(t) == old(View(t))
      ensures OnlyExpires(old(View(session)), env.now, View(session))
    {
      claimed := {};
      for i := 0 to |panes|
        invariant Separate() && instances == old(instances)
        invariant forall t :: t != session ==> View(t) == old(View(t))
        invariant OnlyExpires(old(View(session)), env.now, View(session))
      {
        ghost var keptRow: Option<Key>;
        var news;
        claimed, news, keptRow := BindPane(session, si, claimed, panes[i], env);
      }
    }

    /** Step 3: unclaimed rows no scan ever confirmed, whose status is terminal, idle or
        waiting, are dead. */
    method ExitSeedGhosts(session: string, si: RowMap, claimed: set<Key>) returns (changed: bool)
      requires Separate() && Aliased(session, si)
      modifies si
      ensures forall t :: t != session ==> View(t) == old(View(t))
      ensures View(session) ==
              if session in instances then ExitGhosts(old(View(session)), claimed) else old(View(session))
      ensures session in instances ==> (changed <==> View(session).rows != old(View(session)).rows)
    {
      changed := false;
      ghost var rows := si.rows;
      var todo := si.rows.Keys;
      while todo != {}
        invariant si.rows.Keys == rows.Keys && todo <= rows.Keys
        invariant forall k :: k in rows ==>
                    si.rows[k] == if k !in todo && IsSeedGhost(rows, claimed, k) then rows[k].(liveness := Exited)
                        else rows[k]
        invariant changed <==> si.rows != rows
        decreases todo
      {
        var k :| k in todo;
        todo := todo - {k};
        var ev := si.rows[k];
        if k in claimed || Synthetic(k) || !ev.liveness.Unset? {
          continue;
        }
        if !IsTerminal(ev.status) && !ev.status.Idle? && !ev.status.Waiting? {
          continue;
        }
        si.rows := si.rows[k := ev.(liveness := Exited)];
        changed := true;
      }
      assert session in instances ==> View(session).rows == ExitGhosts(old(View(session)), claimed).rows;
    }

    /** Folds one session's pane scan into the tracker; reports whether anything a client can
        see changed. */
    method ApplyPanePresence(session: string, panes: seq<Presence>, env: Env)
      returns (changed: bool, ghost tr: ScanTrace)
      requires Valid()
      modifies this`instances, this`unseen, this`paneMisses, this`recentlyEnded, MapOf(session)
      ensures Valid() && MapsKept()
      ensures ScanStep(old(View(session)), panes, env, missThreshold, tr, View(session))
      ensures forall t :: t != session ==> View(t) == old(View(t))
      ensures changed <==> ScanShows(old(View(session)), panes, missThreshold, tr, View(session))
      ensures !changed ==> SameButTitles(old(View(session)).rows, View(session).rows)
    {
      ghost var s := View(session);
      assert Inv(s, missThreshold);
      var si: RowMap? := null;
      if session in instances {
        si := instances[session];
      }
      ghost var excused;
      changed, excused := RetireMissing(session, panes);
      MissesKeepInv(s, panes, excused, missThreshold);
      if si == null && panes != [] {
        si := Ensure(session);
      }
      var news := false;
      tr := ScanTrace(excused, [View(session)], [{}], []);
      if si == null {
        NoRowsNoGhosts(View(session));
      } else if session in instances {
        ghost var steps;
        news, steps := FinishScan(session, si, panes, env);
        tr := steps.(excused := excused);
      } else {
        news := FinishDetachedScan(session, si, panes, env);
      }
      changed := changed || news;
      ScanKeepsInv(s, panes, env, missThreshold, tr, View(session));
      StaysValid(session);
    }

    /** Steps 2 and 3 while si is the session's own map. */
    method FinishScan(session: string, si: RowMap, panes: seq<Presence>, env: Env)
      returns (changed: bool, ghost tr: ScanTrace)
      requires Separate() && session in instances && instances[session] == si && Inv(View(session), missThreshold)
      modifies this`instances, this`unseen, this`paneMisses, this`recentlyEnded, si
      ensures Separate() && instances == old(instances)
      ensures forall t :: t != session ==> View(t) == old(View(t))
      ensures PanesTraced(panes, env, tr) && tr.states[0] == old(View(session))
      ensures View(session) == ExitGhosts(tr.states[|panes|], tr.claims[|panes|])
      ensures changed <==> PanesShow(tr.states) || View(session).rows != tr.states[|panes|].rows
      ensures !changed ==> SameButTitles(old(View(session)).rows, View(session).rows)
    {
      var claimed, bound;
      claimed, bound, tr := BindPanes(session, si, panes, env);
      var exited := ExitSeedGhosts(session, si, claimed);
      changed := bound || exited;
    }

    /** Steps 2 and 3 once the session has lost its map. */
    method FinishDetachedScan(session: string, si: RowMap, panes: seq<Presence>, env: Env) returns (changed: bool)
      requires Separate() && session !in instances && Aliased(session, si)
      requires View(session).misses == map[]
      modifies this`instances, this`unseen, this`paneMisses, this`recentlyEnded, si
      ensures Separate() && instances == old(instances)
      ensures forall t :: t != session ==> View(t) == old(View(t))
      ensures OnlyExpires(old(View(session)), env.now, View(session))
    {
      var claimed := BindDetached(session, si, panes, env);
      changed := ExitSeedGhosts(session, si, claimed);
    }

    // ----- sweep, reconcile and prunes, over all sessions -----

    /** The sessions' values, those in todo as they were and the others as they shall be. */
    ghost predicate Halfway(was: map<string, Session>, goal: map<string, Session>, todo: set<string>)
      reads this, instances.Values
    {
      was.Keys == goal.Keys && forall t :: t in was ==> View(t) == if t in todo then was[t] else goal[t]
    }

    method SweepSession(session: string, alivePids: set<int>, ghost goal: Session) returns (changed: bool)
      requires Separate() && session in instances && IsSwept(View(session), alivePids, goal)
      modifies MapOf(session)
      ensures View(session) == goal
      ensures forall t :: t != session ==> View(t) == old(View(t))
      ensures changed <==> goal != old(View(session))
    {
      SweepShows(View(session), alivePids);
      var si := instances[session];
      var rows;
      rows, changed := SweepRows(si.rows, alivePids);
      si.rows := rows;
    }

    /** Sweeps the next session of a sweep over all. */
    method SweepNext(session: string, alivePids: set<int>, ghost was: map<string, Session>,
                     ghost goal: map<string, Session>, ghost todo: set<string>)
      returns (changed: bool)
      requires Separate() && session in instances && session in todo && session in was && Halfway(was, goal, todo)
      requires IsSwept(was[session], alivePids, goal[session])
      modifies MapOf(session)
      ensures instances == old(instances) && Halfway(was, goal, todo - {session})
      ensures forall t :: t != session ==> View(t) == old(View(t))
      ensures changed <==> goal[session] != was[session]
    {
      assert View(session) == was[session];
      changed := SweepSession(session, alivePids, goal[session]);
      forall t | t in was
        ensures View(t) == if t in todo - {session} then was[t] else goal[t]
      {
        assert t != session ==> View(t) == old(View(t));
      }
    }

    method SweepSessions(alivePids: set<int>, ghost was: map<string, Session>, ghost goal: map<string, Session>)
      returns (changed: bool)
      requires Separate() && was.Keys == instances.Keys && Halfway(was, goal, instances.Keys)
      requires forall t :: t in was ==> IsSwept(was[t], alivePids, goal[t])
      modifies instances.Values
      ensures Halfway(was, goal, {})
      ensures forall t :: t !in was ==> View(t) == old(View(t))
      ensures changed <==> exists t :: t in was && goal[t] != was[t]
    {
      changed := false;
      ghost var where := "";
      var todo := instances.Keys;
      while todo != {}
        invariant instances == old(instances) && todo <= was.Keys
        invariant Halfway(was, goal, todo)
        invariant forall t :: t !in was ==> View(t) == old(View(t))
        invariant changed ==> where in was && goal[where] != was[where]
        invariant !changed ==> forall t :: t in was && t !in todo ==> goal[t] == was[t]
        decreases todo
      {
        var session :| session in todo;
        var exits := SweepNext(session, alivePids, was, goal, todo);
        todo := todo - {session};
        if exits {
          changed, where := true, session;
        }
      }
    }

    /** Marks non-terminal rows with a dead pid as exited; reports whether any changed. */
    method RunLivenessSweepOnce(alivePids: set<int>) returns (changed: bool)
      requires Valid()
      modifies instances.Values
      ensures Valid()
      ensures forall t :: View(t) == Sweep(old(View(t)), alivePids)
      ensures changed <==> exists t :: View(t) != old(View(t))
    {
      ghost var was := map t | t in instances :: View(t);
      ghost var goal := map t | t in instances :: Sweep(View(t), alivePids);
      changed := SweepSessions(alivePids, was, goal);
      forall t
        ensures View(t) == Sweep(old(View(t)), alivePids) && SameShape(old(View(t)), View(t))
      {
        SweepKeepsShape(old(View(t)), alivePids);
      }
      StaysValidEverywhere();
    }

    twostate lemma StaysValidEverywhere()
      requires old(Valid()) && Separate()
      requires forall t :: SameShape(old(View(t)), View(t))
      ensures Valid()
    {
      forall t
        ensures Inv(View(t), missThreshold)
      {
        assert old(Inv(View(t), missThreshold));
        SameShapeKeepsInv(old(View(t)), View(t), missThreshold);
      }
    }

    method ReconcileSession(session: string, now: int, staleMs: int, probe: Row -> Verdict, ghost goal: Session)
      returns (changed: bool)
      requires Separate() && session in instances && IsReconciled(View(session), now, staleMs, probe, goal)
      modifies MapOf(session)
      ensures View(session) == goal
      ensures forall t :: t != session ==> View(t) == old(View(t))
      ensures changed <==> StatusChanged(old(View(session)).rows, goal.rows)
    {
      ReconcileShows(View(session), now, staleMs, probe);
      var si := instances[session];
      var rows;
      rows, changed := ReconcileRows(si.rows, now, staleMs, probe);
      si.rows := rows;
    }

    /** Reconciles the next session of a reconcile over all. */
    method ReconcileNext(session: string, now: int, staleMs: int, probe: Row -> Verdict,
                         ghost was: map<string, Session>, ghost goal: map<string, Session>, ghost todo: set<string>)
      returns (changed: bool)
      requires Separate() && session in instances && session in todo && session in was && Halfway(was, goal, todo)
      requires IsReconciled(was[session], now, staleMs, probe, goal[session])
      modifies MapOf(session)
      ensures instances == old(instances) && Halfway(was, goal, todo - {session})
      ensures forall t :: t != session ==> View(t) == old(View(t))
      ensures changed <==> Turned(was, goal, session)
    {
      assert View(session) == was[session];
      changed := ReconcileSession(session, now, staleMs, probe, goal[session]);
      forall t | t in was
        ensures View(t) == if t in todo - {session} then was[t] else goal[t]
      {
        assert t != session ==> View(t) == old(View(t));
      }
    }

    method ReconcileSessions(now: int, staleMs: int, probe: Row -> Verdict,
                             ghost was: map<string, Session>, ghost goal: map<string, Session>)
      returns (changed: bool)
      requires Separate() && was.Keys == instances.Keys && Halfway(was, goal, instances.Keys)
      requires forall t :: t in was ==> IsReconciled(was[t], now, staleMs, probe, goal[t])
      modifies instances.Values
      ensures Halfway(was, goal, {})
      ensures forall t :: t !in was ==> View(t) == old(View(t))
      ensures changed <==> exists t :: Turned(was, goal, t)
    {
      changed := false;
      ghost var where := "";
      var todo := instances.Keys;
      while todo != {}
        invariant instances == old(instances) && todo <= was.Keys
        invariant Halfway(was, goal, todo)
        invariant forall t :: t !in was ==> View(t) == old(View(t))
        invariant changed ==> Turned(was, goal, where)
        invariant !changed ==> forall t :: t in was && t !in todo ==> !Turned(was, goal, t)
        decreases todo
      {
        var session :| session in todo;
        var ended := ReconcileNext(session, now, staleMs, probe, was, goal, todo);
        todo := todo - {session};
        if ended {
          changed, where := true, session;
        }
      }
    }

    /** Asks the probe about stale alive running rows; reports whether any had ended. */
    method ReconcileStaleRunning(now: int, staleMs: int, probe: Row -> Verdict) returns (changed: bool)
      requires Valid()
      modifies instances.Values
      ensures Valid()
      ensures forall t :: View(t) == Reconcile(old(View(t)), now, staleMs, probe)
      ensures changed <==> exists t :: StatusChanged(old(View(t)).rows, View(t).rows)
    {
      ghost var was := map t | t in instances :: View(t);
      ghost var goal := map t | t in instances :: Reconcile(View(t), now, staleMs, probe);
      changed := ReconcileSessions(now, staleMs, probe, was, goal);
      forall t
        ensures View(t) == Reconcile(old(View(t)), now, staleMs, probe) && SameShape(old(View(t)), View(t))
        ensures Turned(was, goal, t) <==> StatusChanged(old(View(t)).rows, View(t).rows)
      {
        ReconcileKeepsShape(old(View(t)), now, staleMs, probe);
      }
      StaysValidEverywhere();
    }

    /** Deletes the rows of one session that the predicate names. */
    method DeleteWhere(session: string, p: Row -> bool, ghost goal: Session)
      requires Separate() && session in instances
      requires IsPruned(View(session), p, goal)
      modifies this`instances, this`unseen, this`paneMisses, MapOf(session)
      ensures Separate()
      ensures View(session) == goal
      ensures forall t :: t != session ==> View(t) == old(View(t))
      ensures instances == old(instances) || (instances == old(instances) - {session} && View(session).rows == map[])
    {
      var si := instances[session];
      ghost var s := View(session);
      ghost var gone: set<Key> := {};
      assert Forget(s, {}) == s;
      var todo := si.rows.Keys;
      while todo != {}
        invariant Separate()
        invariant forall t :: t != session ==> View(t) == old(View(t))
        invariant instances == old(instances) ||
            (instances == old(instances) - {session} && View(session).rows == map[])
        invariant si.rows == View(session).rows
        invariant todo <= s.rows.Keys && gone == (set k | k in s.rows && p(s.rows[k])) - todo
        invariant View(session) == Forget(s, gone)
        decreases todo
      {
        var k :| k in todo;
        todo := todo - {k};
        assert si.rows[k] == s.rows[k];
        if p(si.rows[k]) {
          ForgetOneMore(s, gone, k);
          DeleteInstance(session, k);
          gone := gone + {k};
        }
      }
      assert gone == set k | k in s.rows && p(s.rows[k]);
    }

    /** Prunes the next session of a prune over all, which may lose its map. */
    method DeleteNext(session: string, p: Row -> bool, ghost was: map<string, Session>,
                      ghost goal: map<string, Session>, ghost todo: set<string>)
      requires Separate() && session in instances && session in todo && session in was && Halfway(was, goal, todo)
      requires IsPruned(was[session], p, goal[session])
      modifies this`instances, this`unseen, this`paneMisses, MapOf(session)
      ensures Separate() && Halfway(was, goal, todo - {session})
      ensures forall t :: t != session ==> View(t) == old(View(t))
      ensures instances == old(instances) || instances == old(instances) - {session}
    {
      assert View(session) == was[session];
      DeleteWhere(session, p, goal[session]);
      forall t | t in was
        ensures View(t) == if t in todo - {session} then was[t] else goal[t]
      {
        assert t != session ==> View(t) == old(View(t));
      }
    }

    method DeleteInSessions(p: Row -> bool, ghost was: map<string, Session>, ghost goal: map<string, Session>)
      requires Separate() && was.Keys == instances.Keys && Halfway(was, goal, instances.Keys)
      requires forall t :: t in was ==> IsPruned(was[t], p, goal[t])
      modifies this`instances, this`unseen, this`paneMisses, instances.Values
      ensures Separate() && MapsKept() && Halfway(was, goal, {})
      ensures forall t :: t !in was ==> View(t) == old(View(t))
    {
      ghost var before := instances;
      ghost var dropped: set<string> := {};
      var todo := instances.Keys;
      while todo != {}
        invariant Separate() && todo <= instances.Keys && instances == before - dropped
        invariant Halfway(was, goal, todo)
        invariant forall t :: t !in was ==> View(t) == old(View(t))
        decreases todo
      {
        var session :| session in todo;
        RemoveOneMore(before, dropped, session);
        DeleteNext(session, p, was, goal, todo);
        todo := todo - {session};
        if session !in instances {
          dropped := dropped + {session};
        }
      }
    }

    /** Deletes the rows that the predicate names, session by session. */
    method DeleteEverywhere(p: Row -> bool)
      requires Valid()
      modifies this`instances, this`unseen, this`paneMisses, instances.Values
      ensures Valid() && MapsKept()
      ensures forall t :: View(t) == ForgetWhere(old(View(t)), p)
    {
      ghost var was := map t | t in instances :: View(t);
      ghost var goal := map t | t in instances :: ForgetWhere(View(t), p);
      DeleteInSessions(p, was, goal);
      forall t
        ensures View(t) == ForgetWhere(old(View(t)), p) && Forgot(old(View(t)), View(t))
      {
        ForgetWhereForgets(old(View(t)), p);
      }
      StaysValidForgetting();
    }

    twostate lemma StaysValidForgetting()
      requires old(Valid()) && Separate()
      requires forall t :: Forgot(old(View(t)), View(t))
      ensures Valid()
    {
      forall t
        ensures Inv(View(t), missThreshold)
      {
        assert old(Inv(View(t), missThreshold));
        var gone :| View(t) == Forget(old(View(t)), gone);
        ForgetKeepsInv(old(View(t)), gone, missThreshold);
      }
    }

    method PruneStuckRunning(now: int, timeoutMs: int)
      requires Valid()
      modifies this`instances, this`unseen, this`paneMisses, instances.Values
      ensures Valid() && MapsKept()
      ensures forall t :: View(t) == PruneStuck(old(View(t)), now, timeoutMs)
    {
      DeleteEverywhere(StuckTest(now, timeoutMs));
    }

    method PruneExited()
      requires Valid()
      modifies this`instances, this`unseen, this`paneMisses, instances.Values
      ensures Valid() && MapsKept()
      ensures forall t :: View(t) == PruneTerminal(old(View(t)))
    {
      DeleteEverywhere(DeadTest());
    }

    // ----- client commands and lookups -----

    /** Removes one row matching every given identifier, whichever the map yields first. */
    method Dismiss(session: string, agent: string, threadId: string, paneId: string, pid: int)
      returns (dismissed: bool, ghost row: Option<Key>)
      requires Valid()
      modifies this`instances, this`unseen, this`paneMisses, MapOf(session)
      ensures Valid()
      ensures DismissStep(old(View(session)), agent, threadId, paneId, pid, row, View(session))
      ensures dismissed <==> row.Some?
      ensures forall t :: t != session ==> View(t) == old(View(t))
    {
      ghost var s := View(session);
      assert Inv(s, missThreshold);
      if session in instances {
        var rows := instances[session].rows;
        var todo := rows.Keys;
        while todo != {}
          invariant todo <= rows.Keys
          invariant forall k :: k in rows && k !in todo ==> !Matches(rows[k], agent, threadId, paneId, pid)
          decreases todo
        {
          var k :| k in todo;
          todo := todo - {k};
          if Matches(rows[k], agent, threadId, paneId, pid) {
            DeleteInstance(session, k);
            ForgetKeepsInv(s, {k}, missThreshold);
            StaysValid(session);
            return true, Some(k);
          }
        }
      }
      return false, None;
    }

    method IsUnseen(session: string) returns (any: bool)
      requires Valid()
      ensures any <==> View(session).unseen != {}
    {
      assert Inv(View(session), missThreshold);
      var flags := Get(unseen, session, {});
      if session in instances {
        var rows := instances[session].rows;
        var todo := rows.Keys;
        while todo != {}
          invariant todo <= rows.Keys
          invariant forall k :: k in rows && k !in todo ==> k !in flags
          decreases todo
        {
          var k :| k in todo;
          todo := todo - {k};
          if k in flags {
            return true;
          }
        }
      }
      return false;
    }

    /** Clears the session's unseen flags; reports whether any were set. */
    method MarkAllSeen(session: string) returns (any: bool)
      requires Valid()
      modifies this`unseen
      ensures Valid()
      ensures View(session) == MarkSeen(old(View(session))) == old(View(session)).(unseen := {})
      ensures any <==> old(View(session)).unseen != {}
      ensures forall t :: t != session ==> View(t) == old(View(t))
    {
      ghost var s := View(session);
      assert Inv(s, missThreshold);
      any := IsUnseen(session);
      if any && session in instances {
        unseen := unseen[session := Get(unseen, session, {}) - instances[session].rows.Keys];
      }
      StaysValid(session);
    }

    /** The focused session becomes the only active one and all of it is seen. */
    method HandleFocus(session: string) returns (any: bool)
      requires Valid()
      modifies this`unseen, this`active
      ensures Valid() && active == {session}
      ensures View(session) == MarkSeen(old(View(session))) == old(View(session)).(unseen := {})
      ensures any <==> old(View(session)).unseen != {}
      ensures forall t :: t != session ==> View(t) == old(View(t))
    {
      active := {session};
      assert forall t :: View(t) == old(View(t));
      StaysValidEverywhere();
      any := MarkAllSeen(session);
    }

    /** Finds a row by thread, or by pane when no thread is given: by its key when the agent
        is known and the key is there, else by scanning. */
    method GetEvent(session: string, agent: string, threadId: string, paneId: string) returns (hit: Option<Row>)
      requires Valid()
      ensures agent != "" && threadId != "" ==> hit == Lookup(View(session).rows, Thread(agent, threadId))
      ensures agent != "" && threadId == "" && paneId != "" && Pane(agent, paneId) in View(session).rows ==>
                hit == Some(View(session).rows[Pane(agent, paneId)])
      ensures hit.Some? ==>
                exists k :: k in View(session).rows && hit.value == View(session).rows[k] &&
                  (IsWanted(hit.value, agent, threadId, paneId) ||
                   (threadId == "" && paneId != "" && k == Pane(agent, paneId)))
      ensures hit.None? ==> forall k :: k in View(session).rows ==>
          !IsWanted(View(session).rows[k], agent, threadId, paneId)
    {
      assert Inv(View(session), missThreshold);
      if session !in instances {
        return None;
      }
      var rows := instances[session].rows;
      if agent != "" && threadId != "" && Thread(agent, threadId) in rows {
        return Some(rows[Thread(agent, threadId)]);
      }
      if agent != "" && threadId == "" && paneId != "" && Pane(agent, paneId) in rows {
        return Some(rows[Pane(agent, paneId)]);
      }
      var todo := rows.Keys;
      while todo != {}
        invariant todo <= rows.Keys
        invariant forall k :: k in rows && k !in todo ==> !IsWanted(rows[k], agent, threadId, paneId)
        decreases todo
      {
        var k :| k in todo;
        todo := todo - {k};
        if agent != "" && rows[k].agent != agent {
          continue;
        }
        if (threadId != "" && rows[k].threadId == threadId) ||
            (threadId == "" && paneId != "" && rows[k].paneId == paneId) {
          assert threadId != "" ==> k == Thread(rows[k].agent, threadId);
          return Some(rows[k]);
        }
      }
      return None;
    }
  }

  /** The scan of a lookup stops at such a row. */
  predicate IsWanted(r: Row, agent: string, threadId: string, paneId: string) {
    && (agent == "" || r.agent == agent)
    && if threadId != "" then r.threadId == threadId else paneId != "" && r.paneId == paneId
  }

  /** The sweep marks some row. */
  ghost predicate SomeExits(rows: Rows, alivePids: set<int>) {
    exists k :: k in rows && SweepExits(rows[k], alivePids)
  }

  ghost predicate SomeEnded(rows: Rows, now: int, staleMs: int, probe: Row -> Verdict) {
    exists k :: HasEnded(rows, now, staleMs, probe, k)
  }

  /** The probe says the stale row's process is gone. */
  ghost predicate HasEnded(rows: Rows, now: int, staleMs: int, probe: Row -> Verdict, k: Key) {
    k in rows && IsStale(rows[k], now, staleMs) && probe(rows[k]).Ended?
  }

  /** Some row has got another status. */
  ghost predicate StatusChanged(rows: Rows, rows': Rows) {
    exists k :: k in rows && k in rows' && rows'[k].status != rows[k].status
  }

  ghost predicate Turned(was: map<string, Session>, goal: map<string, Session>, t: string) {
    t in was && t in goal && StatusChanged(was[t].rows, goal[t].rows)
  }

  lemma SweepShows(s: Session, alivePids: set<int>)
    ensures SomeExits(s.rows, alivePids) <==> Sweep(s, alivePids) != s
  {
    if k :| k in s.rows && SweepExits(s.rows[k], alivePids) {
      assert Sweep(s, alivePids).rows[k] != s.rows[k];
    } else {
      assert Sweep(s, alivePids).rows == s.rows;
    }
  }

  lemma ReconcileShows(s: Session, now: int, staleMs: int, probe: Row -> Verdict)
    ensures SomeEnded(s.rows, now, staleMs, probe) <==> StatusChanged(s.rows, Reconcile(s, now, staleMs, probe).rows)
  {
    if k :| HasEnded(s.rows, now, staleMs, probe, k) {
      assert Reconcile(s, now, staleMs, probe).rows[k].status != s.rows[k].status;
    } else if k :| k in s.rows && Reconcile(s, now, staleMs, probe).rows[k].status != s.rows[k].status {
      assert HasEnded(s.rows, now, staleMs, probe, k);
    }
  }

  ghost predicate IsSwept(s: Session, alivePids: set<int>, s': Session) {
    s' == Sweep(s, alivePids)
  }

  ghost predicate IsReconciled(s: Session, now: int, staleMs: int, probe: Row -> Verdict, s': Session) {
    s' == Reconcile(s, now, staleMs, probe)
  }

  ghost predicate IsPruned(s: Session, p: Row -> bool, s': Session) {
    s' == ForgetWhere(s, p)
  }

  ghost predicate Forgot(s: Session, s': Session) {
    exists gone :: s' == Forget(s, gone)
  }

  lemma ForgetWhereForgets(s: Session, p: Row -> bool)
    ensures Forgot(s, ForgetWhere(s, p))
    ensures s.rows == map[] ==> ForgetWhere(s, p) == s
  {
  }

  /** The trace leads from s to s', where the panes have claimed the given rows. */
  ghost predicate TracedTo(panes: seq<Presence>, env: Env, tr: ScanTrace, s: Session, s': Session, claimed: set<Key>) {
    && PanesTraced(panes, env, tr)
    && tr.states[0] == s && tr.states[|panes|] == s' && tr.claims[|panes|] == claimed
  }

  lemma PrefixStep(panes: seq<Presence>, i: nat)
    requires i < |panes|
    ensures panes[..i + 1] == panes[..i] + [panes[i]]
  {
  }

  lemma ExtendTrace(panes: seq<Presence>, env: Env, tr: ScanTrace, s: Session, s1: Session, claimed1: set<Key>,
                    pa: Presence, s2: Session, claimed2: set<Key>, kept: Option<Key>) returns (tr': ScanTrace)
    requires TracedTo(panes, env, tr, s, s1, claimed1)
    requires PaneStep(s1, claimed1, pa, env, s2, claimed2, kept)
    ensures TracedTo(panes + [pa], env, tr', s, s2, claimed2) && tr'.states == tr.states + [s2]
  {
    tr' := ScanTrace(tr.excused, tr.states + [s2], tr.claims + [claimed2], tr.kept + [kept]);
    var all := panes + [pa];
    forall i | 0 <= i < |all|
      ensures PaneStep(tr'.states[i], tr'.claims[i], all[i], env, tr'.states[i + 1], tr'.claims[i + 1], tr'.kept[i])
    {
      if i < |panes| {
        assert PaneStep(tr.states[i], tr.claims[i], panes[i], env, tr.states[i + 1], tr.claims[i + 1], tr.kept[i]);
      }
    }
  }

  /** What a client can see of the rows is unchanged: a pane title alone is no news. */
  ghost predicate SameButTitles(rows: Rows, rows': Rows) {
    && rows'.Keys == rows.Keys
    && forall k :: k in rows ==> rows'[k] == rows[k].(paneTitle := rows'[k].paneTitle)
  }

  /** Some pane's turn shows. */
  ghost predicate PanesShow(states: seq<Session>) {
    exists i :: 0 <= i < |states| - 1 && TurnShows(states, i)
  }

  ghost predicate TurnShows(states: seq<Session>, i: int)
    requires 0 <= i < |states| - 1
  {
    !SameButTitles(states[i].rows, states[i + 1].rows)
  }

  /** Some part of a scan shows: step 1 retires a row, a pane's turn says more than a title, or
      step 3 exits a row. */
  ghost predicate ScanShows(s: Session, panes: seq<Presence>, threshold: int, tr: ScanTrace, s': Session) {
    || AfterMisses(s, panes, tr.excused, threshold).rows != s.rows
    || PanesShow(tr.states)
    || (|tr.states| > 0 && s'.rows != tr.states[|tr.states| - 1].rows)
  }

  lemma OneMoreShows(states: seq<Session>, s: Session)
    requires |states| > 0
    ensures PanesShow(states + [s]) <==> PanesShow(states) || !SameButTitles(states[|states| - 1].rows, s.rows)
  {
    var longer := states + [s];
    assert TurnShows(longer, |states| - 1) <==> !SameButTitles(states[|states| - 1].rows, s.rows);
    assert forall i :: 0 <= i < |states| - 1 ==> (TurnShows(longer, i) <==> TurnShows(states, i));
  }

  lemma ClaimIsStep(s: Session, claimed: set<Key>, pa: Presence, env: Env, k: Key, s': Session)
    requires MayClaim(s.rows, claimed, pa, k)
    requires s' == Bind(s, k, Stamp(s.rows[k], pa, pa.threadName), pa, env.alivePids)
    ensures PaneStep(s, claimed, pa, env, s', claimed + {k}, Some(k))
  {
  }

  lemma MintIsStep(s: Session, claimed: set<Key>, pa: Presence, env: Env, s': Session)
    requires (forall k :: !MayClaim(s.rows, claimed, pa, k)) && !Suppressed(s, pa, env.now)
    requires s' == Bind(Expire(s, pa), MintKey(s.rows, pa), MintedRow(s.rows, pa, env.now), pa, env.alivePids)
    ensures PaneStep(s, claimed, pa, env, s', claimed, Some(MintKey(s.rows, pa)))
  {
  }

  lemma MayClaimHasRow(rows: Rows, claimed: set<Key>, pa: Presence, k: Key)
    requires MayClaim(rows, claimed, pa, k)
    ensures k in rows
  {
  }

  lemma RemoveOneMore<K, V>(m: map<K, V>, gone: set<K>, k: K)
    ensures m - (gone + {k}) == m - gone - {k}
  {
  }

  /** Visiting one more element of todo collects it when it belongs to all. */
  lemma VisitOne<K>(all: set<K>, found: set<K>, todo: set<K>, k: K)
    requires found == all - todo && k in todo
    ensures all - (todo - {k}) == found + if k in all then {k} else {}
  {
  }

  lemma ForgetOneMore(s: Session, gone: set<Key>, k: Key)
    ensures Forget(s, gone + {k}) == Forget(Forget(s, gone), {k})
  {
    RemoveOneMore(s.rows, gone, k);
    RemoveOneMore(s.misses, gone, k);
  }

  lemma AbsentIsForgotten(s: Session, key: Key, threshold: int)
    requires Inv(s, threshold) && s.rows == map[]
    ensures Forget(s, {key}) == s
  {
  }

  lemma NoRowsNoGhosts(s: Session)
    requires s.rows == map[]
    ensures ExitGhosts(s, {}) == s
  {
    assert ExitGhosts(s, {}).rows == s.rows;
  }

  lemma UnbindNothing(s: Session)
    ensures UnbindRows(s, {}) == s
  {
    assert UnbindRows(s, {}).rows == s.rows;
  }

  lemma ForgettingShows(s: Session, gone: set<Key>)
    requires gone <= s.rows.Keys
    ensures Forget(s, gone).rows != s.rows <==> gone != {}
  {
    if k :| k in gone {
      assert k !in Forget(s, gone).rows;
    } else {
      assert Forget(s, gone).rows == s.rows;
    }
  }

  lemma UnbindingShows(s: Session, out: set<Key>)
    requires forall k :: k in out ==> k in s.rows && s.rows[k].liveness.Alive?
    ensures UnbindRows(s, out).rows != s.rows <==> out != {}
  {
    if k :| k in out {
      assert UnbindRows(s, out).rows[k].liveness.Exited?;
    } else {
      assert UnbindRows(s, out).rows == s.rows;
    }
  }

  /** Retiring rows is news exactly when it changes one. */
  lemma RetiringShows(s: Session, keep: Key, agent: string, pane: string, pid: int, alivePids: set<int>)
    ensures
      var s1 := RetireSuperseded(s, keep, agent, pid);
      var s2 := RetireDisplaced(s1, keep, agent, pane, pid, alivePids);
      if s1.rows == s.rows && s2.rows == s1.rows then SameButTitles(s.rows, s2.rows)
      else exists q :: q != keep && IsLost(s.rows, s2.rows, q)
  {
    var s1 := RetireSuperseded(s, keep, agent, pid);
    var s2 := RetireDisplaced(s1, keep, agent, pane, pid, alivePids);
    ForgettingShows(s, Superseded(s.rows, keep, agent, pid));
    UnbindingShows(s1, Displaced(s1.rows, keep, agent, pane, pid, alivePids));
    if k :| k in Superseded(s.rows, keep, agent, pid) {
      assert k != keep && IsLost(s.rows, s2.rows, k);
    } else if k :| k in Displaced(s1.rows, keep, agent, pane, pid, alivePids) {
      assert k != keep && IsLost(s.rows, s2.rows, k);
    }
  }

  /** The row's new value differs from its old one in its title at most. */
  predicate Restamps(rows: Rows, k: Key, row: Row) {
    k in rows && row == rows[k].(paneTitle := row.paneTitle)
  }

  /** Binding a row is news exactly when it retires another or the row says more than a new
      title. */
  lemma BindingShows(s: Session, k: Key, row: Row, pa: Presence, alivePids: set<int>, retired: bool)
    requires
      var s1 := s.(rows := s.rows[k := row], misses := s.misses - {k});
      var s2 := RetireSuperseded(s1, k, pa.agent, pa.pid);
      retired <==> s2.rows != s1.rows || Bind(s, k, row, pa, alivePids).rows != s2.rows
    ensures SameButTitles(s.rows, Bind(s, k, row, pa, alivePids).rows) <==> !retired && Restamps(s.rows, k, row)
  {
    var s1 := s.(rows := s.rows[k := row], misses := s.misses - {k});
    var s' := Bind(s, k, row, pa, alivePids);
    RetiringShows(s1, k, pa.agent, pa.paneId, pa.pid, alivePids);
    if retired {
      var q :| q != k && IsLost(s1.rows, s'.rows, q);
      assert IsLost(s.rows, s'.rows, q);
    } else {
      assert s'.rows == s.rows[k := row];
    }
  }

  /** The row is gone or has another liveness. */
  predicate IsLost(rows: Rows, rows': Rows, q: Key) {
    q in rows && (q in rows' ==> rows'[q].liveness != rows[q].liveness)
  }

  lemma UnbindOneMore(s: Session, out: set<Key>, k: Key)
    requires k in s.rows && k !in out
    ensures
      var s1 := UnbindRows(s, out);
      UnbindRows(s, out + {k}) == s1.(rows := s1.rows[k := Unbind(s.rows[k])], misses := s1.misses - {k})
  {
    var s1 := UnbindRows(s, out);
    assert UnbindRows(s, out + {k}).rows == s1.rows[k := Unbind(s.rows[k])];
  }

  /** What a miss does to one row: one more miss, or its exit. */
  function AfterMiss(s: Session, key: Key, threshold: int): Session
    requires key in s.rows
  {
    if MissCount(s, key) + 1 < threshold then s.(misses := s.misses[key := MissCount(s, key) + 1])
    else if Synthetic(key) then Forget(s, {key})
    else s.(rows := s.rows[key := Unbind(s.rows[key])], misses := s.misses - {key})
  }

  /** Where step 1 stands: the rows still to visit, those missed and those excused, and the
      spare panes that are left. */
  ghost predicate MissProgress(s: Session, panes: seq<Presence>, threshold: int, spare: map<string, nat>,
                               missed: set<Key>, excused: set<Key>, todo: set<Key>, v: Session) {
    && todo <= s.rows.Keys && missed !! excused
    && missed + excused == MissingKeys(s.rows, ActivePanes(panes)) - todo
    && v == ApplyMisses(s, missed, excused, threshold)
    && (forall a :: Get(spare, a, 0) == SpareCount(s.rows, panes, a) - |OfAgent(s.rows, excused, a)|)
    && (forall k :: k in missed ==> Get(spare, s.rows[k].agent, 0) == 0)
  }

  lemma MissStart(s: Session, panes: seq<Presence>, threshold: int, spare: map<string, nat>)
    requires forall a :: Get(spare, a, 0) == SpareCount(s.rows, panes, a)
    ensures MissProgress(s, panes, threshold, spare, {}, {}, s.rows.Keys, s)
  {
    NothingMissed(s, panes, threshold);
    assert forall a :: OfAgent(s.rows, {}, a) == {};
  }

  lemma ProgressHasRow(s: Session, panes: seq<Presence>, threshold: int, spare: map<string, nat>,
                       missed: set<Key>, excused: set<Key>, todo: set<Key>, v: Session, k: Key)
    requires MissProgress(s, panes, threshold, spare, missed, excused, todo, v) && k in todo
    ensures k in v.rows
  {
    UntouchedRow(s, missed, excused, threshold, k);
  }

  lemma MissEnd(s: Session, panes: seq<Presence>, threshold: int, spare: map<string, nat>,
                missed: set<Key>, excused: set<Key>, v: Session)
    requires MissProgress(s, panes, threshold, spare, missed, excused, {}, v)
    ensures Excusable(s.rows, panes, excused) && v == AfterMisses(s, panes, excused, threshold)
  {
    assert MissingKeys(s.rows, ActivePanes(panes)) - excused == missed;
  }

  lemma DueOneMore(s: Session, missed: set<Key>, threshold: int, k: Key)
    ensures Due(s, missed + {k}, threshold) ==
            Due(s, missed, threshold) + if MissCount(s, k) + 1 >= threshold then {k} else {}
  {
  }

  /** Step 1 changes some row exactly when some missed row is due. */
  lemma DueShow(s: Session, panes: seq<Presence>, threshold: int, spare: map<string, nat>,
                missed: set<Key>, excused: set<Key>, todo: set<Key>, v: Session)
    requires MissProgress(s, panes, threshold, spare, missed, excused, todo, v)
    ensures v.rows != s.rows <==> Due(s, missed, threshold) != {}
  {
    if k :| k in Due(s, missed, threshold) {
      assert k in missed + excused;
      assert s.rows[k].liveness.Alive?;
      assert k in v.rows ==> v.rows[k].liveness.Exited?;
    } else {
      assert v.rows == s.rows;
    }
  }

  lemma NothingMissed(s: Session, panes: seq<Presence>, threshold: int)
    ensures ApplyMisses(s, {}, {}, threshold) == s
    ensures s.rows == map[] ==> AfterMisses(s, panes, {}, threshold) == s && Excusable(s.rows, panes, {})
  {
    assert ApplyMisses(s, {}, {}, threshold).rows == s.rows;
    assert ApplyMisses(s, {}, {}, threshold).misses == s.misses;
    if s.rows == map[] {
      assert MissingKeys(s.rows, ActivePanes(panes)) == {};
      assert forall a :: OfAgent(s.rows, {}, a) == {};
    }
  }

  lemma UntouchedRow(s: Session, missed: set<Key>, excused: set<Key>, threshold: int, k: Key)
    requires k in s.rows && k !in missed && k !in excused
    ensures
      var s1 := ApplyMisses(s, missed, excused, threshold);
      k in s1.rows && s1.rows[k] == s.rows[k] && MissCount(s1, k) == MissCount(s, k)
  {
  }

  lemma ExcuseOne(s: Session, missed: set<Key>, excused: set<Key>, threshold: int, k: Key)
    requires k in s.rows && k !in missed && k !in excused
    ensures
      var s1 := ApplyMisses(s, missed, excused, threshold);
      ApplyMisses(s, missed, excused + {k}, threshold) == s1.(misses := s1.misses - {k})
    ensures forall a :: |OfAgent(s.rows, excused + {k}, a)| ==
                        |OfAgent(s.rows, excused, a)| + if a == s.rows[k].agent then 1 else 0
  {
    var s1 := ApplyMisses(s, missed, excused, threshold);
    assert ApplyMisses(s, missed, excused + {k}, threshold).misses == s1.misses - {k};
    forall a
      ensures |OfAgent(s.rows, excused + {k}, a)| == |OfAgent(s.rows, excused, a)| +
          if a == s.rows[k].agent then 1 else 0
    {
      assert OfAgent(s.rows, excused + {k}, a) == OfAgent(s.rows, excused, a) +
          if a == s.rows[k].agent then {k} else {};
    }
  }

  lemma ExcuseProgress(s: Session, panes: seq<Presence>, threshold: int, spare: map<string, nat>,
                       missed: set<Key>, excused: set<Key>, todo: set<Key>, v: Session, k: Key)
    requires MissProgress(s, panes, threshold, spare, missed, excused, todo, v)
    requires k in todo && IsMissing(s.rows, ActivePanes(panes), k) && Get(spare, s.rows[k].agent, 0) > 0
    ensures MissProgress(s, panes, threshold, spare[s.rows[k].agent := Get(spare, s.rows[k].agent, 0) - 1],
                         missed, excused + {k}, todo - {k}, v.(misses := v.misses - {k}))
  {
    ExcuseOne(s, missed, excused, threshold, k);
  }

  lemma MissesOfDue(s: Session, missed: set<Key>, excused: set<Key>, threshold: int, k: Key)
    requires k in s.rows && k !in missed && k !in excused && MissCount(s, k) + 1 >= threshold
    ensures
      var s1 := ApplyMisses(s, missed, excused, threshold);
      ApplyMisses(s, missed + {k}, excused, threshold).misses == s1.misses - {k}
  {
  }

  lemma RowsOfDue(s: Session, missed: set<Key>, excused: set<Key>, threshold: int, k: Key)
    requires k in s.rows && k !in missed && k !in excused && MissCount(s, k) + 1 >= threshold
    ensures
      var s1 := ApplyMisses(s, missed, excused, threshold);
      var s2 := ApplyMisses(s, missed + {k}, excused, threshold);
      if Synthetic(k) then s2.rows == s1.rows - {k} && s2.unseen == s1.unseen - {k}
      else s2.rows == s1.rows[k := Unbind(s.rows[k])] && s2.unseen == s1.unseen
  {
  }

  lemma MissNotDue(s: Session, missed: set<Key>, excused: set<Key>, threshold: int, k: Key)
    requires k in s.rows && k !in missed && k !in excused && MissCount(s, k) + 1 < threshold
    ensures
      var s1 := ApplyMisses(s, missed, excused, threshold);
      ApplyMisses(s, missed + {k}, excused, threshold) == s1.(misses := s1.misses[k := MissCount(s, k) + 1])
  {
    var s1 := ApplyMisses(s, missed, excused, threshold);
    var s2 := ApplyMisses(s, missed + {k}, excused, threshold);
    assert Due(s, missed + {k}, threshold) == Due(s, missed, threshold);
    assert s2.misses == s1.misses[k := MissCount(s, k) + 1];
  }

  lemma MissOne(s: Session, missed: set<Key>, excused: set<Key>, threshold: int, k: Key)
    requires k in s.rows && k !in missed && k !in excused
    ensures
      var s1 := ApplyMisses(s, missed, excused, threshold);
      k in s1.rows && ApplyMisses(s, missed + {k}, excused, threshold) == AfterMiss(s1, k, threshold)
  {
    UntouchedRow(s, missed, excused, threshold, k);
    if MissCount(s, k) + 1 < threshold {
      MissNotDue(s, missed, excused, threshold, k);
    } else {
      MissesOfDue(s, missed, excused, threshold, k);
      RowsOfDue(s, missed, excused, threshold, k);
    }
  }

  lemma MissingProgress(s: Session, panes: seq<Presence>, threshold: int, spare: map<string, nat>,
                        missed: set<Key>, excused: set<Key>, todo: set<Key>, v: Session, k: Key)
    requires MissProgress(s, panes, threshold, spare, missed, excused, todo, v)
    requires k in todo && IsMissing(s.rows, ActivePanes(panes), k) && Get(spare, s.rows[k].agent, 0) == 0
    ensures k in v.rows
    ensures MissProgress(s, panes, threshold, spare, missed + {k}, excused, todo - {k}, AfterMiss(v, k, threshold))
  {
    MissOne(s, missed, excused, threshold, k);
  }

  lemma OneSuperseded(rows: Rows, key: Key, stored: Row, row: Row, from: Key)
    requires SameProcess(rows, key, stored, from) && row == AdoptPane(stored, rows[from])
    requires forall k :: SameProcess(rows, key, stored, k) ==> k == from
    ensures Supersedes(rows, key, stored, row, {from})
  {
  }

  /** Storing the row first and retiring afterwards is the same as settling. */
  lemma SettleIsForget(s: Session, rows: Rows, key: Key, stored: Row, row: Row, gone: set<Key>, inactive: bool)
    requires rows == s.rows[key := stored] && Supersedes(rows, key, stored, row, gone)
    ensures row.status == stored.status
    ensures
      var s1 := Forget(s.(rows := rows[key := row]), gone);
      Settle(s, key, row, gone, inactive) == s1.(unseen := FlagUnseen(s1.unseen, key, row.status, inactive))
  {
    assert key !in gone;
    assert rows[key := row] == s.rows[key := row];
    assert (s.rows - gone)[key := row] == s.rows[key := row] - gone;
  }

  lemma ForgottenSettles(s: Session, rows: Rows, key: Key, stored: Row, row: Row, gone: set<Key>, inactive: bool,
                         s1: Session, s': Session)
    requires rows == s.rows[key := stored] && Supersedes(rows, key, stored, row, gone)
    requires s1 == Forget(s.(rows := rows[key := row]), gone)
    requires s' == s1.(unseen := FlagUnseen(s1.unseen, key, stored.status, inactive))
    ensures Settles(s, rows, key, stored, inactive, s')
  {
    SettleIsForget(s, rows, key, stored, row, gone, inactive);
  }
}
