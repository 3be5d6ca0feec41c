/** What one watcher event leaves in its session, read off the rows, the flags and the
    counters before and after. */
module EventEffects {
  import opened Wrappers
  import opened AgentModel
  import opened TrackerSpec

  /** key is the one the event's row is stored under. */
  predicate IsKeyOf(key: Key, row: Row) {
    && (row.threadId != "" ==> key == Thread(row.agent, row.threadId))
    && (row.threadId == "" ==> key == Bare(row.agent))
  }

  /** The row before it looks at others, the row it ends as and the rows it removes. */
  lemma Settling(s: Session, ev: Event, seed: bool, active: bool, now: int, s': Session, key: Key)
    returns (stored: Row, r: Row, gone: set<Key>)
    requires EventStep(s, ev, seed, active, now, s') && !ev.ended && IsKeyOf(key, ev.row)
    ensures stored == Enrich(Lookup(s.rows, key), ev.row)
    ensures Supersedes(s.rows[key := stored], key, stored, r, gone)
    ensures s' == Settle(s, key, r, gone, seed || !active)
  {
    stored := Enrich(Lookup(s.rows, key), ev.row);
    assert Settles(s, s.rows[key := stored], key, stored, seed || !active, s');
    r, gone :|
      Supersedes(s.rows[key := stored], key, stored, r, gone) && s' == Settle(s, key, r, gone, seed || !active);
  }

  /** A row keeps all but its pane binding and its title when it replaces others. */
  lemma SupersedingKeeps(rows: Rows, key: Key, stored: Row, r: Row, gone: set<Key>)
    requires Supersedes(rows, key, stored, r, gone)
    ensures r == stored.(paneId := r.paneId, liveness := r.liveness, windowIndex := r.windowIndex,
                         paneIndex := r.paneIndex, paneTitle := r.paneTitle)
    ensures stored.paneTitle != "" ==> r.paneTitle == stored.paneTitle
  {
  }

  /** What the event's row is before it looks at others, whatever pane it is bound to. */
  lemma EnrichFields(prev: Option<Row>, e: Row)
    ensures
      var r := Enrich(prev, e);
      && r.agent == e.agent && r.threadId == e.threadId && r.status == e.status && r.ts == e.ts
      && r.toolDescription == e.toolDescription && r.toolVerb == e.toolVerb
    ensures
      var r := Enrich(prev, e);
      if prev.Some? then
        && r.pid == (if e.pid != 0 then e.pid else prev.value.pid)
        && r.threadName == (if e.threadName != "" then e.threadName else prev.value.threadName)
        && r.subagent == (if e.subagent != "" then e.subagent else prev.value.subagent)
        && r.paneTitle == (if e.paneTitle != "" then e.paneTitle else prev.value.paneTitle)
      else
        r.pid == e.pid && r.threadName == e.threadName && r.subagent == e.subagent && r.paneTitle == e.paneTitle
    ensures
      var r := Enrich(prev, e);
      r.firstSeenTs == if prev.Some? && prev.value.firstSeenTs != 0 then prev.value.firstSeenTs
                       else if e.firstSeenTs != 0 then e.firstSeenTs else e.ts
  {
  }

  /** A live event of a row that ends a turn or waits flags its row unseen when it is a seed
      or its session is not the focused one, and else leaves the flag; an event of a running
      or an idle row takes the flag away. The flag of every other row left stays. */
  lemma EventFlags(s: Session, ev: Event, seed: bool, active: bool, now: int, s': Session, key: Key)
    requires EventStep(s, ev, seed, active, now, s') && !ev.ended && IsKeyOf(key, ev.row)
    ensures ev.row.status in {Done, Error, Interrupted, Waiting} ==>
              (key in s'.unseen <==> seed || !active || key in s.unseen)
    ensures ev.row.status in {Running, Idle} ==> key !in s'.unseen
    ensures forall k :: k in s'.rows && k != key ==> (k in s'.unseen <==> k in s.unseen)
  {
    var stored, r, gone := Settling(s, ev, seed, active, now, s', key);
    SupersedingKeeps(s.rows[key := stored], key, stored, r, gone);
    EnrichFields(Lookup(s.rows, key), ev.row);
  }

  /** The row a live event stores: the event's own identity, status, time and call, with
      the pid, the names and the subagent of the row before it where the event has none;
      the first-seen time is the oldest known. */
  lemma EventFields(s: Session, ev: Event, seed: bool, active: bool, now: int, s': Session, key: Key)
    requires EventStep(s, ev, seed, active, now, s') && !ev.ended && IsKeyOf(key, ev.row)
    ensures key in s'.rows
    ensures
      var r, e := s'.rows[key], ev.row;
      && r.agent == e.agent && r.threadId == e.threadId && r.status == e.status && r.ts == e.ts
      && r.toolDescription == e.toolDescription && r.toolVerb == e.toolVerb
      && (e.pid != 0 ==> r.pid == e.pid) && (e.threadName != "" ==> r.threadName == e.threadName)
      && (e.subagent != "" ==> r.subagent == e.subagent)
      && (e.paneTitle != "" ==> r.paneTitle == e.paneTitle)
    ensures key in s.rows ==>
              var r, e, was := s'.rows[key], ev.row, s.rows[key];
              && (e.pid == 0 ==> r.pid == was.pid) && (e.threadName == "" ==> r.threadName == was.threadName)
              && (e.subagent == "" ==> r.subagent == was.subagent)
              && (e.paneTitle == "" && was.paneTitle != "" ==> r.paneTitle == was.paneTitle)
              && (was.firstSeenTs != 0 ==> r.firstSeenTs == was.firstSeenTs)
    ensures key !in s.rows ==>
              var r, e := s'.rows[key], ev.row;
              r.pid == e.pid && r.threadName == e.threadName && r.subagent == e.subagent
    ensures key !in s.rows || s.rows[key].firstSeenTs == 0 ==>
              s'.rows[key].firstSeenTs == if ev.row.firstSeenTs != 0 then ev.row.firstSeenTs else ev.row.ts
  {
    var stored, r, gone := Settling(s, ev, seed, active, now, s', key);
    SupersedingKeeps(s.rows[key := stored], key, stored, r, gone);
    EnrichFields(Lookup(s.rows, key), ev.row);
  }

  /** What a row says about the pane it is bound to. */
  datatype Binding = Binding(paneId: string, liveness: Liveness, windowIndex: Option<int>, paneIndex: Option<int>)

  function BindingOf(r: Row): Binding {
    Binding(r.paneId, r.liveness, r.windowIndex, r.paneIndex)
  }

  /** own where it says something, else other. */
  predicate IsFilled(b: Binding, own: Binding, other: Binding) {
    && b.paneId == (if own.paneId != "" then own.paneId else other.paneId)
    && b.liveness == (if own.liveness != Unset then own.liveness else other.liveness)
    && b.windowIndex == (if own.windowIndex != None then own.windowIndex else other.windowIndex)
    && b.paneIndex == (if own.paneIndex != None then own.paneIndex else other.paneIndex)
  }

  /** The pane and the process an event's row knows before it looks at other rows: its own,
      else those of the row before it. */
  predicate Knows(rows: Rows, e: Row, key: Key, b: Binding, pid: int) {
    if key in rows then
      && (if rows[key].paneId != "" then IsFilled(b, BindingOf(e), BindingOf(rows[key])) else b == BindingOf(e))
      && pid == if e.pid != 0 then e.pid else rows[key].pid
    else b == BindingOf(e) && pid == e.pid
  }

  /** Another row of the event's process. */
  predicate IsTwin(rows: Rows, key: Key, agent: string, pid: int, k: Key) {
    k in rows && k != key && pid != 0 && rows[k].agent == agent && rows[k].pid == pid
  }

  /** A scanned row without a thread that the event's row may stand for. */
  predicate IsHeir(rows: Rows, key: Key, agent: string, pane: string, pid: int, k: Key) {
    && k in rows && k.Pane? && k != key && rows[k].agent == agent
    && (pane != "" ==> rows[k].paneId == pane)
    && (pane == "" ==> rows[k].paneId != "" && (pid == 0 || rows[k].pid == 0 || rows[k].pid == pid))
  }

  /** The rows of an event's process and its heirs are the ones its stored row may replace. */
  lemma Replaceable(rows: Rows, e: Row, key: Key, stored: Row, b: Binding, pid: int, k: Key)
    requires IsKeyOf(key, e) && Knows(rows, e, key, b, pid) && stored == Enrich(Lookup(rows, key), e)
    ensures BindingOf(stored) == b
    ensures SameProcess(rows[key := stored], key, stored, k) <==> IsTwin(rows, key, e.agent, pid, k)
    ensures MayGraduate(rows[key := stored], key, stored, k) <==> IsHeir(rows, key, e.agent, b.paneId, pid, k)
  {
  }

  /** The rows an event removes. */
  lemma Removed(rows: Rows, e: Row, key: Key, stored: Row, r: Row, gone: set<Key>, b: Binding, pid: int)
    requires IsKeyOf(key, e) && Knows(rows, e, key, b, pid) && stored == Enrich(Lookup(rows, key), e)
    requires Supersedes(rows[key := stored], key, stored, r, gone)
    ensures key !in gone && gone <= rows.Keys
    ensures (exists k :: IsTwin(rows, key, e.agent, pid, k)) ==>
              forall k :: k in gone <==> IsTwin(rows, key, e.agent, pid, k)
    ensures (forall k :: !IsTwin(rows, key, e.agent, pid, k)) ==>
              && (forall k :: k in gone ==> IsHeir(rows, key, e.agent, b.paneId, pid, k))
              && (forall k, q :: k in gone && q in gone ==> k == q)
              && (forall k :: IsHeir(rows, key, e.agent, b.paneId, pid, k) ==> gone != {})
  {
    forall k {
      Replaceable(rows, e, key, stored, b, pid, k);
    }
  }

  /** The binding of a row that takes the place of q: twin says that q is of its process. */
  predicate TakesOver(r: Row, stored: Row, twin: bool, q: Row) {
    && (if twin then IsFilled(BindingOf(r), BindingOf(stored), BindingOf(q))
        else if stored.paneId != "" then BindingOf(r) == BindingOf(stored)
        else IsFilled(BindingOf(r), BindingOf(stored).(liveness := Unset), BindingOf(q)))
    && (stored.paneTitle == "" && (twin || stored.paneId == "") ==> r.paneTitle == q.paneTitle)
  }

  lemma AdoptedTakesOver(stored: Row, q: Row)
    ensures TakesOver(AdoptPane(stored, q), stored, true, q)
    ensures q.paneId != "" || stored.paneId != "" ==> TakesOver(Graduate(stored, q), stored, false, q)
  {
  }

  /** The binding an event's row ends with when it removes at most one row. */
  lemma Rebound(rows: Rows, key: Key, stored: Row, r: Row, gone: set<Key>, q: Key)
    requires Supersedes(rows, key, stored, r, gone)
    ensures gone == {} ==> r == stored
    ensures gone == {q} ==> q in rows && TakesOver(r, stored, SameProcess(rows, key, stored, q), rows[q])
  {
    if exists k :: SameProcess(rows, key, stored, k) {
      var k :| SameProcess(rows, key, stored, k) && r == AdoptPane(stored, rows[k]);
      assert k in gone;
      AdoptedTakesOver(stored, rows[k]);
    } else if exists k :: MayGraduate(rows, key, stored, k) {
      var k :| MayGraduate(rows, key, stored, k) && gone == {k} && r == Graduate(stored, rows[k]);
      assert k in gone;
      AdoptedTakesOver(stored, rows[k]);
    }
  }

  /** A live event removes every other row of its process, else one scanned row that stands
      for it if there is one, and else none; every row left but its own is as it was, and a
      removed row leaves no flag and no counter behind. */
  lemma EventRemoves(s: Session, ev: Event, seed: bool, active: bool, now: int, s': Session, key: Key,
                     b: Binding, pid: int)
    requires EventStep(s, ev, seed, active, now, s') && !ev.ended && IsKeyOf(key, ev.row)
    requires Knows(s.rows, ev.row, key, b, pid)
    ensures (exists k :: IsTwin(s.rows, key, ev.row.agent, pid, k)) ==>
              forall k :: k in s.rows ==> (k !in s'.rows <==> IsTwin(s.rows, key, ev.row.agent, pid, k))
    ensures (forall k :: !IsTwin(s.rows, key, ev.row.agent, pid, k)) ==>
              && (forall k :: k in s.rows && k !in s'.rows ==> IsHeir(s.rows, key, ev.row.agent, b.paneId, pid, k))
              && (forall k, q :: k in s.rows && k !in s'.rows && q in s.rows && q !in s'.rows ==> k == q)
              && (forall k :: IsHeir(s.rows, key, ev.row.agent, b.paneId, pid, k) ==> s.rows.Keys - s'.rows.Keys != {})
    ensures forall k :: k in s'.rows && k != key ==> k in s.rows && s'.rows[k] == s.rows[k]
    ensures s'.unseen - {key} == s.unseen - (s.rows.Keys - s'.rows.Keys) - {key}
    ensures s'.misses == s.misses - (s.rows.Keys - s'.rows.Keys) && s'.ended == s.ended
  {
    var stored, r, gone := Settling(s, ev, seed, active, now, s', key);
    Removed(s.rows, ev.row, key, stored, r, gone, b, pid);
    assert s.rows.Keys - s'.rows.Keys == gone;
  }

  /** The stored row's pane binding is the one the event knows; it is filled from the row the
      event removes when that one is of its process, and when the event knows no pane, and
      then a removed scanned row also decides the liveness. */
  lemma EventBinding(s: Session, ev: Event, seed: bool, active: bool, now: int, s': Session, key: Key,
                     b: Binding, pid: int)
    requires EventStep(s, ev, seed, active, now, s') && !ev.ended && IsKeyOf(key, ev.row)
    requires Knows(s.rows, ev.row, key, b, pid)
    ensures key in s'.rows
    ensures s.rows.Keys <= s'.rows.Keys ==> BindingOf(s'.rows[key]) == b
    ensures ev.row.paneTitle == "" && (key in s.rows ==> s.rows[key].paneTitle == "") ==>
              forall q :: s.rows.Keys - s'.rows.Keys == {q} ==>
                IsTwin(s.rows, key, ev.row.agent, pid, q) || b.paneId == "" ==>
                s'.rows[key].paneTitle == s.rows[q].paneTitle
    ensures forall q :: s.rows.Keys - s'.rows.Keys == {q} ==>
              var r := BindingOf(s'.rows[key]);
              if IsTwin(s.rows, key, ev.row.agent, pid, q) then IsFilled(r, b, BindingOf(s.rows[q]))
              else if b.paneId != "" then r == b
              else IsFilled(r, b.(liveness := Unset), BindingOf(s.rows[q]))
  {
    var stored, r, gone := Settling(s, ev, seed, active, now, s', key);
    Removed(s.rows, ev.row, key, stored, r, gone, b, pid);
    assert s.rows.Keys - s'.rows.Keys == gone;
    Rebound(s.rows[key := stored], key, stored, r, gone, key);
    Replaceable(s.rows, ev.row, key, stored, b, pid, key);
    forall q | gone == {q}
      ensures q in s.rows && TakesOver(r, stored, IsTwin(s.rows, key, ev.row.agent, pid, q), s.rows[q])
    {
      assert q in gone;
      Rebound(s.rows[key := stored], key, stored, r, gone, q);
      Replaceable(s.rows, ev.row, key, stored, b, pid, q);
    }
    EnrichFields(Lookup(s.rows, key), ev.row);
  }

  /** An ended event removes its own row with its flag and counter and nothing else; its pane
      mints no row for the next five seconds. */
  lemma EventEnds(s: Session, ev: Event, seed: bool, active: bool, now: int, s': Session, key: Key)
    requires EventStep(s, ev, seed, active, now, s') && ev.ended && IsKeyOf(key, ev.row)
    ensures s'.rows == s.rows - {key} && s'.unseen == s.unseen - {key} && s'.misses == s.misses - {key}
    ensures forall p :: p in s'.ended <==>
              p in s.ended || (key in s.rows && s.rows[key].paneId != "" && p == (ev.row.agent, s.rows[key].paneId))
    ensures forall p :: p in s'.ended ==>
              s'.ended[p] == if key in s.rows && s.rows[key].paneId != "" && p == (ev.row.agent, s.rows[key].paneId)
                             then now + 5000 else s.ended[p]
  {
  }
}
