/** What one pane scan leaves in its session, read off the rows, the flags and the counters:
    the panes that stand in for missing rows, the misses, the row each pane keeps and what it
    says, and the rows no scan confirms. */
module ScanEffects {
  import opened Wrappers
  import opened AgentModel
  import opened TrackerSpec

  // ----- step 1 -----

  /** No row a scan saw alive is on the pane. */
  predicate IsOpen(rows: Rows, pane: string) {
    forall k :: k in rows && rows[k].liveness == Alive && rows[k].paneId != "" ==> rows[k].paneId != pane
  }

  /** The positions of the agent's panes that no alive row is on. */
  function OpenPanes(rows: Rows, panes: seq<Presence>, agent: string): set<nat> {
    set i: nat | i < |panes| && panes[i].agent == agent && IsOpen(rows, panes[i].paneId)
  }

  /** The agent's alive rows whose pane the scan does not list. */
  function GoneRows(rows: Rows, panes: seq<Presence>, agent: string): set<Key> {
    set k | k in rows && rows[k].agent == agent && IsGone(rows[k], panes)
  }

  predicate IsGone(r: Row, panes: seq<Presence>) {
    r.liveness == Alive && r.paneId != "" && forall i :: 0 <= i < |panes| ==> panes[i].paneId != r.paneId
  }

  /** The spare panes of an agent are its panes that no alive row is on. */
  lemma {:induction false} SparesAreOpen(rows: Rows, panes: seq<Presence>, agent: string)
    ensures SpareCount(rows, panes, agent) == |OpenPanes(rows, panes, agent)|
  {
    if |panes| > 0 {
      var n := |panes| - 1;
      var init := panes[..n];
      SparesAreOpen(rows, init, agent);
      assert BoundTo(rows, panes[n].paneId) <==> !IsOpen(rows, panes[n].paneId);
      if panes[n].agent == agent && IsOpen(rows, panes[n].paneId) {
        assert OpenPanes(rows, panes, agent) == OpenPanes(rows, init, agent) + {n};
      } else {
        assert OpenPanes(rows, panes, agent) == OpenPanes(rows, init, agent);
      }
    }
  }

  /** A scan excuses as many of an agent's gone rows as the agent has open panes, or all of
      them, and no other row: none when an alive row is on each of the agent's panes, all when
      there are as many open panes. */
  lemma ExcusedAreCovered(s: Session, panes: seq<Presence>, env: Env, threshold: int, tr: ScanTrace, s': Session,
                          agent: string)
    requires ScanStep(s, panes, env, threshold, tr, s')
    ensures
      var gone, open := GoneRows(s.rows, panes, agent), |OpenPanes(s.rows, panes, agent)|;
      var mine := set k | k in tr.excused && k in s.rows && s.rows[k].agent == agent;
      && mine <= gone && tr.excused <= s.rows.Keys
      && (|gone| <= open ==> mine == gone)
      && (|gone| >= open ==> |mine| == open)
    ensures (forall i :: 0 <= i < |panes| && panes[i].agent == agent ==> !IsOpen(s.rows, panes[i].paneId)) ==>
              forall k :: k in tr.excused ==> s.rows[k].agent != agent
  {
    var gone, open := GoneRows(s.rows, panes, agent), OpenPanes(s.rows, panes, agent);
    var mine := set k | k in tr.excused && k in s.rows && s.rows[k].agent == agent;
    SparesAreOpen(s.rows, panes, agent);
    GoneAreMissing(s.rows, panes, agent);
    assert mine == OfAgent(s.rows, tr.excused, agent);
    FillsUp(mine, gone, |open|);
    if forall i :: 0 <= i < |panes| && panes[i].agent == agent ==> !IsOpen(s.rows, panes[i].paneId) {
      assert open == {} && |mine| == 0;
      forall k | k in tr.excused
        ensures s.rows[k].agent != agent
      {
        assert k !in mine;
      }
    }
  }

  lemma GoneAreMissing(rows: Rows, panes: seq<Presence>, agent: string)
    ensures OfAgent(rows, MissingKeys(rows, ActivePanes(panes)), agent) == GoneRows(rows, panes, agent)
    ensures forall k :: IsMissing(rows, ActivePanes(panes), k) <==> k in rows && IsGone(rows[k], panes)
  {
  }

  lemma NoSpareIff(rows: Rows, panes: seq<Presence>, agent: string)
    ensures SpareCount(rows, panes, agent) == 0 <==>
            forall i :: 0 <= i < |panes| && panes[i].agent == agent ==> !IsOpen(rows, panes[i].paneId)
  {
    SparesAreOpen(rows, panes, agent);
    if i: nat :| i < |panes| && panes[i].agent == agent && IsOpen(rows, panes[i].paneId) {
      assert i in OpenPanes(rows, panes, agent);
    } else {
      assert OpenPanes(rows, panes, agent) == {};
    }
  }

  /** A part that is all there is unless it has n elements has the smaller size. */
  lemma FillsUp<T>(part: set<T>, all: set<T>, n: nat)
    requires part <= all && |part| <= n && (|part| < n ==> all <= part)
    ensures |all| <= n ==> part == all
    ensures |all| >= n ==> |part| == n
  {
    assert all == part + (all - part);
  }

  /** What step 1 does to one row and its counter: a row that is not gone is left alone, an
      excused one loses its counter, and any other counts one more miss and, once its misses
      reach the threshold, exits and gives up its pane, or goes when a scan had minted it for
      the pane. */
  lemma StepOneAtRow(s: Session, panes: seq<Presence>, excused: set<Key>, threshold: int, k: Key)
    requires k in s.rows
    ensures
      var s1 := AfterMisses(s, panes, excused, threshold);
      s1.rows.Keys <= s.rows.Keys && s1.ended == s.ended
    ensures
      var s1 := AfterMisses(s, panes, excused, threshold);
      var misses := (if k in s.misses then s.misses[k] else 0) + 1;
      if !IsGone(s.rows[k], panes) then
        && k in s1.rows && s1.rows[k] == s.rows[k] && (k in s1.unseen <==> k in s.unseen)
        && Lookup(s1.misses, k) == if k in excused then None else Lookup(s.misses, k)
      else if k in excused || misses < threshold then
        && k in s1.rows && s1.rows[k] == s.rows[k] && (k in s1.unseen <==> k in s.unseen)
        && Lookup(s1.misses, k) == if k in excused then None else Some(misses)
      else
        && k !in s1.misses && (k in s1.rows <==> !k.Pane?)
        && (!k.Pane? ==> s1.rows[k] == s.rows[k].(liveness := Exited, paneId := ""))
        && (k in s1.unseen <==> k in s.unseen && !k.Pane?)
  {
    GoneAreMissing(s.rows, panes, s.rows[k].agent);
  }

  // ----- step 2 -----

  /** A row a pane may claim at all. */
  predicate IsFree(rows: Rows, claimed: set<Key>, agent: string, k: Key) {
    k in rows && k !in claimed && !k.Pane? && rows[k].agent == agent && rows[k].liveness != Exited
  }

  /** A row of the pane's process, unless both know a thread and they differ. */
  predicate IsOwn(rows: Rows, claimed: set<Key>, pa: Presence, k: Key) {
    && IsFree(rows, claimed, pa.agent, k) && pa.pid != 0 && rows[k].pid == pa.pid
    && (pa.threadId == "" || rows[k].threadId == "" || rows[k].threadId == pa.threadId)
  }

  predicate IsPidless(rows: Rows, claimed: set<Key>, pa: Presence, k: Key) {
    IsFree(rows, claimed, pa.agent, k) && rows[k].pid == 0
  }

  predicate IsHere(rows: Rows, claimed: set<Key>, pa: Presence, k: Key) {
    IsPidless(rows, claimed, pa, k) && rows[k].paneId == pa.paneId
  }

  lemma RanksAreMatches(rows: Rows, claimed: set<Key>, pa: Presence, k: Key)
    ensures ThreadMatch(rows, claimed, pa, k) <==>
              pa.threadId != "" && k == Thread(pa.agent, pa.threadId) && IsFree(rows, claimed, pa.agent, k)
    ensures PidMatch(rows, claimed, pa, k) <==> IsOwn(rows, claimed, pa, k)
    ensures PidlessMatch(rows, claimed, pa, k) <==> IsPidless(rows, claimed, pa, k)
    ensures PidlessBound(rows, claimed, pa, k) <==> IsHere(rows, claimed, pa, k)
  {
  }

  /** The row a pane claims: its thread's, else one of its process, else one without a pid that
      is on the pane, else any without a pid. With no row to claim the pane claims none. */
  lemma ClaimsByRank(s: Session, claimed: set<Key>, pa: Presence, env: Env, s': Session, claimed': set<Key>,
                     kept: Option<Key>)
    requires PaneStep(s, claimed, pa, env, s', claimed', kept)
    ensures
      if pa.threadId != "" && IsFree(s.rows, claimed, pa.agent, Thread(pa.agent, pa.threadId)) then
        kept == Some(Thread(pa.agent, pa.threadId)) && claimed' == claimed + {Thread(pa.agent, pa.threadId)}
      else if exists k :: IsOwn(s.rows, claimed, pa, k) then
        kept.Some? && IsOwn(s.rows, claimed, pa, kept.value) && claimed' == claimed + {kept.value}
      else if exists k :: IsHere(s.rows, claimed, pa, k) then
        kept.Some? && IsHere(s.rows, claimed, pa, kept.value) && claimed' == claimed + {kept.value}
      else if exists k :: IsPidless(s.rows, claimed, pa, k) then
        kept.Some? && IsPidless(s.rows, claimed, pa, kept.value) && claimed' == claimed + {kept.value}
      else claimed' == claimed
  {
    forall k {
      RanksAreMatches(s.rows, claimed, pa, k);
    }
    if q :| ThreadMatch(s.rows, claimed, pa, q) {
      assert MayClaim(s.rows, claimed, pa, q);
    } else if q :| PidMatch(s.rows, claimed, pa, q) {
      assert MayClaim(s.rows, claimed, pa, q);
    } else if q :| PidlessBound(s.rows, claimed, pa, q) {
      assert MayClaim(s.rows, claimed, pa, q);
    } else if q :| PidlessMatch(s.rows, claimed, pa, q) {
      assert MayClaim(s.rows, claimed, pa, q);
    }
  }

  /** A pane with no row to claim mints none while its ended thread is remembered; otherwise it
      mints under its thread's key, or under its own when it has no thread or an alive row
      of another process holds that key. */
  lemma MintsWithoutClaim(s: Session, claimed: set<Key>, pa: Presence, env: Env, s': Session, claimed': set<Key>,
                          kept: Option<Key>)
    requires PaneStep(s, claimed, pa, env, s', claimed', kept) && claimed' == claimed
    ensures
      var ended := (pa.agent, pa.paneId);
      var own := Thread(pa.agent, pa.threadId);
      if ended in s.ended && env.now < s.ended[ended] then kept == None && s' == s
      else
        && s'.ended == s.ended - {ended}
        && var held := && own in s.rows && s.rows[own].pid != 0 && s.rows[own].pid != pa.pid
                       && s.rows[own].liveness == Alive;
           kept == Some(if pa.threadId != "" && !held then own else Pane(pa.agent, pa.paneId))
  {
  }

  /** An alive row on the pane whose process is another one and gone. */
  predicate IsRelic(r: Row, pa: Presence, alivePids: set<int>) {
    && pa.paneId != "" && r.agent == pa.agent && r.paneId == pa.paneId && r.liveness == Alive
    && r.pid != pa.pid && (r.pid == 0 || r.pid !in alivePids)
  }

  /** What the row a pane keeps says after its turn: it is alive at the pane's place under its
      title and has no counter. A row that was there keeps the rest; the pane's name of the thread replaces its
      own, unless it was minted for the pane, and a restamped one takes the pane's pid. A new
      one is idle since now and is of the pane's process. */
  lemma KeptRowSays(s: Session, claimed: set<Key>, pa: Presence, env: Env, s': Session, claimed': set<Key>,
                    kept: Option<Key>)
    requires PaneStep(s, claimed, pa, env, s', claimed', kept) && kept.Some?
    ensures kept.value in s'.rows && kept.value !in s'.misses && (kept.value in s'.unseen <==> kept.value in s.unseen)
    ensures claimed' != claimed ==> s'.ended == s.ended
    ensures
      var k := kept.value;
      var r := s'.rows[k];
      var name := if k.Pane? then "" else pa.threadName;
      && r.paneId == pa.paneId && r.liveness == Alive && r.windowIndex == pa.windowIndex
      && r.paneIndex == pa.paneIndex && r.paneTitle == pa.paneTitle
      && if k in s.rows then
           var was := s.rows[k];
           && r.agent == was.agent && r.threadId == was.threadId && r.status == was.status && r.ts == was.ts
           && r.firstSeenTs == was.firstSeenTs && r.subagent == was.subagent
           && r.toolDescription == was.toolDescription && r.toolVerb == was.toolVerb
           && r.threadName == (if name != "" then name else was.threadName)
           && r.pid == if claimed' != claimed then was.pid else pa.pid
         else
           && r.agent == pa.agent && r.threadId == (if k.Pane? then "" else pa.threadId) && r.threadName == name
           && r.status == Idle && r.ts == env.now && r.firstSeenTs == 0 && r.pid == pa.pid
           && r.subagent == "" && r.toolDescription == "" && r.toolVerb == ""
  {
  }

  lemma BindAtRow(s: Session, k: Key, r: Row, pa: Presence, alivePids: set<int>, q: Key)
    requires q in s.rows && q != k
    ensures
      var s' := Bind(s, k, r, pa, alivePids);
      if pa.pid != 0 && s.rows[q].agent == pa.agent && s.rows[q].pid == pa.pid then
        q !in s'.rows && q !in s'.unseen && q !in s'.misses
      else
        && q in s'.rows && (q in s'.unseen <==> q in s.unseen)
        && if IsRelic(s.rows[q], pa, alivePids) then
             s'.rows[q] == s.rows[q].(liveness := Exited, paneId := "") && q !in s'.misses
           else s'.rows[q] == s.rows[q] && Lookup(s'.misses, q) == Lookup(s.misses, q)
    ensures Bind(s, k, r, pa, alivePids).rows.Keys <= s.rows.Keys + {k}
  {
  }

  /** What a pane that keeps a row does to the others. */
  lemma KeptRowDisplaces(s: Session, claimed: set<Key>, pa: Presence, env: Env, s': Session, claimed': set<Key>,
                         kept: Option<Key>, q: Key)
    requires PaneStep(s, claimed, pa, env, s', claimed', kept) && kept.Some? && q in s.rows && q != kept.value
    ensures
      if pa.pid != 0 && s.rows[q].agent == pa.agent && s.rows[q].pid == pa.pid then
        q !in s'.rows && q !in s'.unseen && q !in s'.misses
      else
        && q in s'.rows && (q in s'.unseen <==> q in s.unseen)
        && if IsRelic(s.rows[q], pa, env.alivePids) then
             s'.rows[q] == s.rows[q].(liveness := Exited, paneId := "") && q !in s'.misses
           else s'.rows[q] == s.rows[q] && Lookup(s'.misses, q) == Lookup(s.misses, q)
    ensures s'.rows.Keys <= s.rows.Keys + {kept.value}
  {
    var k := kept.value;
    if exists c :: MayClaim(s.rows, claimed, pa, c) {
      BindAtRow(s, k, Stamp(s.rows[k], pa, pa.threadName), pa, env.alivePids, q);
    } else {
      BindAtRow(Expire(s, pa), k, MintedRow(s.rows, pa, env.now), pa, env.alivePids, q);
    }
  }

  // ----- step 3 -----

  /** A scan that does not lose the session counts the misses, gives each pane its turn in
      their order, and then exits exactly the unclaimed watcher rows without a liveness whose
      status is done, error, interrupted, waiting or idle. */
  lemma GhostsExit(s: Session, panes: seq<Presence>, env: Env, threshold: int, tr: ScanTrace, s': Session, k: Key)
    requires ScanStep(s, panes, env, threshold, tr, s')
    requires
      var s1 := AfterMisses(s, panes, tr.excused, threshold);
      s1.rows != map[] || s.rows == map[]
    ensures |tr.states| == |panes| + 1 && |tr.claims| == |panes| + 1 && |tr.kept| == |panes|
    ensures tr.states[0] == AfterMisses(s, panes, tr.excused, threshold) && tr.claims[0] == {}
    ensures forall i :: 0 <= i < |panes| ==>
              PaneStep(tr.states[i], tr.claims[i], panes[i], env, tr.states[i + 1], tr.claims[i + 1], tr.kept[i])
    ensures
      var last, claimed := tr.states[|panes|], tr.claims[|panes|];
      && s' == last.(rows := s'.rows) && s'.rows.Keys == last.rows.Keys
      && (k in last.rows ==>
          if k !in claimed && !k.Pane? && last.rows[k].liveness == Unset
             && last.rows[k].status in {Done, Error, Interrupted, Waiting, Idle}
          then s'.rows[k] == last.rows[k].(liveness := Exited) else s'.rows[k] == last.rows[k])
  {
  }
}
