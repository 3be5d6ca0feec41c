/** What the fallback on pid-less rows does to rows of other threads and on other panes: its
    candidates are checked for neither. */
module ClaimIntegrity {
  import opened Wrappers
  import opened AgentModel
  import opened TrackerSpec
  import opened TrackerInvariants
  import opened OrderIndependence
  import opened Fixtures

  // ----- rows of other threads -----

  /** The row belongs to another thread than the one the scan resolved for the pane. */
  predicate Foreign(rows: Rows, pa: Presence, k: Key) {
    k in rows && pa.threadId != "" && rows[k].threadId != "" && rows[k].threadId != pa.threadId
  }

  /** Whatever the pane claims is no other thread's row. */
  ghost predicate ClaimsKeepThread(rows: Rows, claimed: set<Key>, pa: Presence) {
    forall k :: MayClaim(rows, claimed, pa, k) ==> !Foreign(rows, pa, k)
  }

  /** The thread or the process has a claimable row, or the pid-less rows in question, those
      on the pane if there are any, are no other thread's. */
  ghost predicate ThreadDecides(rows: Rows, claimed: set<Key>, pa: Presence) {
    || (exists k :: ThreadMatch(rows, claimed, pa, k))
    || (exists k :: PidMatch(rows, claimed, pa, k))
    || (if exists k :: PidlessBound(rows, claimed, pa, k) then
          forall k :: PidlessBound(rows, claimed, pa, k) ==> !Foreign(rows, pa, k)
        else
          forall k :: PidlessMatch(rows, claimed, pa, k) ==> !Foreign(rows, pa, k))
  }

  /** A pane never claims another thread's row if and only if that holds. */
  lemma ClaimsKeepThreadIff(rows: Rows, claimed: set<Key>, pa: Presence)
    requires WellKeyed(rows)
    ensures ClaimsKeepThread(rows, claimed, pa) <==> ThreadDecides(rows, claimed, pa)
  {
    if exists k :: ThreadMatch(rows, claimed, pa, k) {
      assert forall k :: MayClaim(rows, claimed, pa, k) ==> ThreadMatch(rows, claimed, pa, k);
    } else if exists k :: PidMatch(rows, claimed, pa, k) {
      assert forall k :: MayClaim(rows, claimed, pa, k) ==> PidMatch(rows, claimed, pa, k);
    } else if exists k :: PidlessBound(rows, claimed, pa, k) {
      assert forall k :: MayClaim(rows, claimed, pa, k) <==> PidlessBound(rows, claimed, pa, k);
    } else {
      assert forall k :: MayClaim(rows, claimed, pa, k) <==> PidlessMatch(rows, claimed, pa, k);
    }
  }

  /** A claimed row of another thread keeps its thread id, and gets the pane and, if there is
      one, the name of the pane's thread. */
  lemma ForeignRowIsRenamed(s: Session, claimed: set<Key>, pa: Presence, env: Env,
                            s': Session, claimed': set<Key>, k: Key)
    requires PaneStep(s, claimed, pa, env, s', claimed', Some(k))
    requires MayClaim(s.rows, claimed, pa, k) && Foreign(s.rows, pa, k)
    ensures k in s'.rows && s'.rows[k].threadId == s.rows[k].threadId != pa.threadId
    ensures s'.rows[k].paneId == pa.paneId && s'.rows[k].threadName == Prefer(pa.threadName, s.rows[k].threadName)
  {
  }

  /** For instance: the pid-less row of thread T takes the name of thread T9. */
  lemma RenamedByAnotherThread(env: Env) returns (s: Session, pa: Presence, s': Session, k: Key)
    ensures Inv(s, 2) && k == Thread(CC, "T") && k in s.rows && s.rows[k].threadName == "tea"
    ensures pa.threadId == "T9" && PaneStep(s, {}, pa, env, s', {k}, Some(k))
    ensures k in s'.rows && s'.rows[k].threadName == "nine" && !ThreadDecides(s.rows, {}, pa)
  {
    k := Thread(CC, "T");
    s := Session(map[k := PidlessRow(CC, "T").(threadName := "tea")], {}, map[], map[]);
    pa := PlainPane(CC, "%9", 9, "T9").(threadName := "nine");
    assert "T" != "T9" by {
      assert |"T"| != |"T9"|;
    }
    assert PidlessMatch(s.rows, {}, pa, k);
    assert MayClaim(s.rows, {}, pa, k);
    s' := ClaimGivesStep(s, {}, pa, env, k);
    assert Foreign(s.rows, pa, k);
    ClaimsKeepThreadIff(s.rows, {}, pa);
    ForeignRowIsRenamed(s, {}, pa, env, s', {k}, k);
  }

  // ----- rows on other panes -----

  /** A pid-less row of the pane's agent that is on another pane and of another thread. */
  predicate ElsewherePidless(rows: Rows, claimed: set<Key>, pa: Presence, k: Key) {
    PidlessMatch(rows, claimed, pa, k) && rows[k].paneId != pa.paneId
    && !(pa.threadId != "" && k == Thread(pa.agent, pa.threadId))
  }

  ghost predicate StaysPut(s: Session, claimed: set<Key>, pa: Presence, env: Env, k: Key)
    requires k in s.rows
  {
    forall s', claimed', kept ::
      PaneStep(s, claimed, pa, env, s', claimed', kept) ==> k in s'.rows && s'.rows[k] == s.rows[k]
  }

  lemma UnclaimedPidlessStays(s: Session, claimed: set<Key>, pa: Presence, env: Env,
                              s': Session, claimed': set<Key>, kept: Option<Key>, k: Key)
    requires PaneStep(s, claimed, pa, env, s', claimed', kept) && exists q :: MayClaim(s.rows, claimed, pa, q)
    requires k in s.rows && s.rows[k].pid == 0 && s.rows[k].paneId != pa.paneId && !MayClaim(s.rows, claimed, pa, k)
    ensures k in s'.rows && s'.rows[k] == s.rows[k]
  {
  }

  /** Such a row, on a pane the same scan may see later, stays on its pane for every map order
      if and only if the pane's thread, process, or own pid-less row decides the claim. */
  lemma BindingStaysIff(s: Session, claimed: set<Key>, pa: Presence, env: Env, k: Key)
    requires ElsewherePidless(s.rows, claimed, pa, k)
    ensures StaysPut(s, claimed, pa, env, k) <==>
            exists q :: ThreadMatch(s.rows, claimed, pa, q) || PidMatch(s.rows, claimed, pa, q)
                        || PidlessBound(s.rows, claimed, pa, q)
  {
    if exists q :: ThreadMatch(s.rows, claimed, pa, q) || PidMatch(s.rows, claimed, pa, q)
                   || PidlessBound(s.rows, claimed, pa, q) {
      SomeClaimElsewhere(s.rows, claimed, pa, k);
      forall s', claimed', kept | PaneStep(s, claimed, pa, env, s', claimed', kept)
        ensures k in s'.rows && s'.rows[k] == s.rows[k]
      {
        UnclaimedPidlessStays(s, claimed, pa, env, s', claimed', kept, k);
      }
    } else {
      assert MayClaim(s.rows, claimed, pa, k);
      var s' := ClaimGivesStep(s, claimed, pa, env, k);
      assert s'.rows[k].paneId == pa.paneId;
    }
  }

  lemma SomeClaimElsewhere(rows: Rows, claimed: set<Key>, pa: Presence, k: Key)
    requires ElsewherePidless(rows, claimed, pa, k)
    requires exists q ::
               ThreadMatch(rows, claimed, pa, q) || PidMatch(rows, claimed, pa, q) || PidlessBound(rows, claimed, pa, q)
    ensures !MayClaim(rows, claimed, pa, k) && exists q :: MayClaim(rows, claimed, pa, q)
  {
    if exists q :: ThreadMatch(rows, claimed, pa, q) {
      var q :| ThreadMatch(rows, claimed, pa, q);
      assert MayClaim(rows, claimed, pa, q);
    } else if exists q :: PidMatch(rows, claimed, pa, q) {
      var q :| PidMatch(rows, claimed, pa, q);
      assert MayClaim(rows, claimed, pa, q);
    } else {
      var q :| PidlessBound(rows, claimed, pa, q);
      assert MayClaim(rows, claimed, pa, q);
    }
  }

  /** For instance: new pane %1 takes the row that is on %2, which the scan sees next. */
  lemma TakenFromAnotherPane(env: Env) returns (s: Session, panes: seq<Presence>, s': Session, k: Key)
    ensures Inv(s, 2) && |panes| == 2 && panes[0].paneId == "%1" && panes[1].paneId == "%2"
    ensures k in s.rows && s.rows[k].liveness.Alive? && s.rows[k].paneId == "%2"
    ensures PaneStep(s, {}, panes[0], env, s', {k}, Some(k)) && k in s'.rows && s'.rows[k].paneId == "%1"
  {
    k := Thread(CC, "T");
    s := Session(map[k := PidlessRow(CC, "T").(paneId := "%2", liveness := Alive)], {}, map[], map[]);
    panes := [PlainPane(CC, "%1", 11, ""), PlainPane(CC, "%2", 22, "")];
    assert "%1"[1] != "%2"[1];
    assert PidlessMatch(s.rows, {}, panes[0], k);
    assert MayClaim(s.rows, {}, panes[0], k);
    s' := ClaimGivesStep(s, {}, panes[0], env, k);
  }
}
