/** Where the random order of the tracker's maps cannot change an outcome. */
module OrderIndependence {
  import opened Wrappers
  import opened AgentModel
  import opened TrackerSpec
  import opened TrackerInvariants

  /** A pane whose thread or process has a claimable row has one possible claim; any other
      claim is of a row without a pid, and all candidates agree on being on the pane. */
  lemma ClaimIsForced(rows: Rows, claimed: set<Key>, pa: Presence, k: Key, q: Key)
    requires OneRowPerProcess(rows)
    requires MayClaim(rows, claimed, pa, k) && MayClaim(rows, claimed, pa, q)
    ensures k == q || (rows[k].pid == 0 && rows[q].pid == 0 &&
                       (rows[k].paneId == pa.paneId <==> rows[q].paneId == pa.paneId))
  {
    if exists p :: ThreadMatch(rows, claimed, pa, p) {
      assert k == q;
    } else if exists p :: PidMatch(rows, claimed, pa, p) {
      assert PidMatch(rows, claimed, pa, k) && PidMatch(rows, claimed, pa, q);
    } else {
      assert PidlessMatch(rows, claimed, pa, k) && PidlessMatch(rows, claimed, pa, q);
      assert PidlessBound(rows, claimed, pa, k) <==> rows[k].paneId == pa.paneId;
      assert PidlessBound(rows, claimed, pa, q) <==> rows[q].paneId == pa.paneId;
    }
  }

  /** At most one row may be claimed. */
  ghost predicate OneClaim(rows: Rows, claimed: set<Key>, pa: Presence) {
    forall k, q :: MayClaim(rows, claimed, pa, k) && MayClaim(rows, claimed, pa, q) ==> k == q
  }

  ghost predicate OneBound(rows: Rows, claimed: set<Key>, pa: Presence) {
    forall k, q :: PidlessBound(rows, claimed, pa, k) && PidlessBound(rows, claimed, pa, q) ==> k == q
  }

  ghost predicate OnePidless(rows: Rows, claimed: set<Key>, pa: Presence) {
    forall k, q :: PidlessMatch(rows, claimed, pa, k) && PidlessMatch(rows, claimed, pa, q) ==> k == q
  }

  /** The pane's thread or process has a claimable row, or exactly one pid-less row is on the
      pane, or none is and there is at most one pid-less row. */
  ghost predicate ClaimDecided(rows: Rows, claimed: set<Key>, pa: Presence) {
    || (exists k :: ThreadMatch(rows, claimed, pa, k))
    || (exists k :: PidMatch(rows, claimed, pa, k))
    || (if exists k :: PidlessBound(rows, claimed, pa, k) then OneBound(rows, claimed, pa)
        else OnePidless(rows, claimed, pa))
  }

  /** What decides a claim: the thread, the process, the pane, or there being no choice. */
  lemma OneClaimIff(rows: Rows, claimed: set<Key>, pa: Presence)
    requires OneRowPerProcess(rows)
    ensures OneClaim(rows, claimed, pa) <==> ClaimDecided(rows, claimed, pa)
  {
    if exists k :: ThreadMatch(rows, claimed, pa, k) {
      assert forall k :: MayClaim(rows, claimed, pa, k) ==> ThreadMatch(rows, claimed, pa, k);
    } else if exists k :: PidMatch(rows, claimed, pa, k) {
      forall k, q | MayClaim(rows, claimed, pa, k) && MayClaim(rows, claimed, pa, q)
        ensures k == q
      {
        ClaimIsForced(rows, claimed, pa, k, q);
        assert PidMatch(rows, claimed, pa, k);
      }
    } else if exists k :: PidlessBound(rows, claimed, pa, k) {
      assert forall k :: MayClaim(rows, claimed, pa, k) <==> PidlessBound(rows, claimed, pa, k);
    } else {
      assert forall k :: MayClaim(rows, claimed, pa, k) <==> PidlessMatch(rows, claimed, pa, k);
    }
  }

  /** The step has one outcome, whatever the map order. */
  ghost predicate PaneStepForced(s: Session, claimed: set<Key>, pa: Presence, env: Env) {
    forall s1, c1, k1, s2, c2, k2 ::
      PaneStep(s, claimed, pa, env, s1, c1, k1) && PaneStep(s, claimed, pa, env, s2, c2, k2) ==>
        s1 == s2 && c1 == c2 && k1 == k2
  }

  lemma ClaimGivesStep(s: Session, claimed: set<Key>, pa: Presence, env: Env, k: Key) returns (s': Session)
    requires MayClaim(s.rows, claimed, pa, k)
    ensures PaneStep(s, claimed, pa, env, s', claimed + {k}, Some(k))
  {
    s' := Bind(s, k, Stamp(s.rows[k], pa, pa.threadName), pa, env.alivePids);
  }

  lemma OneClaimForces(s: Session, claimed: set<Key>, pa: Presence, env: Env,
                       s1: Session, c1: set<Key>, k1: Option<Key>, s2: Session, c2: set<Key>, k2: Option<Key>)
    requires OneClaim(s.rows, claimed, pa)
    requires PaneStep(s, claimed, pa, env, s1, c1, k1) && PaneStep(s, claimed, pa, env, s2, c2, k2)
    ensures s1 == s2 && c1 == c2 && k1 == k2
  {
    if exists k :: MayClaim(s.rows, claimed, pa, k) {
      assert k1.value == k2.value;
    }
  }

  lemma ForcedClaims(s: Session, claimed: set<Key>, pa: Presence, env: Env)
    requires PaneStepForced(s, claimed, pa, env)
    ensures OneClaim(s.rows, claimed, pa)
  {
    forall k, q | MayClaim(s.rows, claimed, pa, k) && MayClaim(s.rows, claimed, pa, q)
      ensures k == q
    {
      var s1 := ClaimGivesStep(s, claimed, pa, env, k);
      var s2 := ClaimGivesStep(s, claimed, pa, env, q);
    }
  }

  /** A pane step has one outcome for every map order if and only if the thread, the process
      or the pane decides the claim, or there is no choice. */
  lemma PaneStepForcedIff(s: Session, claimed: set<Key>, pa: Presence, env: Env)
    requires OneRowPerProcess(s.rows)
    ensures PaneStepForced(s, claimed, pa, env) <==> ClaimDecided(s.rows, claimed, pa)
  {
    OneClaimIff(s.rows, claimed, pa);
    if PaneStepForced(s, claimed, pa, env) {
      ForcedClaims(s, claimed, pa, env);
    }
    if OneClaim(s.rows, claimed, pa) {
      forall s1, c1, k1, s2, c2, k2 |
          PaneStep(s, claimed, pa, env, s1, c1, k1) && PaneStep(s, claimed, pa, env, s2, c2, k2)
        ensures s1 == s2 && c1 == c2 && k1 == k2
      {
        OneClaimForces(s, claimed, pa, env, s1, c1, k1, s2, c2, k2);
      }
    }
  }

  // ----- events -----

  ghost predicate OneGraduate(rows: Rows, key: Key, stored: Row) {
    forall k, q :: MayGraduate(rows, key, stored, k) && MayGraduate(rows, key, stored, q) ==> k == q
  }

  /** The event's process has another row, or at most one synthetic row may graduate. */
  ghost predicate SettleDecided(rows: Rows, key: Key, stored: Row) {
    (exists k :: SameProcess(rows, key, stored, k)) || OneGraduate(rows, key, stored)
  }

  ghost predicate SettleForced(s: Session, rows: Rows, key: Key, stored: Row, inactive: bool) {
    forall s1, s2 ::
      Settles(s, rows, key, stored, inactive, s1) && Settles(s, rows, key, stored, inactive, s2) ==> s1 == s2
  }

  lemma SupersedesIsForced(rows: Rows, key: Key, stored: Row, r1: Row, g1: set<Key>, r2: Row, g2: set<Key>)
    requires Supersedes(rows, key, stored, r1, g1) && Supersedes(rows, key, stored, r2, g2)
    requires forall k, q :: SameProcess(rows, key, stored, k) && SameProcess(rows, key, stored, q) ==> k == q
    requires SettleDecided(rows, key, stored)
    ensures r1 == r2 && g1 == g2
  {
    if exists k :: SameProcess(rows, key, stored, k) {
      assert g1 == g2;
    }
  }

  lemma GraduateGivesOutcome(s: Session, rows: Rows, key: Key, stored: Row, inactive: bool, k: Key)
    returns (s': Session)
    requires rows == s.rows[key := stored] && MayGraduate(rows, key, stored, k)
    requires !exists q :: SameProcess(rows, key, stored, q)
    ensures Settles(s, rows, key, stored, inactive, s')
    ensures s'.rows.Keys == s.rows.Keys - {k} + {key}
  {
    var r := Graduate(stored, rows[k]);
    assert Supersedes(rows, key, stored, r, {k});
    s' := Settle(s, key, r, {k}, inactive);
  }

  lemma SettleForcedIff(s: Session, rows: Rows, key: Key, stored: Row, inactive: bool)
    requires OneRowPerProcess(s.rows) && rows == s.rows[key := stored]
    ensures SettleForced(s, rows, key, stored, inactive) <==> SettleDecided(rows, key, stored)
  {
    if SettleDecided(rows, key, stored) {
      forall s1, s2 | Settles(s, rows, key, stored, inactive, s1) && Settles(s, rows, key, stored, inactive, s2)
        ensures s1 == s2
      {
        SettlesAlike(s, key, stored, inactive, s1, s2);
      }
    } else {
      var k, q :| MayGraduate(rows, key, stored, k) && MayGraduate(rows, key, stored, q) && k != q;
      var s1 := GraduateGivesOutcome(s, rows, key, stored, inactive, k);
      var s2 := GraduateGivesOutcome(s, rows, key, stored, inactive, q);
      assert k in s2.rows.Keys && k !in s1.rows.Keys;
    }
  }

  lemma SettlesAlike(s: Session, key: Key, stored: Row, inactive: bool, s1: Session, s2: Session)
    requires OneRowPerProcess(s.rows) && SettleDecided(s.rows[key := stored], key, stored)
    requires Settles(s, s.rows[key := stored], key, stored, inactive, s1)
    requires Settles(s, s.rows[key := stored], key, stored, inactive, s2)
    ensures s1 == s2
  {
    var rows := s.rows[key := stored];
    forall k, q | SameProcess(rows, key, stored, k) && SameProcess(rows, key, stored, q)
      ensures k == q
    {
      SupersededIsUnique(s, key, stored, k, q);
    }
    var r1, g1 :| Supersedes(rows, key, stored, r1, g1) && s1 == Settle(s, key, r1, g1, inactive);
    var r2, g2 :| Supersedes(rows, key, stored, r2, g2) && s2 == Settle(s, key, r2, g2, inactive);
    SupersedesIsForced(rows, key, stored, r1, g1, r2, g2);
  }

  ghost predicate EventForced(s: Session, ev: Event, seed: bool, active: bool, now: int) {
    forall s1, s2 ::
      EventStep(s, ev, seed, active, now, s1) && EventStep(s, ev, seed, active, now, s2) ==> s1 == s2
  }

  /** A live event settles its row. */
  lemma EventSettles(s: Session, ev: Event, seed: bool, active: bool, now: int, rows: Rows, key: Key,
                     stored: Row, inactive: bool)
    requires inactive == (seed || !active)
    requires !ev.ended && key == InstanceKey(ev.row.agent, ev.row.threadId)
    requires stored == Enrich(Lookup(s.rows, key), ev.row) && rows == s.rows[key := stored]
    ensures EventForced(s, ev, seed, active, now) <==> SettleForced(s, rows, key, stored, inactive)
  {
    if EventForced(s, ev, seed, active, now) {
      forall s1, s2 | Settles(s, rows, key, stored, inactive, s1) && Settles(s, rows, key, stored, inactive, s2)
        ensures s1 == s2
      {
        assert EventStep(s, ev, seed, active, now, s1) && EventStep(s, ev, seed, active, now, s2);
      }
    }
    if SettleForced(s, rows, key, stored, inactive) {
      forall s1, s2 | EventStep(s, ev, seed, active, now, s1) && EventStep(s, ev, seed, active, now, s2)
        ensures s1 == s2
      {
        assert Settles(s, rows, key, stored, inactive, s1) && Settles(s, rows, key, stored, inactive, s2);
      }
    }
  }

  /** An event has one outcome for every map order if and only if it is an end, its process
      has another row, or at most one synthetic row may graduate. */
  lemma EventForcedIff(s: Session, ev: Event, seed: bool, active: bool, now: int)
    requires OneRowPerProcess(s.rows)
    ensures
      var key := InstanceKey(ev.row.agent, ev.row.threadId);
      var stored := Enrich(Lookup(s.rows, key), ev.row);
      EventForced(s, ev, seed, active, now) <==> ev.ended || SettleDecided(s.rows[key := stored], key, stored)
  {
    var key := InstanceKey(ev.row.agent, ev.row.threadId);
    var stored := Enrich(Lookup(s.rows, key), ev.row);
    if !ev.ended {
      var rows := s.rows[key := stored];
      SettleForcedIff(s, rows, key, stored, seed || !active);
      EventSettles(s, ev, seed, active, now, rows, key, stored, seed || !active);
    }
  }
}
