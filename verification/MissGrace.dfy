/** The grace a row gets before a scan that misses it may retire it, counted over whole
    runs without the tracker's own counters. */
module MissGrace {
  import opened Wrappers
  import opened AgentModel
  import opened TrackerSpec
  import opened TrackerInvariants

  /** The scan sees row k's pane gone and no spare pane excuses it. */
  ghost predicate Missed(s: Session, panes: seq<Presence>, tr: ScanTrace, k: Key) {
    IsMissing(s.rows, ActivePanes(panes), k) && k !in tr.excused
  }

  /** How many scans have missed row k since it was last absent, excused by a spare pane,
      or claimed or minted by a scan. */
  ghost function MissedSince(states: seq<Session>, steps: seq<Step>, n: nat, k: Key): nat
    requires |states| == |steps| + 1 && n < |states|
  {
    if n == 0 || k !in states[n].rows then 0
    else match steps[n - 1]
      case Scan(panes, env, tr) =>
        if Some(k) in tr.kept || k in tr.excused then 0
        else if Missed(states[n - 1], panes, tr, k) then 1 + MissedSince(states, steps, n - 1, k)
        else MissedSince(states, steps, n - 1, k)
      case _ => MissedSince(states, steps, n - 1, k)
  }

  /** Step 1 changes exactly the due rows: it deletes the synthetic ones and exits and
      unbinds the others. */
  lemma StepOneRetiresExactlyDue(s: Session, panes: seq<Presence>, excused: set<Key>, threshold: int, k: Key)
    requires k in s.rows
    ensures
      var rows' := AfterMisses(s, panes, excused, threshold).rows;
      var due := Due(s, MissingKeys(s.rows, ActivePanes(panes)) - excused, threshold);
      && (k in due && Synthetic(k) <==> k !in rows')
      && (k in due && !Synthetic(k) <==> k in rows' && rows'[k] != s.rows[k])
  {
    var rows' := AfterMisses(s, panes, excused, threshold).rows;
    if k in rows' && k in Due(s, MissingKeys(s.rows, ActivePanes(panes)) - excused, threshold) {
      assert rows'[k].liveness.Exited? && s.rows[k].liveness.Alive?;
    }
  }

  lemma PaneStepMisses(s: Session, claimed: set<Key>, pa: Presence, env: Env,
                       s': Session, claimed': set<Key>, kept: Option<Key>)
    requires PaneStep(s, claimed, pa, env, s', claimed', kept)
    ensures forall k :: k in s'.misses ==> k in s.misses && s'.misses[k] == s.misses[k] && kept != Some(k)
  {
  }

  lemma {:induction false} PanesMisses(panes: seq<Presence>, env: Env, tr: ScanTrace, n: nat)
    requires PanesTraced(panes, env, tr) && n <= |panes|
    ensures forall k :: k in tr.states[n].misses ==>
              && k in tr.states[0].misses && tr.states[n].misses[k] == tr.states[0].misses[k]
              && Some(k) !in tr.kept[..n]
  {
    if n > 0 {
      PanesMisses(panes, env, tr, n - 1);
      PaneStepMisses(tr.states[n - 1], tr.claims[n - 1], panes[n - 1], env, tr.states[n], tr.claims[n], tr.kept[n - 1]);
      assert tr.kept[..n] == tr.kept[..n - 1] + [tr.kept[n - 1]];
    }
  }

  /** A scan's effect on one counter. */
  lemma ScanMisses(s: Session, panes: seq<Presence>, env: Env, threshold: int, tr: ScanTrace, s': Session, k: Key)
    requires Inv(s, threshold) && ScanStep(s, panes, env, threshold, tr, s') && k in s'.misses
    ensures Some(k) !in tr.kept && k !in tr.excused
    ensures s'.misses[k] == MissCount(s, k) + if Missed(s, panes, tr, k) then 1 else 0
  {
    var s1 := AfterMisses(s, panes, tr.excused, threshold);
    if Detached(s, s1) {
      ScanKeepsInv(s, panes, env, threshold, tr, s');
    } else {
      PanesMisses(panes, env, tr, |panes|);
      assert tr.kept[..|panes|] == tr.kept;
    }
  }

  lemma QuietMisses(s: Session, step: Step, threshold: int, s': Session, k: Key)
    requires Next(s, step, threshold, s') && !step.Scan? && k in s'.misses
    ensures k in s.misses && s'.misses[k] == s.misses[k]
  {
  }

  /** One step keeps a counter within the scans that really missed the row. */
  lemma CounterStep(states: seq<Session>, steps: seq<Step>, threshold: int, n: nat, k: Key)
    requires |states| == |steps| + 1 && 0 < n < |states|
    requires Next(states[n - 1], steps[n - 1], threshold, states[n]) && Inv(states[n - 1], threshold)
    requires k in states[n].misses && k in states[n].rows
    requires MissCount(states[n - 1], k) <= MissedSince(states, steps, n - 1, k)
    ensures MissCount(states[n], k) <= MissedSince(states, steps, n, k)
  {
    var s, step, s' := states[n - 1], steps[n - 1], states[n];
    match step
    case Scan(panes, env, tr) => ScanMisses(s, panes, env, threshold, tr, s', k);
    case _ => QuietMisses(s, step, threshold, s', k);
  }

  /** A counter never exceeds the number of scans that really missed the row. */
  lemma {:induction false} CounterIsEarned(states: seq<Session>, steps: seq<Step>, threshold: int, n: nat, k: Key)
    requires IsRun(states, steps, threshold) && n < |states|
    ensures MissCount(states[n], k) <= MissedSince(states, steps, n, k)
  {
    if n > 0 {
      CounterIsEarned(states, steps, threshold, n - 1, k);
      OneRowPerProcessAlways(states, steps, threshold, n - 1);
      assert Next(states[n - 1], steps[n - 1], threshold, states[n - 1 + 1]);
      NextKeepsInv(states[n - 1], steps[n - 1], threshold, states[n]);
      if k in states[n].misses {
        CounterStep(states, steps, threshold, n, k);
      }
    }
  }

  /** In every run, step 1 of a scan retires a row only when that scan and the ones before
      it since the row was last absent, excused, claimed or minted missed it at least
      threshold times. */
  lemma RetiredOnlyAfterGrace(states: seq<Session>, steps: seq<Step>, threshold: int, n: nat, k: Key)
    requires IsRun(states, steps, threshold) && n < |steps| && steps[n].Scan?
    requires k in states[n].rows
    requires
      var rows' := AfterMisses(states[n], steps[n].panes, steps[n].tr.excused, threshold).rows;
      k !in rows' || rows'[k] != states[n].rows[k]
    ensures Missed(states[n], steps[n].panes, steps[n].tr, k)
    ensures MissedSince(states, steps, n, k) + 1 >= threshold
  {
    StepOneRetiresExactlyDue(states[n], steps[n].panes, steps[n].tr.excused, threshold, k);
    CounterIsEarned(states, steps, threshold, n, k);
  }
}
