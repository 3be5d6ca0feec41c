/** Another map order from some turn on: a scan goes on to its end from whatever happened so
    far, so at its turn a pane may as well claim any row it may claim. */
module Reordering {
  import opened Wrappers
  import opened AgentModel
  import opened TrackerSpec
  import opened TrackerInvariants
  import opened ScanOwnership
  import opened OwnRows

  /** The first steps of a trace. */
  ghost predicate Partial(panes: seq<Presence>, env: Env, states: seq<Session>, claims: seq<set<Key>>,
                          kept: seq<Option<Key>>) {
    && |kept| <= |panes| && |states| == |claims| == |kept| + 1 && claims[0] == {}
    && forall i :: 0 <= i < |kept| ==>
         PaneStep(states[i], claims[i], panes[i], env, states[i + 1], claims[i + 1], kept[i])
  }

  lemma StepExists(s: Session, claimed: set<Key>, pa: Presence, env: Env)
    returns (s': Session, claimed': set<Key>, kept: Option<Key>)
    ensures PaneStep(s, claimed, pa, env, s', claimed', kept)
  {
    if k :| MayClaim(s.rows, claimed, pa, k) {
      s', claimed', kept := Bind(s, k, Stamp(s.rows[k], pa, pa.threadName), pa, env.alivePids), claimed + {k}, Some(k);
    } else if Suppressed(s, pa, env.now) {
      s', claimed', kept := s, claimed, None;
    } else {
      kept := Some(MintKey(s.rows, pa));
      s', claimed' := Bind(Expire(s, pa), kept.value, MintedRow(s.rows, pa, env.now), pa, env.alivePids), claimed;
    }
  }

  lemma OneMoreStep(panes: seq<Presence>, env: Env, states: seq<Session>, claims: seq<set<Key>>,
                    kept: seq<Option<Key>>, s': Session, claimed': set<Key>, k: Option<Key>)
    requires Partial(panes, env, states, claims, kept) && |kept| < |panes|
    requires PaneStep(states[|kept|], claims[|kept|], panes[|kept|], env, s', claimed', k)
    ensures Partial(panes, env, states + [s'], claims + [claimed'], kept + [k])
  {
  }

  /** Whatever happened so far, the scan goes on to its end. */
  lemma {:induction false} Complete(panes: seq<Presence>, env: Env, excused: set<Key>, states: seq<Session>,
                                    claims: seq<set<Key>>, kept: seq<Option<Key>>) returns (tr: ScanTrace)
    requires Partial(panes, env, states, claims, kept)
    ensures PanesTraced(panes, env, tr) && tr.excused == excused
    ensures tr.states[..|states|] == states && tr.claims[..|claims|] == claims && tr.kept[..|kept|] == kept
    decreases |panes| - |kept|
  {
    if |kept| == |panes| {
      tr := ScanTrace(excused, states, claims, kept);
    } else {
      var s', claimed', k := StepExists(states[|kept|], claims[|kept|], panes[|kept|], env);
      OneMoreStep(panes, env, states, claims, kept, s', claimed', k);
      tr := Complete(panes, env, excused, states + [s'], claims + [claimed'], kept + [k]);
      assert tr.states[..|states|] == tr.states[..|states| + 1][..|states|];
      assert tr.claims[..|claims|] == tr.claims[..|claims| + 1][..|claims|];
      assert tr.kept[..|kept|] == tr.kept[..|kept| + 1][..|kept|];
    }
  }

  /** A trace of step 2 in which no pane's end is suppressed and panes have their own threads. */
  ghost predicate Calm(start: Start, env: Env, tr: ScanTrace) {
    && Traced(start, env, tr) && DistinctThreads(start.panes) && (exists threshold :: Inv(tr.states[0], threshold))
    && forall i :: 0 <= i < |start.panes| ==> !Suppressed(tr.states[0], start.panes[i], env.now)
  }

  lemma CalmKeeps(start: Start, env: Env, tr: ScanTrace, h: nat)
    requires Calm(start, env, tr) && h < |start.panes|
    ensures tr.kept[h].Some?
  {
    UnsuppressedIsKept(tr.states[0], start.panes, env, tr, h);
  }

  /** Two traces with the same choices before turn h. */
  ghost predicate SameUntil(a: ScanTrace, b: ScanTrace, h: nat)
    requires h < |a.states| && h < |b.states| && h < |a.claims| && h < |b.claims|
  {
    a.excused == b.excused && a.states[0] == b.states[0] && a.states[h] == b.states[h] && a.claims[h] == b.claims[h]
  }

  /** At its turn a pane may as well claim any row it may claim. */
  lemma Rechoose(start: Start, env: Env, tr: ScanTrace, h: nat, x: Key) returns (tr': ScanTrace)
    requires Calm(start, env, tr) && h < |start.panes|
    requires MayClaim(tr.states[h].rows, tr.claims[h], start.panes[h], x)
    ensures Calm(start, env, tr') && SameUntil(tr, tr', h) && tr'.kept[h] == Some(x)
  {
    var s, claimed, pa := tr.states[h], tr.claims[h], start.panes[h];
    var s' := Bind(s, x, Stamp(s.rows[x], pa, pa.threadName), pa, env.alivePids);
    OneMoreStep(start.panes, env, tr.states[..h + 1], tr.claims[..h + 1], tr.kept[..h], s', claimed + {x}, Some(x));
    tr' := Complete(start.panes, env, tr.excused, tr.states[..h + 1] + [s'], tr.claims[..h + 1] + [claimed + {x}],
                    tr.kept[..h] + [Some(x)]);
    AgreesAt(start, tr, tr', h, s', claimed + {x}, Some(x));
    var threshold :| Inv(tr.states[0], threshold);
    TracedIsWalk(start.panes, env, tr', threshold);
  }

  lemma AgreesAt(start: Start, tr: ScanTrace, tr': ScanTrace, h: nat, s': Session, claimed': set<Key>, k: Option<Key>)
    requires |tr.kept| == |tr'.kept| == |start.panes| && |tr.states| == |tr'.states| == |start.panes| + 1
    requires |tr.claims| == |tr'.claims| == |start.panes| + 1 && h < |start.panes| && tr.excused == tr'.excused
    requires tr'.states[..h + 2] == tr.states[..h + 1] + [s'] && tr'.claims[..h + 2] == tr.claims[..h + 1] + [claimed']
    requires tr'.kept[..h + 1] == tr.kept[..h] + [k]
    ensures SameUntil(tr, tr', h) && tr'.kept[h] == k
  {
    assert tr'.states[h] == tr'.states[..h + 2][h] && tr'.states[0] == tr'.states[..h + 2][0];
    assert tr'.claims[h] == tr'.claims[..h + 2][h];
    assert tr'.kept[h] == tr'.kept[..h + 1][h];
  }
}
