/** Rows, panes and traces of which the literal scans are made. */
module Fixtures {
  import opened Wrappers
  import opened AgentModel
  import opened TrackerSpec

  const CC := "claude-code"

  function PidlessRow(agent: string, thread: string): Row {
    Row(agent, thread, "", Running, 1, 1, "", None, None, Unset, 0, "", "", "", "")
  }

  function PlainPane(agent: string, pane: string, pid: int, thread: string): Presence {
    Presence(agent, pane, pid, None, None, "", thread, "")
  }

  /** Two pane steps, the second from where the first ends, are a trace. */
  lemma TwoStepsAreTraced(pa: Presence, pb: Presence, env: Env, s0: Session, s1: Session, s2: Session,
                          c1: set<Key>, c2: set<Key>, k1: Option<Key>, k2: Option<Key>) returns (tr: ScanTrace)
    requires PaneStep(s0, {}, pa, env, s1, c1, k1) && PaneStep(s1, c1, pb, env, s2, c2, k2)
    ensures PanesTraced([pa, pb], env, tr)
    ensures tr == ScanTrace({}, [s0, s1, s2], [{}, c1, c2], [k1, k2])
  {
    var panes, states, claims, kept := [pa, pb], [s0, s1, s2], [{}, c1, c2], [k1, k2];
    tr := ScanTrace({}, states, claims, kept);
    StepsAtIndices(panes, env, states, claims, kept);
  }

  lemma StepsAtIndices(panes: seq<Presence>, env: Env, states: seq<Session>, claims: seq<set<Key>>,
                       kept: seq<Option<Key>>)
    requires |panes| == |kept| == 2 && |states| == |claims| == 3
    requires PaneStep(states[0], claims[0], panes[0], env, states[1], claims[1], kept[0])
    requires PaneStep(states[1], claims[1], panes[1], env, states[2], claims[2], kept[1])
    ensures forall i :: 0 <= i < 2 ==>
              PaneStep(states[i], claims[i], panes[i], env, states[i + 1], claims[i + 1], kept[i])
  {
    forall i | 0 <= i < 2
      ensures PaneStep(states[i], claims[i], panes[i], env, states[i + 1], claims[i + 1], kept[i])
    {
      if i == 1 {
        assert i + 1 == 2;
      }
    }
  }
}
