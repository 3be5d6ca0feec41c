/** The process-tree walks. Parent links come from a snapshot that may be stale: they may
    form cycles, and still each walk ends at the nearest hit or finds that there is none. */
module ProcWalk {
  import opened Wrappers

  datatype ProcInfo = ProcInfo(ppid: int, command: string)

  type Snapshot = map<int, ProcInfo>

  /** The next process up the chain; init, the kernel, and a process that is its own parent
      end it. */
  function Parent(snapshot: Snapshot, pid: int): (r: Option<int>)
    ensures r.Some? ==> pid in snapshot && r.value > 1
  {
    if pid !in snapshot then None
    else
      var up := snapshot[pid].ppid;
      if up == pid || up <= 1 then None else Some(up)
  }

  /** The n-th ancestor, the process itself being the 0th. */
  function Ancestor(snapshot: Snapshot, pid: int, n: nat): Option<int> {
    if n == 0 then if pid > 1 then Some(pid) else None
    else
      var below := Ancestor(snapshot, pid, n - 1);
      if below.None? then None else Parent(snapshot, below.value)
  }

  /** One process comes after another in a chain when it is the parent the snapshot names, not
      the process itself, and neither init nor the kernel. */
  predicate IsLink(snapshot: Snapshot, child: int, parent: int) {
    child in snapshot && snapshot[child].ppid == parent && parent != child && parent > 1
  }

  /** The ancestors of a process are what its chain of links shows, and end where it does. */
  lemma {:induction false} AncestorsAreLinked(snapshot: Snapshot, chain: seq<int>, n: nat)
    requires 0 < |chain| && chain[0] > 1 && n < |chain|
    requires forall i :: 0 <= i < |chain| - 1 ==> IsLink(snapshot, chain[i], chain[i + 1])
    ensures Ancestor(snapshot, chain[0], n) == Some(chain[n])
    ensures (forall up :: !IsLink(snapshot, chain[n], up)) <==> Ancestor(snapshot, chain[0], n + 1).None?
  {
    if n > 0 {
      AncestorsAreLinked(snapshot, chain, n - 1);
      assert IsLink(snapshot, chain[n - 1], chain[n - 1 + 1]);
    }
    if up :| IsLink(snapshot, chain[n], up) {
      assert Parent(snapshot, chain[n]) == Some(up);
    } else if Parent(snapshot, chain[n]).Some? {
      assert IsLink(snapshot, chain[n], Parent(snapshot, chain[n]).value);
    }
  }

  /** The n-th ancestor is a hit, and no nearer one is. */
  ghost predicate IsNearest(snapshot: Snapshot, pid: int, hits: set<int>, n: nat) {
    && Ancestor(snapshot, pid, n).Some? && Ancestor(snapshot, pid, n).value in hits
    && forall m :: 0 <= m < n && Ancestor(snapshot, pid, m).Some? ==> Ancestor(snapshot, pid, m).value !in hits
  }

  ghost predicate NoHit(snapshot: Snapshot, pid: int, hits: set<int>) {
    forall n: nat :: Ancestor(snapshot, pid, n).Some? ==> Ancestor(snapshot, pid, n).value !in hits
  }

  /** The processes a walk has passed: the chain so far, without a hit or a repetition. */
  ghost predicate Passed(snapshot: Snapshot, pid: int, hits: set<int>, path: seq<int>) {
    && (forall i :: 0 <= i < |path| ==> Ancestor(snapshot, pid, i) == Some(path[i]))
    && (forall i :: 0 <= i < |path| ==> path[i] !in hits && path[i] in snapshot)
  }

  lemma {:induction false} NoneStaysNone(snapshot: Snapshot, pid: int, m: nat, n: nat)
    requires m <= n && Ancestor(snapshot, pid, m).None?
    ensures Ancestor(snapshot, pid, n).None?
    decreases n
  {
    if m < n {
      NoneStaysNone(snapshot, pid, m, n - 1);
    }
  }

  /** A chain that ended has shown all its processes. */
  lemma EndedChain(snapshot: Snapshot, pid: int, hits: set<int>, path: seq<int>)
    requires Passed(snapshot, pid, hits, path) && Ancestor(snapshot, pid, |path|).None?
    ensures NoHit(snapshot, pid, hits)
  {
    forall n: nat | Ancestor(snapshot, pid, n).Some?
      ensures Ancestor(snapshot, pid, n).value !in hits
    {
      if n >= |path| {
        NoneStaysNone(snapshot, pid, |path|, n);
        assert false;
      }
      assert Ancestor(snapshot, pid, n) == Some(path[n]);
    }
  }

  /** Behind a repetition the chain only shows processes it has shown. */
  lemma {:induction false} CycleRepeats(snapshot: Snapshot, pid: int, hits: set<int>, path: seq<int>, n: nat)
    requires Passed(snapshot, pid, hits, path)
    requires Ancestor(snapshot, pid, |path|).Some? && Ancestor(snapshot, pid, |path|).value in path
    ensures Ancestor(snapshot, pid, n).Some? && Ancestor(snapshot, pid, n).value in path
    decreases n
  {
    if n < |path| {
      assert Ancestor(snapshot, pid, n) == Some(path[n]);
    } else if n > |path| {
      CycleRepeats(snapshot, pid, hits, path, n - 1);
      var i :| 0 <= i < |path| && path[i] == Ancestor(snapshot, pid, n - 1).value;
      assert Ancestor(snapshot, pid, i) == Some(path[i]);
      assert Ancestor(snapshot, pid, i + 1) == Parent(snapshot, path[i]);
      if i + 1 < |path| {
        assert Ancestor(snapshot, pid, i + 1) == Some(path[i + 1]);
      }
    }
  }

  lemma CyclicChain(snapshot: Snapshot, pid: int, hits: set<int>, path: seq<int>)
    requires Passed(snapshot, pid, hits, path)
    requires Ancestor(snapshot, pid, |path|).Some? && Ancestor(snapshot, pid, |path|).value in path
    ensures NoHit(snapshot, pid, hits)
  {
    forall n: nat | Ancestor(snapshot, pid, n).Some?
      ensures Ancestor(snapshot, pid, n).value !in hits
    {
      CycleRepeats(snapshot, pid, hits, path, n);
    }
  }

  /** The session of the nearest process, the target included, that is a pane's shell; ""
      when the chain ends or repeats without one. */
  method ResolveSessionByPid(target: int, panePids: map<int, string>, snapshot: Snapshot) returns (session: string)
    ensures NoHit(snapshot, target, panePids.Keys) ==> session == ""
    ensures forall n: nat :: IsNearest(snapshot, target, panePids.Keys, n) ==>
        session == panePids[Ancestor(snapshot, target, n).value]
    ensures NoHit(snapshot, target, panePids.Keys) || exists n: nat :: IsNearest(snapshot, target, panePids.Keys, n)
  {
    ghost var hits := panePids.Keys;
    ghost var path: seq<int> := [];
    if target <= 1 {
      EndedChain(snapshot, target, hits, path);
      return "";
    }
    var seen: set<int> := {};
    var current := target;
    while current > 1 && current !in seen
      invariant Ancestor(snapshot, target, |path|) == Some(current)
      invariant Passed(snapshot, target, hits, path)
      invariant seen <= snapshot.Keys && forall p :: p in seen <==> p in path
      decreases snapshot.Keys - seen
    {
      if current in panePids {
        NearestIsUnique(snapshot, target, hits, |path|);
        return panePids[current];
      }
      if current !in snapshot {
        assert Ancestor(snapshot, target, |path| + 1).None?;
        NotPastTheEnd(snapshot, target, hits, path, current);
        return "";
      }
      var info := snapshot[current];
      seen := seen + {current};
      ghost var grown := path + [current];
      assert Passed(snapshot, target, hits, grown);
      path := grown;
      assert Ancestor(snapshot, target, |path|) == Parent(snapshot, current);
      if info.ppid == current || info.ppid <= 1 {
        EndedChain(snapshot, target, hits, path);
        return "";
      }
      current := info.ppid;
    }
    CyclicChain(snapshot, target, hits, path);
    return "";
  }

  lemma NearestIsUnique(snapshot: Snapshot, pid: int, hits: set<int>, n: nat)
    requires IsNearest(snapshot, pid, hits, n)
    ensures forall m: nat :: IsNearest(snapshot, pid, hits, m) ==> m == n
    ensures !NoHit(snapshot, pid, hits)
  {
  }

  /** A process missing from the snapshot ends the chain. */
  lemma NotPastTheEnd(snapshot: Snapshot, pid: int, hits: set<int>, path: seq<int>, last: int)
    requires Passed(snapshot, pid, hits, path) && Ancestor(snapshot, pid, |path|) == Some(last)
    requires last !in hits && last !in snapshot
    ensures NoHit(snapshot, pid, hits)
  {
    forall n: nat | Ancestor(snapshot, pid, n).Some?
      ensures Ancestor(snapshot, pid, n).value !in hits
    {
      if n > |path| {
        assert Ancestor(snapshot, pid, |path| + 1).None?;
        NoneStaysNone(snapshot, pid, |path| + 1, n);
        assert false;
      } else if n < |path| {
        assert Ancestor(snapshot, pid, n) == Some(path[n]);
      }
    }
  }

  /** The processes whose command names the agent. */
  ghost function Matching(snapshot: Snapshot, pattern: string -> bool): set<int> {
    set p | p in snapshot && pattern(snapshot[p].command)
  }

  /** The nearest process, the reported one included, whose command matches; the reported
      pid when the chain ends or repeats without one. */
  method ResolveAgentSessionPid(reported: int, pattern: string -> bool, snapshot: Snapshot) returns (pid: int)
    ensures NoHit(snapshot, reported, Matching(snapshot, pattern)) ==> pid == reported
    ensures forall n: nat :: IsNearest(snapshot, reported, Matching(snapshot, pattern), n) ==>
              pid == Ancestor(snapshot, reported, n).value
    ensures NoHit(snapshot, reported, Matching(snapshot, pattern)) ||
            exists n: nat :: IsNearest(snapshot, reported, Matching(snapshot, pattern), n)
  {
    ghost var hits := Matching(snapshot, pattern);
    ghost var path: seq<int> := [];
    if reported <= 1 {
      EndedChain(snapshot, reported, hits, path);
      return reported;
    }
    var seen: set<int> := {};
    var current := reported;
    while current > 1 && current !in seen
      invariant Ancestor(snapshot, reported, |path|) == Some(current)
      invariant Passed(snapshot, reported, hits, path)
      invariant seen <= snapshot.Keys && forall p :: p in seen <==> p in path
      decreases snapshot.Keys - seen
    {
      if current !in snapshot {
        NotPastTheEnd(snapshot, reported, hits, path, current);
        return reported;
      }
      var info := snapshot[current];
      if pattern(info.command) {
        NearestIsUnique(snapshot, reported, hits, |path|);
        return current;
      }
      seen := seen + {current};
      ghost var grown := path + [current];
      assert Passed(snapshot, reported, hits, grown);
      path := grown;
      assert Ancestor(snapshot, reported, |path|) == Parent(snapshot, current);
      if info.ppid == current || info.ppid <= 1 {
        EndedChain(snapshot, reported, hits, path);
        return reported;
      }
      current := info.ppid;
    }
    CyclicChain(snapshot, reported, hits, path);
    return reported;
  }
}
