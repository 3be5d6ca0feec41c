/** Two literal scans with several pid-less rows of one agent that cost no pane its row. */
module SafeScans {
  import opened Wrappers
  import opened AgentModel
  import opened TrackerSpec
  import opened TrackerInvariants
  import opened ScanOwnership
  import opened OwnRows
  import opened FallbackPool
  import opened PaneCoverage
  import opened ScanDeterminism
  import opened Fixtures

  // ----- every claim decided -----

  const KEY_1 := Thread(CC, "T1")
  const KEY_2 := Thread(CC, "T2")
  const ROWS := map[KEY_1 := PidlessRow(CC, "T1"), KEY_2 := PidlessRow(CC, "T2").(paneId := "%2", liveness := Alive)]
  const RESOLVED := PlainPane(CC, "%1", 11, "T1")
  const UNKNOWN := PlainPane(CC, "%2", 22, "")

  lemma BothAreSettled(start: Start)
    requires start == Start(ROWS, [RESOLVED, UNKNOWN], {})
    ensures start.Settled(0) && start.Settled(1)
  {
    assert "T1"[1] != "T2"[1] && "%1"[1] != "%2"[1];
    assert start.OwnThread(0);
    assert start.Spares(0, KEY_2);
    assert PidlessBound(ROWS, {}, UNKNOWN, KEY_2) && start.Free(KEY_2, 1) && start.OnlyBound(1, KEY_2);
  }

  lemma NoneMisses(s: Session)
    requires s == Session(ROWS, {}, map[], map[])
    ensures AfterMisses(s, [RESOLVED, UNKNOWN], {}, 2).rows == ROWS
    ensures SparesDecide(ROWS, [RESOLVED, UNKNOWN]) && !WillDetach(s, [RESOLVED, UNKNOWN], 2)
  {
    assert [RESOLVED, UNKNOWN][1].paneId in ActivePanes([RESOLVED, UNKNOWN]);
    assert MissingKeys(ROWS, ActivePanes([RESOLVED, UNKNOWN])) == {};
    assert forall agent :: OfAgent(ROWS, {}, agent) == {};
    assert KEY_1 in ROWS && !Synthetic(KEY_1);
  }

  lemma TwoPanesAreDistinct(s: Session, panes: seq<Presence>)
    requires s == Session(ROWS, {}, map[], map[]) && panes == [RESOLVED, UNKNOWN]
    ensures Inv(s, 2) && DistinctPanes(panes) && DistinctThreads(panes)
    ensures NoCrossedPids(ROWS, panes) && !ClaimableThread(ROWS, panes[1])
    ensures !OnePidlessOf(ROWS, CC)
  {
    assert KEY_1 in ROWS && "T1"[1] != "T2"[1] && "%1"[1] != "%2"[1];
    assert CanFallBack(ROWS, KEY_1) && CanFallBack(ROWS, KEY_2);
  }

  /** For instance: one agent's pid-less rows of two threads, with a pane that resolves the
      first thread and a pane of unknown thread that the second row is on. */
  lemma TwoPidlessRowsAreDecided() returns (s: Session, panes: seq<Presence>, env: Env)
    ensures Inv(s, 2) && DistinctPanes(panes) && DistinctThreads(panes) && !WillDetach(s, panes, 2)
    ensures SparesDecide(s.rows, panes) && ClaimsDecide(s, panes, env, 2)
    ensures NoCrossedRows(SureStart(s, panes, env, 2), s.rows)
    ensures |panes| == 2 && !OnePidlessOf(s.rows, panes[0].agent) && !OnePidlessOf(s.rows, panes[1].agent)
  {
    s, panes, env := Session(ROWS, {}, map[], map[]), [RESOLVED, UNKNOWN], Env(0, {});
    NoneMisses(s);
    TwoPanesAreDistinct(s, panes);
    BothAreSettled(SureStart(s, panes, env, 2));
  }

  // ----- a claim open, and a row to spare -----

  const BOUND_KEY := Thread(CC, "T0")
  const POOL_ROWS := map[
    BOUND_KEY := PidlessRow(CC, "T0").(paneId := "%1", liveness := Alive),
    KEY_1 := PidlessRow(CC, "T1"),
    KEY_2 := PidlessRow(CC, "T2")]
  const POOL_ENV := Env(0, {11, 22, 33})

  /** The pane the first row is on, of unknown thread or of that row's, a pane of unknown
      thread, and the pane of the third row's thread. */
  function PoolPanes(thread: string): seq<Presence> {
    [PlainPane(CC, "%1", 11, thread), PlainPane(CC, "%2", 22, ""), PlainPane(CC, "%3", 33, "T2")]
  }

  function PoolStart(thread: string): Start {
    Start(POOL_ROWS, PoolPanes(thread), POOL_ENV.alivePids)
  }

  lemma PoolOfTwo(thread: string)
    requires thread == "" || thread == "T0"
    ensures Pool(PoolStart(thread), 2) == {KEY_1, KEY_2}
  {
    var start := PoolStart(thread);
    assert "T0"[1] != "T2"[1] && "%1"[1] != "%2"[1];
    assert start.panes[0] == PlainPane(CC, "%1", 11, thread) && start.panes[2] == PlainPane(CC, "%3", 33, "T2");
    assert OnScannedPane(start, POOL_ROWS[BOUND_KEY], 2);
    forall q
      ensures q in Pool(start, 2) <==> q in {KEY_1, KEY_2}
    {
    }
  }

  lemma FirstTakesItsOwn(thread: string)
    requires thread == "" || thread == "T0"
    ensures !MayTake(PoolStart(thread), {KEY_1, KEY_2}, Fallbacks(PoolStart(thread), CC), 0)
  {
    var start := PoolStart(thread);
    assert "T0"[1] != "T1"[1] && "T0"[1] != "T2"[1];
    assert start.panes[0] == PlainPane(CC, "%1", 11, thread);
    assert BOUND_KEY in Fallbacks(start, CC);
    assert HomeRow(start, 0, BOUND_KEY);
  }

  /** The first pane takes the row on it, so of the other two rows just one is taken. */
  lemma OneTaker(thread: string)
    requires thread == "" || thread == "T0"
    ensures |Pool(PoolStart(thread), 2)| > Takers(PoolStart(thread), 2)
  {
    var start, pool := PoolStart(thread), {KEY_1, KEY_2};
    PoolOfTwo(thread);
    FirstTakesItsOwn(thread);
    assert start.panes[2].agent == CC;
    assert Room(start, CC, pool, Fallbacks(start, CC), 0, 1) == 0;
    assert Room(start, CC, pool, Fallbacks(start, CC), 0, 2) <= 1;
    assert "T1"[1] != "T2"[1];
  }

  lemma NoPoolMisses(s: Session, panes: seq<Presence>)
    requires s == Session(POOL_ROWS, {}, map[], map[]) && "%1" in ActivePanes(panes)
    ensures AfterMisses(s, panes, {}, 2).rows == POOL_ROWS && !WillDetach(s, panes, 2)
  {
    assert MissingKeys(POOL_ROWS, ActivePanes(panes)) == {};
    assert KEY_1 in POOL_ROWS && !Synthetic(KEY_1);
  }

  lemma PoolPanesAreDistinct(thread: string)
    requires thread == "" || thread == "T0"
    ensures DistinctPanes(PoolPanes(thread)) && DistinctThreads(PoolPanes(thread))
  {
    assert "T0"[1] != "T2"[1] && "%1"[1] != "%2"[1] && "%1"[1] != "%3"[1] && "%2"[1] != "%3"[1];
  }

  lemma PoolScanIsPlain(s: Session, panes: seq<Presence>, thread: string)
    requires thread == "" || thread == "T0"
    requires s == Session(POOL_ROWS, {}, map[], map[]) && panes == PoolPanes(thread)
    ensures PlainScan(s, panes, POOL_ENV)
    ensures NoCrossedPids(POOL_ROWS, panes) && !ClaimableThread(POOL_ROWS, panes[1])
  {
  }

  lemma PoolInv(s: Session)
    requires s == Session(POOL_ROWS, {}, map[], map[])
    ensures Inv(s, 2)
  {
  }

  lemma SecondPaneIsOpen(thread: string)
    ensures !Decided(PoolStart(thread), 1)
  {
    var start := PoolStart(thread);
    assert start.panes[1] == PlainPane(CC, "%2", 22, "");
    assert "T1"[1] != "T2"[1] && "%1"[1] != "%2"[1];
    assert CanFallBack(POOL_ROWS, KEY_1) && CanFallBack(POOL_ROWS, KEY_2);
    assert forall q :: !PidlessBound(POOL_ROWS, {}, start.panes[1], q);
  }

  /** The second pane takes either of two rows, and either way one is left for the third: the
      scan meets the premises of pane coverage though no order decides the claim. */
  lemma SpareRowKeepsEveryPane(thread: string) returns (s: Session, panes: seq<Presence>, env: Env)
    requires thread == "" || thread == "T0"
    ensures Inv(s, 2) && DistinctPanes(panes) && DistinctThreads(panes) && !WillDetach(s, panes, 2)
    ensures PlainScan(s, panes, env) && NoCrossedRows(SureStart(s, panes, env, 2), s.rows)
    ensures |panes| == 3 && panes[0].threadId == thread && !Decided(StartOf(s, panes, env), 1)
  {
    s, panes, env := Session(POOL_ROWS, {}, map[], map[]), PoolPanes(thread), POOL_ENV;
    assert panes[0].paneId in ActivePanes(panes);
    NoPoolMisses(s, panes);
    PoolPanesAreDistinct(thread);
    PoolInv(s);
    PoolScanIsPlain(s, panes, thread);
    SecondPaneIsOpen(thread);
    OneTaker(thread);
    assert SureStart(s, panes, env, 2) == PoolStart(thread);
  }
}
