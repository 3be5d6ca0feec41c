/** The data the agent tracker works on: instance keys, agent rows, watcher events and
    pane-scan presences. A string field that is unset is "", a pid or a first-seen time
    that is unset is 0, and a pane or window index that is unset is None. */
module AgentModel {
  import opened Wrappers

  datatype Status = Idle | Running | Done | Error | Waiting | Interrupted

  /** Unset is the liveness of a row no scan has described yet. */
  datatype Liveness = Unset | Alive | Exited | Unknown

  predicate IsTerminal(status: Status) {
    status.Done? || status.Error? || status.Interrupted?
  }

  /** The statuses that make a row of an inactive session unseen. */
  predicate NeedsAttention(status: Status) {
    IsTerminal(status) || status.Waiting?
  }

  /** Thread and Bare are the two forms of the watcher key, Pane is the synthetic key a
      pane scan mints. */
  datatype Key =
    | Bare(agent: string)
    | Thread(agent: string, thread: string)
    | Pane(agent: string, pane: string)

  function InstanceKey(agent: string, threadId: string): Key {
    if threadId != "" then Thread(agent, threadId) else Bare(agent)
  }

  predicate Synthetic(k: Key) {
    k.Pane?
  }

  datatype Row = Row(
    agent: string,
    threadId: string,
    threadName: string,
    status: Status,
    ts: int,
    firstSeenTs: int,
    paneId: string,
    windowIndex: Option<int>,
    paneIndex: Option<int>,
    liveness: Liveness,
    pid: int,
    paneTitle: string,
    subagent: string,
    toolDescription: string,
    toolVerb: string)

  /** One watcher event: the row it describes and its edge flags, which the table never
      stores. */
  datatype Event = Event(row: Row, ended: bool, toolInvoked: bool, thinkingBlocks: nat)

  /** One pane of a scan that hosts a live agent process. */
  datatype Presence = Presence(
    agent: string,
    paneId: string,
    pid: int,
    windowIndex: Option<int>,
    paneIndex: Option<int>,
    paneTitle: string,
    threadId: string,
    threadName: string)

  datatype Verdict = NoSignal | Working | Ended | VerdictDone | VerdictInterrupted | VerdictError

  type Rows = map<Key, Row>

  /** Everything the tracker holds about one session. */
  datatype Session = Session(
    rows: Rows,
    unseen: set<Key>,
    misses: map<Key, int>,
    ended: map<(string, string), int>)

  const EMPTY_SESSION := Session(map[], {}, map[], map[])

  function Lookup<K, V>(m: map<K, V>, k: K): Option<V> {
    if k in m then Some(m[k]) else None
  }
}
