/** The header planner: which window shows which agent, and the commands that carry the
    windows from the cached state to the wanted one. */
module HeaderPlan {
  import opened Wrappers
  import opened StringOrder
  import opened TmuxOptions
  import opened AgentModel

  datatype Palette = Palette(blue: string, yellow: string, surface2: string, red: string, green: string)

  datatype Severity = SeverityError | SeverityWorking | SeverityWaiting | SeverityReady | SeverityStopped

  const AGENT_PRIORITY := ["claude-code", "codex", "amp"]

  function SeverityLabel(status: Status, liveness: Liveness): Severity {
    match status
    case Running => SeverityWorking
    case Waiting => SeverityWaiting
    case Error => SeverityError
    case _ =>
      if liveness.Alive? then SeverityReady
      else if status.Done? || status.Interrupted? then SeverityStopped
      else SeverityReady
  }

  function SeverityRank(row: Row): nat {
    match SeverityLabel(row.status, row.liveness)
    case SeverityError => 5
    case SeverityWorking => 4
    case SeverityWaiting => 3
    case SeverityReady => 2
    case SeverityStopped => 1
  }

  function SeverityColour(row: Row, palette: Palette): string {
    match SeverityLabel(row.status, row.liveness)
    case SeverityWorking => palette.blue
    case SeverityWaiting => palette.yellow
    case SeverityStopped => palette.surface2
    case SeverityError => palette.red
    case SeverityReady => palette.green
  }

  function ToTmuxColour(value: string): string {
    if value == "transparent" then "default" else value
  }

  // ----- the agent a window shows -----

  /** The dominant name: the first of the priority names present, else the first name. */
  ghost predicate IsDominantName(names: seq<string>, name: string) {
    if exists p :: p in AGENT_PRIORITY && p in names then
      exists i :: 0 <= i < |AGENT_PRIORITY| && name == AGENT_PRIORITY[i] && name in names &&
                  forall j :: 0 <= j < i ==> AGENT_PRIORITY[j] !in names
    else name == if |names| > 0 then names[0] else "generic"
  }

  /** agents[k] has the dominant name, and is the first with the highest severity. */
  ghost predicate IsDominant(agents: seq<Row>, name: string, k: nat) {
    && k < |agents| && agents[k].agent == name
    && (forall j :: 0 <= j < |agents| && agents[j].agent == name ==> SeverityRank(agents[j]) <= SeverityRank(agents[k]))
    && (forall j :: 0 <= j < k && agents[j].agent == name ==> SeverityRank(agents[j]) < SeverityRank(agents[k]))
  }

  function Names(agents: seq<Row>): seq<string> {
    seq(|agents|, i requires 0 <= i < |agents| => agents[i].agent)
  }

  function Glyph(glyphs: map<string, string>, name: string): string {
    if name in glyphs then glyphs[name]
    else if "generic" in glyphs then glyphs["generic"]
    else ""
  }

  /** The triple of a window hosting the agents. */
  ghost predicate IsStateOf(s: WindowState, agents: seq<Row>, palette: Palette, glyphs: map<string, string>) {
    exists name, k: nat ::
      && IsDominantName(Names(agents), name) && IsDominant(agents, name, k)
      && s == WindowState(Glyph(glyphs, name), ToTmuxColour(SeverityColour(agents[k], palette)), name)
  }

  /** The agents decide the triple. */
  lemma StateIsUnique(s: WindowState, t: WindowState, agents: seq<Row>, palette: Palette, glyphs: map<string, string>)
    requires IsStateOf(s, agents, palette, glyphs) && IsStateOf(t, agents, palette, glyphs)
    ensures s == t
  {
    var name, k: nat :| IsDominantName(Names(agents), name) && IsDominant(agents, name, k)
      && s == WindowState(Glyph(glyphs, name), ToTmuxColour(SeverityColour(agents[k], palette)), name);
    var name', k': nat :| IsDominantName(Names(agents), name') && IsDominant(agents, name', k')
      && t == WindowState(Glyph(glyphs, name'), ToTmuxColour(SeverityColour(agents[k'], palette)), name');
    assert name == name';
    assert SeverityRank(agents[k]) == SeverityRank(agents[k']);
  }

  method PickAgentForWindow(names: seq<string>) returns (name: string)
    ensures IsDominantName(names, name)
    ensures |names| > 0 ==> name in names
  {
    for i := 0 to |AGENT_PRIORITY|
      invariant forall j :: 0 <= j < i ==> AGENT_PRIORITY[j] !in names
    {
      for k := 0 to |names|
        invariant AGENT_PRIORITY[i] !in names[..k]
      {
        if names[k] == AGENT_PRIORITY[i] {
          return AGENT_PRIORITY[i];
        }
      }
      assert names[..|names|] == names;
    }
    if |names| > 0 {
      return names[0];
    }
    return "generic";
  }

  method PickDominant(agents: seq<Row>, name: string) returns (k: nat)
    requires name in Names(agents)
    ensures IsDominant(agents, name, k)
  {
    k := 0;
    var found := false;
    for i := 0 to |agents|
      invariant !found ==> forall j :: 0 <= j < i ==> agents[j].agent != name
      invariant found ==> k < i && agents[k].agent == name
      invariant found ==> forall j :: 0 <= j < i && agents[j].agent == name ==>
          SeverityRank(agents[j]) <= SeverityRank(agents[k])
      invariant found ==> forall j :: 0 <= j < k && agents[j].agent == name ==>
          SeverityRank(agents[j]) < SeverityRank(agents[k])
    {
      if agents[i].agent != name {
        continue;
      }
      if !found || SeverityRank(agents[i]) > SeverityRank(agents[k]) {
        k := i;
        found := true;
      }
    }
    var j :| 0 <= j < |agents| && Names(agents)[j] == name;
    assert agents[j].agent == name;
  }

  // ----- the agents of each window -----

  datatype Placement = Placement(window: string, row: Row)

  /** The alive agents in listed panes, with the window of each, in display order. */
  function Placed(rows: seq<Row>, panes: map<string, string>): seq<Placement> {
    if |rows| == 0 then []
    else
      var row := rows[|rows| - 1];
      Placed(rows[..|rows| - 1], panes) +
      if row.liveness.Alive? && row.paneId != "" && row.paneId in panes then [Placement(panes[row.paneId], row)] else []
  }

  function PlacedAll(sessions: seq<seq<Row>>, panes: map<string, string>): seq<Placement> {
    if |sessions| == 0 then []
    else PlacedAll(sessions[..|sessions| - 1], panes) + Placed(sessions[|sessions| - 1], panes)
  }

  /** The windows in order of first appearance. */
  function FirstSeen(placed: seq<Placement>): seq<string> {
    if |placed| == 0 then []
    else
      var order := FirstSeen(placed[..|placed| - 1]);
      var window := placed[|placed| - 1].window;
      if window in order then order else order + [window]
  }

  function AgentsIn(placed: seq<Placement>, window: string): seq<Row> {
    if |placed| == 0 then []
    else
      var last := placed[|placed| - 1];
      AgentsIn(placed[..|placed| - 1], window) + if last.window == window then [last.row] else []
  }

  lemma {:induction false} FirstSeenIsWindows(placed: seq<Placement>)
    ensures Distinct(FirstSeen(placed))
    ensures forall w :: w in FirstSeen(placed) <==> AgentsIn(placed, w) != []
  {
    if |placed| > 0 {
      FirstSeenIsWindows(placed[..|placed| - 1]);
    }
  }

  lemma {:induction false} PlacedInPanes(rows: seq<Row>, panes: map<string, string>)
    ensures forall p :: p in Placed(rows, panes) ==> p.window in panes.Values
  {
    if |rows| > 0 {
      PlacedInPanes(rows[..|rows| - 1], panes);
    }
  }

  lemma {:induction false} PlacedAllInPanes(sessions: seq<seq<Row>>, panes: map<string, string>)
    ensures forall p :: p in PlacedAll(sessions, panes) ==> p.window in panes.Values
  {
    if |sessions| > 0 {
      PlacedAllInPanes(sessions[..|sessions| - 1], panes);
      PlacedInPanes(sessions[|sessions| - 1], panes);
    }
  }

  lemma {:induction false} HostsArePlaced(placed: seq<Placement>, window: string)
    ensures AgentsIn(placed, window) != [] ==> exists p :: p in placed && p.window == window
  {
    if |placed| > 0 {
      HostsArePlaced(placed[..|placed| - 1], window);
    }
  }

  /** What the windows should show: one triple for each window that hosts an agent. */
  ghost predicate IsWanted(wanted: map<string, WindowState>, sessions: seq<seq<Row>>, panes: map<string, string>,
                           palette: Palette, glyphs: map<string, string>) {
    var placed := PlacedAll(sessions, panes);
    && (forall w :: w in wanted <==> AgentsIn(placed, w) != [])
    && (forall w :: w in wanted ==> IsStateOf(wanted[w], AgentsIn(placed, w), palette, glyphs))
  }

  lemma WantedIsUnique(a: map<string, WindowState>, b: map<string, WindowState>, sessions: seq<seq<Row>>,
                       panes: map<string, string>, palette: Palette, glyphs: map<string, string>)
    requires IsWanted(a, sessions, panes, palette, glyphs) && IsWanted(b, sessions, panes, palette, glyphs)
    ensures a == b
  {
    forall w | w in a
      ensures w in b && a[w] == b[w]
    {
      StateIsUnique(a[w], b[w], AgentsIn(PlacedAll(sessions, panes), w), palette, glyphs);
    }
    assert a.Keys == b.Keys;
  }

  lemma WantedWindowsAreListed(wanted: map<string, WindowState>, sessions: seq<seq<Row>>, panes: map<string, string>,
                               palette: Palette, glyphs: map<string, string>)
    requires IsWanted(wanted, sessions, panes, palette, glyphs)
    ensures wanted.Keys <= panes.Values
  {
    PlacedAllInPanes(sessions, panes);
    forall w | w in wanted
      ensures w in panes.Values
    {
      HostsArePlaced(PlacedAll(sessions, panes), w);
    }
  }

  ghost predicate Groups(placed: seq<Placement>, order: seq<string>, agents: map<string, seq<Row>>) {
    && order == FirstSeen(placed)
    && (forall w :: w in agents <==> w in order)
    && (forall w :: w in agents ==> agents[w] == AgentsIn(placed, w))
  }

  lemma GroupOneMore(placed: seq<Placement>, order: seq<string>, agents: map<string, seq<Row>>, p: Placement)
    requires Groups(placed, order, agents)
    ensures
      var order' := if p.window in agents then order else order + [p.window];
      var had := if p.window in agents then agents[p.window] else [];
      Groups(placed + [p], order', agents[p.window := had + [p.row]])
  {
    FirstSeenIsWindows(placed);
    assert (placed + [p])[..|placed|] == placed;
  }

  lemma PlacedOneMore(rows: seq<Row>, panes: map<string, string>, j: nat)
    requires j < |rows|
    ensures
      var row := rows[j];
      Placed(rows[..j + 1], panes) == Placed(rows[..j], panes) +
      if row.liveness.Alive? && row.paneId != "" && row.paneId in panes then [Placement(panes[row.paneId], row)] else []
  {
    assert rows[..j + 1][..j] == rows[..j];
  }

  method AddToGroup(ghost placed: seq<Placement>, order0: seq<string>, agents0: map<string, seq<Row>>, window: string,
                    row: Row)
    returns (order: seq<string>, agents: map<string, seq<Row>>)
    requires Groups(placed, order0, agents0)
    ensures Groups(placed + [Placement(window, row)], order, agents)
  {
    GroupOneMore(placed, order0, agents0, Placement(window, row));
    order, agents := order0, agents0;
    if window !in agents {
      order := order + [window];
      agents := agents[window := []];
    }
    agents := agents[window := agents[window] + [row]];
    assert agents == agents0[window := (if window in agents0 then agents0[window] else []) + [row]];
  }

  /** Adds one session's alive agents to the groups. */
  method GroupSession(rows: seq<Row>, panes: map<string, string>, ghost done: seq<Placement>, order0: seq<string>,
                      agents0: map<string, seq<Row>>)
    returns (order: seq<string>, agents: map<string, seq<Row>>)
    requires Groups(done, order0, agents0)
    ensures Groups(done + Placed(rows, panes), order, agents)
  {
    order, agents := order0, agents0;
    ghost var placed := done;
    for j := 0 to |rows|
      invariant placed == done + Placed(rows[..j], panes)
      invariant Groups(placed, order, agents)
    {
      PlacedOneMore(rows, panes, j);
      var row := rows[j];
      if !row.liveness.Alive? || row.paneId == "" || row.paneId !in panes {
        continue;
      }
      order, agents := AddToGroup(placed, order, agents, panes[row.paneId], row);
      placed := placed + [Placement(panes[row.paneId], row)];
    }
    assert rows[..|rows|] == rows;
  }

  /** Groups the alive agents by window. */
  method GroupByWindow(sessions: seq<seq<Row>>, panes: map<string, string>)
    returns (order: seq<string>, agents: map<string, seq<Row>>)
    ensures Groups(PlacedAll(sessions, panes), order, agents)
  {
    order, agents := [], map[];
    for i := 0 to |sessions|
      invariant Groups(PlacedAll(sessions[..i], panes), order, agents)
    {
      order, agents := GroupSession(sessions[i], panes, PlacedAll(sessions[..i], panes), order, agents);
      assert sessions[..i + 1][..i] == sessions[..i];
    }
    assert sessions[..|sessions|] == sessions;
  }

  method StateOf(agents: seq<Row>, palette: Palette, glyphs: map<string, string>) returns (s: WindowState)
    requires agents != []
    ensures IsStateOf(s, agents, palette, glyphs)
  {
    var name := PickAgentForWindow(Names(agents));
    var k := PickDominant(agents, name);
    s := WindowState(Glyph(glyphs, name), ToTmuxColour(SeverityColour(agents[k], palette)), name);
  }

  lemma PrefixGrows(order: seq<string>, i: nat)
    requires i < |order|
    ensures forall w :: w in order[..i + 1] <==> w in order[..i] || w == order[i]
  {
  }

  /** The wanted triples, with the windows in first-seen order. */
  method ComputeWindowStates(sessions: seq<seq<Row>>, panes: map<string, string>, palette: Palette,
                             glyphs: map<string, string>)
    returns (order: seq<string>, wanted: map<string, WindowState>)
    ensures order == FirstSeen(PlacedAll(sessions, panes))
    ensures IsWanted(wanted, sessions, panes, palette, glyphs)
  {
    ghost var placed := PlacedAll(sessions, panes);
    var agents;
    order, agents := GroupByWindow(sessions, panes);
    FirstSeenIsWindows(placed);
    wanted := map[];
    for i := 0 to |order|
      invariant forall w :: w in wanted <==> w in order[..i]
      invariant forall w :: w in wanted ==> IsStateOf(wanted[w], AgentsIn(placed, w), palette, glyphs)
    {
      var state := StateOf(agents[order[i]], palette, glyphs);
      wanted := wanted[order[i] := state];
      PrefixGrows(order, i);
    }
    assert order[..|order|] == order;
  }

  // ----- the plan -----

  /** The commands one window needs. */
  function WindowCommands(window: string, prev: map<string, WindowState>, wanted: map<string, WindowState>,
                          live: set<string>): seq<Command> {
    if window in wanted then
      if window in prev && prev[window] == wanted[window] then [] else SetTriple(window, wanted[window])
    else if window in prev && window in live then UnsetTriple(window)
    else []
  }

  /** The commands hold each window's own, in their order; those of different windows may be
      mixed in any order. */
  ghost predicate IsPlan(commands: seq<Command>, prev: map<string, WindowState>, wanted: map<string, WindowState>,
                         live: set<string>) {
    forall w :: ForWindow(commands, w) == WindowCommands(w, prev, wanted, live)
  }

  /** The set commands of the windows in order. */
  function SetCommands(order: seq<string>, prev: map<string, WindowState>,
                       wanted: map<string, WindowState>): seq<Command> {
    if |order| == 0 then []
    else SetCommands(order[..|order| - 1], prev, wanted) + WindowCommands(order[|order| - 1], prev, wanted, {})
  }

  function UnsetCommands(stale: seq<string>): seq<Command> {
    if |stale| == 0 then [] else UnsetCommands(stale[..|stale| - 1]) + UnsetTriple(stale[|stale| - 1])
  }

  /** The cached windows that are alive but host no agent any more. */
  ghost predicate AreStale(stale: seq<string>, prev: map<string, WindowState>, wanted: map<string, WindowState>,
                           live: set<string>) {
    Distinct(stale) && forall w :: w in stale <==> w in prev && w !in wanted && w in live
  }

  /** First the set commands in the given order, then the unset commands in ascending order. */
  ghost predicate IsInOrder(commands: seq<Command>, order: seq<string>, prev: map<string, WindowState>,
                            wanted: map<string, WindowState>, live: set<string>) {
    exists stale ::
      && AreStale(stale, prev, wanted, live) && Ascending(stale)
      && commands == SetCommands(order, prev, wanted) + UnsetCommands(stale)
  }

  method PlanHeaderSync(sessions: seq<seq<Row>>, panes: map<string, string>, palette: Palette,
                        glyphs: map<string, string>, enabled: bool, prev: map<string, WindowState>)
    returns (commands: seq<Command>, wanted: map<string, WindowState>)
    ensures !enabled ==> commands == [] && wanted == map[]
    ensures enabled ==> IsWanted(wanted, sessions, panes, palette, glyphs)
    ensures enabled ==> IsPlan(commands, prev, wanted, panes.Values)
    ensures enabled ==> IsInOrder(commands, FirstSeen(PlacedAll(sessions, panes)), prev, wanted, panes.Values)
  {
    if !enabled {
      return [], map[];
    }
    var order;
    order, wanted := ComputeWindowStates(sessions, panes, palette, glyphs);
    FirstSeenIsWindows(PlacedAll(sessions, panes));
    commands := DiffWindows(order, prev, wanted);
    var live := panes.Values;
    var stale := StaleWindows(prev, wanted, live);
    commands := CleanUp(commands, stale);
    OrderedIsPlan(order, stale, prev, wanted, live);
  }

  /** The set commands, in first-seen order. */
  method DiffWindows(order: seq<string>, prev: map<string, WindowState>, wanted: map<string, WindowState>)
    returns (commands: seq<Command>)
    requires forall w :: w in order ==> w in wanted
    ensures commands == SetCommands(order, prev, wanted)
  {
    commands := [];
    for i := 0 to |order|
      invariant commands == SetCommands(order[..i], prev, wanted)
    {
      assert order[..i + 1][..i] == order[..i];
      var next := wanted[order[i]];
      if order[i] in prev && prev[order[i]] == next {
        continue;
      }
      commands := commands + SetTriple(order[i], next);
    }
    assert order[..|order|] == order;
  }

  /** The stale windows, sorted. */
  method StaleWindows(prev: map<string, WindowState>, wanted: map<string, WindowState>, live: set<string>)
    returns (stale: seq<string>)
    ensures AreStale(stale, prev, wanted, live) && Ascending(stale)
  {
    var found: seq<string> := [];
    var left := prev.Keys;
    while left != {}
      invariant left <= prev.Keys && Distinct(found)
      invariant forall w :: w in found <==> w in prev && w !in left && w !in wanted && w in live
      decreases |left|
    {
      var window :| window in left;
      left := left - {window};
      if window in wanted || window !in live {
        continue;
      }
      found := found + [window];
    }
    SortSorts(found);
    stale := Sort(found);
  }

  /** Adds the unset commands. */
  method CleanUp(given: seq<Command>, stale: seq<string>) returns (commands: seq<Command>)
    ensures commands == given + UnsetCommands(stale)
  {
    commands := given;
    for i := 0 to |stale|
      invariant commands == given + UnsetCommands(stale[..i])
    {
      assert stale[..i + 1][..i] == stale[..i];
      commands := commands + UnsetTriple(stale[i]);
    }
    assert stale[..|stale|] == stale;
  }

  lemma {:induction false} SetForWindow(order: seq<string>, prev: map<string, WindowState>,
                                        wanted: map<string, WindowState>, w: string)
    requires Distinct(order) && forall v :: v in order ==> v in wanted
    ensures ForWindow(SetCommands(order, prev, wanted), w) ==
            if w in order then WindowCommands(w, prev, wanted, {}) else []
  {
    if |order| > 0 {
      var init, last := order[..|order| - 1], order[|order| - 1];
      assert last !in init && forall v :: v in order <==> v in init || v == last;
      SetForWindow(init, prev, wanted, w);
      ForWindowConcat(SetCommands(init, prev, wanted), WindowCommands(last, prev, wanted, {}), w);
      TripleForWindow(last, wanted[last], w);
    }
  }

  lemma {:induction false} UnsetForWindow(stale: seq<string>, w: string)
    requires Distinct(stale)
    ensures ForWindow(UnsetCommands(stale), w) == if w in stale then UnsetTriple(w) else []
  {
    if |stale| > 0 {
      var init, last := stale[..|stale| - 1], stale[|stale| - 1];
      assert last !in init && forall v :: v in stale <==> v in init || v == last;
      UnsetForWindow(init, w);
      ForWindowConcat(UnsetCommands(init), UnsetTriple(last), w);
      TripleForWindow(last, WindowState("", "", ""), w);
    }
  }

  lemma OrderedForWindow(order: seq<string>, stale: seq<string>, prev: map<string, WindowState>,
                         wanted: map<string, WindowState>, live: set<string>, w: string)
    requires Distinct(order) && (forall v :: v in order <==> v in wanted) && AreStale(stale, prev, wanted, live)
    ensures ForWindow(SetCommands(order, prev, wanted) + UnsetCommands(stale), w) ==
        WindowCommands(w, prev, wanted, live)
  {
    ForWindowConcat(SetCommands(order, prev, wanted), UnsetCommands(stale), w);
    SetForWindow(order, prev, wanted, w);
    UnsetForWindow(stale, w);
    var set1 := ForWindow(SetCommands(order, prev, wanted), w);
    assert set1 + [] == set1;
  }

  /** Commands in that order are a plan. */
  lemma OrderedIsPlan(order: seq<string>, stale: seq<string>, prev: map<string, WindowState>,
                      wanted: map<string, WindowState>, live: set<string>)
    requires Distinct(order) && (forall w :: w in order <==> w in wanted) && AreStale(stale, prev, wanted, live)
    ensures IsPlan(SetCommands(order, prev, wanted) + UnsetCommands(stale), prev, wanted, live)
  {
    forall w
      ensures ForWindow(SetCommands(order, prev, wanted) + UnsetCommands(stale), w) ==
          WindowCommands(w, prev, wanted, live)
    {
      OrderedForWindow(order, stale, prev, wanted, live, w);
    }
  }

  /** A plan names no window outside the listing. */
  lemma PlanNamesListedWindows(commands: seq<Command>, prev: map<string, WindowState>, wanted: map<string, WindowState>,
                               live: set<string>, c: Command)
    requires IsPlan(commands, prev, wanted, live) && wanted.Keys <= live
    requires c in commands
    ensures c.window in live
  {
    NamedWindows(commands, c);
  }

  lemma ForWindowEmpty(commands: seq<Command>)
    requires forall w :: ForWindow(commands, w) == []
    ensures commands == []
  {
    if |commands| > 0 {
      NamedWindows(commands, commands[0]);
      assert false;
    }
  }

  /** A plan is empty exactly when every wanted window is cached as wanted and every other
      cached window is dead. */
  lemma PlanEmptyIff(commands: seq<Command>, prev: map<string, WindowState>, wanted: map<string, WindowState>,
                     live: set<string>)
    requires IsPlan(commands, prev, wanted, live)
    ensures commands == [] <==>
            && (forall w :: w in wanted ==> w in prev && prev[w] == wanted[w])
            && (forall w :: w in prev && w !in wanted ==> w !in live)
  {
    if forall w :: WindowCommands(w, prev, wanted, live) == [] {
      ForWindowEmpty(commands);
    }
    assert forall w :: w in wanted ==> |SetTriple(w, wanted[w])| == 3;
    assert forall w :: |UnsetTriple(w)| == 3;
    forall w
      ensures WindowCommands(w, prev, wanted, live) == [] <==>
              (w in wanted ==> w in prev && prev[w] == wanted[w]) && (w in prev && w !in wanted ==> w !in live)
    {
    }
    if commands == [] {
      forall w
        ensures WindowCommands(w, prev, wanted, live) == []
      {
        assert ForWindow(commands, w) == [];
      }
    }
  }
}
