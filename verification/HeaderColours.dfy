/** What a window shows, read off the rows it hosts: which of them decides and the colour it
    brings. */
module HeaderColours {
  import opened Wrappers
  import opened AgentModel
  import opened TmuxOptions
  import opened HeaderPlan

  predicate Named(agents: seq<Row>, name: string) {
    exists i :: 0 <= i < |agents| && agents[i].agent == name
  }

  /** Claude Code before Codex before Amp, and else the first agent there is. */
  predicate Leads(agents: seq<Row>, name: string) {
    if Named(agents, "claude-code") then name == "claude-code"
    else if Named(agents, "codex") then name == "codex"
    else if Named(agents, "amp") then name == "amp"
    else name == if |agents| > 0 then agents[0].agent else "generic"
  }

  predicate Has(agents: seq<Row>, name: string, status: Status) {
    exists i :: 0 <= i < |agents| && agents[i].agent == name && agents[i].status == status
  }

  /** The first row of the name with the status. */
  predicate FirstOf(agents: seq<Row>, name: string, status: Status, k: nat) {
    && k < |agents| && agents[k].agent == name && agents[k].status == status
    && forall j :: 0 <= j < k && agents[j].agent == name ==> agents[j].status != status
  }

  /** The row of the name that is shown: the first failed one, else the first running one, else
      the first waiting one, else the first. */
  predicate Shown(agents: seq<Row>, name: string, k: nat) {
    if Has(agents, name, Error) then FirstOf(agents, name, Error, k)
    else if Has(agents, name, Running) then FirstOf(agents, name, Running, k)
    else if Has(agents, name, Waiting) then FirstOf(agents, name, Waiting, k)
    else k < |agents| && agents[k].agent == name && forall j :: 0 <= j < k ==> agents[j].agent != name
  }

  /** The colour of an alive agent, as tmux takes it. */
  function ColourOf(status: Status, palette: Palette): string {
    var colour :=
      if status == Running then palette.blue
      else if status == Waiting then palette.yellow
      else if status == Error then palette.red
      else palette.green;
    if colour == "transparent" then "default" else colour
  }

  lemma LeadIsDominant(agents: seq<Row>, name: string)
    requires IsDominantName(Names(agents), name)
    ensures Leads(agents, name)
  {
    assert AGENT_PRIORITY[0] == "claude-code" && AGENT_PRIORITY[1] == "codex" && AGENT_PRIORITY[2] == "amp";
    forall n
      ensures n in Names(agents) <==> Named(agents, n)
    {
      if i :| 0 <= i < |agents| && agents[i].agent == n {
        assert Names(agents)[i] == n;
      }
    }
    assert |agents| > 0 ==> Names(agents)[0] == agents[0].agent;
  }

  /** The most severe alive row of a name is the one to show. */
  lemma DominantIsShown(agents: seq<Row>, name: string, k: nat)
    requires forall i :: 0 <= i < |agents| ==> agents[i].liveness == Alive
    requires IsDominant(agents, name, k)
    ensures Shown(agents, name, k)
  {
  }

  /** The name that leads, with its glyph or else the generic one or none, in the colour of the
      row of that name that is to be shown. */
  ghost predicate Displays(s: WindowState, agents: seq<Row>, palette: Palette, glyphs: map<string, string>) {
    && Leads(agents, s.agent)
    && (exists k: nat :: Shown(agents, s.agent, k) && s.fg == ColourOf(agents[k].status, palette))
    && s.glyph == if s.agent in glyphs then glyphs[s.agent]
                  else if "generic" in glyphs then glyphs["generic"] else ""
  }

  lemma WindowShows(s: WindowState, agents: seq<Row>, palette: Palette, glyphs: map<string, string>)
    requires forall i :: 0 <= i < |agents| ==> agents[i].liveness == Alive
    requires IsStateOf(s, agents, palette, glyphs)
    ensures Displays(s, agents, palette, glyphs)
  {
    var name, k: nat :|
      && IsDominantName(Names(agents), name) && IsDominant(agents, name, k)
      && s == WindowState(Glyph(glyphs, name), ToTmuxColour(SeverityColour(agents[k], palette)), name);
    LeadIsDominant(agents, name);
    DominantIsShown(agents, name, k);
    assert s.fg == ColourOf(agents[k].status, palette);
  }

  /** The rows a window hosts are exactly the alive ones whose pane the listing puts there. */
  lemma {:induction false} HostsOf(sessions: seq<seq<Row>>, panes: map<string, string>, window: string, row: Row)
    ensures row in AgentsIn(PlacedAll(sessions, panes), window) <==> Hosts(sessions, panes, window, row)
  {
    if |sessions| > 0 {
      var init, last := sessions[..|sessions| - 1], sessions[|sessions| - 1];
      HostsOf(init, panes, window, row);
      HostsOfOne(last, panes, window, row);
      AgentsConcat(PlacedAll(init, panes), Placed(last, panes), window);
      assert (exists i :: 0 <= i < |sessions| && row in sessions[i]) <==>
             (exists i :: 0 <= i < |init| && row in init[i]) || row in last;
    }
  }

  lemma {:induction false} HostsOfOne(rows: seq<Row>, panes: map<string, string>, window: string, row: Row)
    ensures row in AgentsIn(Placed(rows, panes), window) <==>
            && row in rows && row.liveness == Alive
            && row.paneId != "" && row.paneId in panes && panes[row.paneId] == window
  {
    if |rows| > 0 {
      var init, last := rows[..|rows| - 1], rows[|rows| - 1];
      HostsOfOne(init, panes, window, row);
      assert rows == init + [last];
      PlacedOneMore(rows, panes, |rows| - 1);
      assert rows[..|rows|] == rows;
      if Placed(rows, panes) != Placed(init, panes) {
        AgentsConcat(Placed(init, panes), [Placement(panes[last.paneId], last)], window);
      }
    }
  }

  lemma {:induction false} AgentsConcat(a: seq<Placement>, b: seq<Placement>, window: string)
    ensures AgentsIn(a + b, window) == AgentsIn(a, window) + AgentsIn(b, window)
  {
    if |b| == 0 {
      assert a + b == a;
    } else {
      AgentsConcat(a, b[..|b| - 1], window);
      assert (a + b)[..|a + b| - 1] == a + b[..|b| - 1];
    }
  }

  predicate Hosts(sessions: seq<seq<Row>>, panes: map<string, string>, window: string, row: Row) {
    && (exists i :: 0 <= i < |sessions| && row in sessions[i])
    && row.liveness == Alive && row.paneId != "" && row.paneId in panes && panes[row.paneId] == window
  }

  lemma HostingIff(sessions: seq<seq<Row>>, panes: map<string, string>, w: string)
    ensures AgentsIn(PlacedAll(sessions, panes), w) != [] <==> exists row :: Hosts(sessions, panes, w, row)
  {
    var agents := AgentsIn(PlacedAll(sessions, panes), w);
    if agents != [] {
      assert agents[0] in agents;
      HostsOf(sessions, panes, w, agents[0]);
    }
    if row :| Hosts(sessions, panes, w, row) {
      HostsOf(sessions, panes, w, row);
    }
  }

  lemma HostsAreAlive(sessions: seq<seq<Row>>, panes: map<string, string>, w: string)
    ensures
      var agents := AgentsIn(PlacedAll(sessions, panes), w);
      forall i :: 0 <= i < |agents| ==> agents[i].liveness == Alive
  {
    var agents := AgentsIn(PlacedAll(sessions, panes), w);
    forall i | 0 <= i < |agents|
      ensures agents[i].liveness == Alive
    {
      HostsOf(sessions, panes, w, agents[i]);
    }
  }

  /** The agent in the colour of its status. */
  predicate DisplaysOne(s: WindowState, row: Row, palette: Palette) {
    s.agent == row.agent && s.fg == ColourOf(row.status, palette)
  }

  /** The windows that want a triple are those that host a row; each shows the leading name in
      the colour of the row to be shown, so one with a single row that row's agent in the
      colour of its status. */
  lemma WantedShows(wanted: map<string, WindowState>, sessions: seq<seq<Row>>, panes: map<string, string>,
                    palette: Palette, glyphs: map<string, string>, w: string)
    requires IsWanted(wanted, sessions, panes, palette, glyphs)
    ensures w in wanted <==> exists row :: Hosts(sessions, panes, w, row)
    ensures w in wanted ==> Displays(wanted[w], AgentsIn(PlacedAll(sessions, panes), w), palette, glyphs)
    ensures w in wanted && |AgentsIn(PlacedAll(sessions, panes), w)| == 1 ==>
              DisplaysOne(wanted[w], AgentsIn(PlacedAll(sessions, panes), w)[0], palette)
  {
    var agents := AgentsIn(PlacedAll(sessions, panes), w);
    HostingIff(sessions, panes, w);
    HostsAreAlive(sessions, panes, w);
    if w in wanted {
      WindowShows(wanted[w], agents, palette, glyphs);
      if |agents| == 1 {
        OneIsDisplayed(wanted[w], agents, palette, glyphs);
      }
    }
  }

  lemma OneIsDisplayed(s: WindowState, agents: seq<Row>, palette: Palette, glyphs: map<string, string>)
    requires Displays(s, agents, palette, glyphs) && |agents| == 1
    ensures DisplaysOne(s, agents[0], palette)
  {
  }
}
