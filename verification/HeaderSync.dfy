/** The header sync's cache against the options the tmux server really carries, over every
    run of syncs, failures, and windows opening, closing and moving in between. */
module HeaderSync {
  import opened Wrappers
  import opened AgentModel
  import T = TmuxOptions
  import opened HeaderPlan
  import opened HeaderColours

  type Cache = map<string, T.WindowState>

  /** used holds every window id ever given out; tmux never gives one out twice. */
  datatype Tmux = Tmux(windows: T.Windows, panes: map<string, string>, used: set<string>)

  /** Every live window has a pane, and every pane a live window. */
  ghost predicate Consistent(t: Tmux) {
    t.windows.Keys == t.panes.Values && t.windows.Keys <= t.used
  }

  /** Windows close, open and exchange panes; only the sync writes their agent options. */
  ghost predicate Evolves(t: Tmux, t': Tmux) {
    && Consistent(t') && t.used <= t'.used
    && (forall w :: w in t'.windows && w in t.windows ==> t'.windows[w] == t.windows[w])
    && (forall w :: w in t'.windows && w !in t.windows ==> w !in t.used && t'.windows[w] == map[])
  }

  datatype State = State(cache: Cache, tmux: Tmux)

  datatype Step =
    | World(later: Tmux)
    | Disabled
    | ReadFailed
    | EmptyListing
    | Write(sessions: seq<seq<Row>>, palette: Palette, glyphs: map<string, string>,
            commands: seq<T.Command>, wanted: Cache,
            later: Tmux, cut: Option<nat>)

  /** The chain is written to the windows of later; cut is the command an abort stopped at. */
  function Attempt(commands: seq<T.Command>, later: Tmux, cut: Option<nat>): (T.Windows, bool) {
    if cut.Some? then (T.Exec(later.windows,
                              commands[..if cut.value < |commands| then cut.value else |commands|]).0, false)
    else T.Exec(later.windows, commands)
  }

  ghost predicate IsStep(s: State, step: Step, s': State) {
    match step
    case World(later) => Evolves(s.tmux, later) && s' == State(s.cache, later)
    case Disabled => s' == State(map[], s.tmux)
    case ReadFailed => s' == s
    case EmptyListing => s' == s
    case Write(sessions, palette, glyphs, commands, wanted, later, cut) =>
      && IsWanted(wanted, sessions, s.tmux.panes, palette, glyphs)
      && IsPlan(commands, s.cache, wanted, s.tmux.panes.Values)
      && Evolves(s.tmux, later)
      && (if commands == [] then s' == State(wanted, later)
          else
            var (windows, ok) := Attempt(commands, later, cut);
            s' == State(if ok then wanted else map[], later.(windows := windows)))
  }

  /** The sync reaches its end: there was nothing to write, or the whole chain ran. */
  predicate Completes(step: Step)
    requires step.Write?
  {
    step.commands == [] || Attempt(step.commands, step.later, step.cut).1
  }

  ghost predicate IsRun(states: seq<State>, steps: seq<Step>) {
    && |states| == |steps| + 1
    && states[0].cache == map[] && Consistent(states[0].tmux)
    && forall n :: 0 <= n < |steps| ==> IsStep(states[n], steps[n], states[n + 1])
  }

  // ----- the cache is sound -----

  /** A live window's cached triple is what tmux carries. */
  ghost predicate CacheSound(s: State) {
    && Consistent(s.tmux) && s.cache.Keys <= s.tmux.used
    && forall w :: w in s.cache && w in s.tmux.windows ==> s.tmux.windows[w] == T.TripleOf(s.cache[w])
  }

  /** What one window carries after a completed sync. */
  lemma CompletedWindow(s: State, step: Step, s': State, w: string)
    requires CacheSound(s) && IsStep(s, step, s') && step.Write? && Completes(step)
    requires w in s'.tmux.windows
    ensures s'.cache == step.wanted && w in step.later.windows
    ensures w in step.wanted ==> s'.tmux.windows[w] == T.TripleOf(step.wanted[w])
    ensures w !in step.wanted && w in s.cache ==> s'.tmux.windows[w] == map[]
    ensures w !in step.wanted && w !in s.cache ==> s'.tmux.windows[w] == step.later.windows[w]
  {
    var commands, later, live := step.commands, step.later, s.tmux.panes.Values;
    T.ExecPerWindow(later.windows, commands, w);
    assert w in later.windows;
    assert s'.tmux.windows[w] == T.ApplyAll(later.windows[w], T.ForWindow(commands, w));
    assert T.ForWindow(commands, w) == WindowCommands(w, s.cache, step.wanted, live);
    WantedWindowsAreListed(step.wanted, step.sessions, s.tmux.panes, step.palette, step.glyphs);
    if w in step.wanted {
      T.TriplesApply(later.windows[w], w, step.wanted[w]);
    } else if w in s.cache {
      assert w in live;
      T.TriplesApply(later.windows[w], w, s.cache[w]);
    }
  }

  lemma WriteKeepsSound(s: State, step: Step, s': State)
    requires CacheSound(s) && IsStep(s, step, s') && step.Write?
    ensures CacheSound(s')
  {
    WriteKeepsWindows(s, step, s');
    if Completes(step) {
      WantedWindowsAreListed(step.wanted, step.sessions, s.tmux.panes, step.palette, step.glyphs);
      assert s'.cache == step.wanted;
      forall w | w in s'.cache && w in s'.tmux.windows
        ensures s'.tmux.windows[w] == T.TripleOf(s'.cache[w])
      {
        CompletedWindow(s, step, s', w);
      }
    }
  }

  lemma WriteKeepsWindows(s: State, step: Step, s': State)
    requires IsStep(s, step, s') && step.Write?
    ensures Consistent(s'.tmux) && s.tmux.used <= s'.tmux.used
    ensures s'.tmux.windows.Keys == step.later.windows.Keys && s'.tmux.used == step.later.used
    ensures s'.cache == if Completes(step) then step.wanted else map[]
  {
    var commands := step.commands;
    T.ExecPerWindow(step.later.windows, commands, "");
    if step.cut.Some? {
      T.ExecPerWindow(step.later.windows,
                      commands[..if step.cut.value < |commands| then step.cut.value else |commands|], "");
    }
  }

  lemma StepKeepsSound(s: State, step: Step, s': State)
    requires CacheSound(s) && IsStep(s, step, s')
    ensures CacheSound(s')
  {
    if step.Write? {
      WriteKeepsSound(s, step, s');
    }
  }

  /** After any mix of completed syncs, read failures, empty listings, disables and writes
      aborted anywhere, a live window's cached triple is what tmux carries. */
  lemma {:induction false} CacheIsAlwaysSound(states: seq<State>, steps: seq<Step>, n: nat)
    requires IsRun(states, steps) && n < |states|
    ensures CacheSound(states[n])
  {
    if n > 0 {
      CacheIsAlwaysSound(states, steps, n - 1);
      StepKeepsSound(states[n - 1], steps[n - 1], states[n - 1 + 1]);
    }
  }

  // ----- the plan -----

  /** A plan never names a window that was dead when the panes were listed. */
  lemma PlansNameLiveWindows(states: seq<State>, steps: seq<Step>, n: nat, c: T.Command)
    requires IsRun(states, steps) && n < |steps| && steps[n].Write? && c in steps[n].commands
    ensures c.window in states[n].tmux.windows
  {
    CacheIsAlwaysSound(states, steps, n);
    var s, step := states[n], steps[n];
    assert IsStep(s, step, states[n + 1]);
    WantedWindowsAreListed(step.wanted, step.sessions, s.tmux.panes, step.palette, step.glyphs);
    PlanNamesListedWindows(step.commands, s.cache, step.wanted, s.tmux.panes.Values, c);
  }

  /** So a sync completes exactly when nothing interrupts the chain and no window it names
      has closed since the listing; a closed window cannot wedge the next one. */
  lemma WriteCompletesIff(s: State, step: Step, s': State)
    requires CacheSound(s) && IsStep(s, step, s') && step.Write? && step.commands != []
    ensures Completes(step) <==>
            step.cut.None? && forall c :: c in step.commands ==> c.window in step.later.windows
    ensures step.cut.None? && s.tmux.windows.Keys <= step.later.windows.Keys ==> Completes(step)
  {
    T.ExecCompletesIff(step.later.windows, step.commands);
    WantedWindowsAreListed(step.wanted, step.sessions, s.tmux.panes, step.palette, step.glyphs);
    forall c | c in step.commands
      ensures c.window in s.tmux.windows
    {
      PlanNamesListedWindows(step.commands, s.cache, step.wanted, s.tmux.panes.Values, c);
    }
  }

  // ----- the cache is exact -----

  /** The live windows that carry options are exactly the cached ones. */
  ghost predicate CacheExact(s: State) {
    forall w :: w in s.tmux.windows ==> (s.tmux.windows[w] != map[] <==> w in s.cache)
  }

  predicate Unbroken(step: Step) {
    !step.Disabled? && (step.Write? ==> Completes(step))
  }

  lemma ExactAfterWrite(s: State, step: Step, s': State, w: string)
    requires CacheSound(s) && CacheExact(s) && IsStep(s, step, s') && step.Write? && Completes(step)
    requires w in s'.tmux.windows
    ensures s'.tmux.windows[w] != map[] <==> w in s'.cache
  {
    CompletedWindow(s, step, s', w);
    if w in step.wanted {
      assert T.AgentGlyph in T.TripleOf(step.wanted[w]);
    } else if w !in s.cache {
      assert Evolves(s.tmux, step.later);
    }
  }

  lemma StepKeepsExact(s: State, step: Step, s': State)
    requires CacheSound(s) && CacheExact(s) && IsStep(s, step, s') && Unbroken(step)
    ensures CacheExact(s')
  {
    if step.Write? {
      forall w | w in s'.tmux.windows
        ensures s'.tmux.windows[w] != map[] <==> w in s'.cache
      {
        ExactAfterWrite(s, step, s', w);
      }
    }
  }

  /** Without write failures or disables, and from a tmux that carries no agent options, the
      live windows carrying options are exactly the cached ones. */
  lemma {:induction false} UnbrokenRunsAreExact(states: seq<State>, steps: seq<Step>, n: nat)
    requires IsRun(states, steps) && n < |states|
    requires forall w :: w in states[0].tmux.windows ==> states[0].tmux.windows[w] == map[]
    requires forall i :: 0 <= i < n ==> Unbroken(steps[i])
    ensures CacheExact(states[n])
  {
    if n > 0 {
      UnbrokenRunsAreExact(states, steps, n - 1);
      CacheIsAlwaysSound(states, steps, n - 1);
      StepKeepsExact(states[n - 1], steps[n - 1], states[n - 1 + 1]);
    }
  }

  // ----- a completed sync -----

  /** The options are exactly the triple of the agents. */
  ghost predicate Shows(options: T.Options, agents: seq<Row>, palette: Palette, glyphs: map<string, string>) {
    exists triple :: Displays(triple, agents, palette, glyphs) && options == T.TripleOf(triple)
  }

  /** Whatever failed before, after a completed sync every window that hosts an agent carries
      exactly its triple. */
  lemma CompletedSyncIsExactOnHosts(s: State, step: Step, s': State)
    requires CacheSound(s) && IsStep(s, step, s') && step.Write? && Completes(step)
    ensures
      var placed := PlacedAll(step.sessions, s.tmux.panes);
      forall w :: w in s'.tmux.windows && AgentsIn(placed, w) != [] ==>
        Shows(s'.tmux.windows[w], AgentsIn(placed, w), step.palette, step.glyphs)
  {
    var placed := PlacedAll(step.sessions, s.tmux.panes);
    forall w | w in s'.tmux.windows && AgentsIn(placed, w) != []
      ensures Shows(s'.tmux.windows[w], AgentsIn(placed, w), step.palette, step.glyphs)
    {
      CompletedWindow(s, step, s', w);
      WantedShows(step.wanted, step.sessions, s.tmux.panes, step.palette, step.glyphs, w);
      assert Displays(step.wanted[w], AgentsIn(placed, w), step.palette, step.glyphs);
    }
  }

  /** No live window without an agent carries options. */
  ghost predicate Clean(wanted: Cache, t: Tmux) {
    forall w :: w in t.windows && t.windows[w] != map[] ==> w in wanted
  }

  /** A completed sync leaves tmux clean exactly when every live window that carried options
      was cached or hosts an agent: what a reset cache forgot is never cleaned up. */
  lemma CompletedSyncCleansIff(s: State, step: Step, s': State)
    requires CacheSound(s) && IsStep(s, step, s') && step.Write? && Completes(step)
    ensures Clean(step.wanted, s'.tmux) <==>
            forall w :: w in step.later.windows && step.later.windows[w] != map[] ==> w in s.cache || w in step.wanted
  {
    WriteKeepsWindows(s, step, s');
    forall w | w in s'.tmux.windows
      ensures w in step.wanted || w in s.cache || s'.tmux.windows[w] == step.later.windows[w]
      ensures w !in step.wanted && w in s.cache ==> s'.tmux.windows[w] == map[]
    {
      CompletedWindow(s, step, s', w);
    }
    if Clean(step.wanted, s'.tmux) {
      forall w | w in step.later.windows && step.later.windows[w] != map[]
        ensures w in s.cache || w in step.wanted
      {
        assert w in s'.tmux.windows;
      }
    }
  }

  /** A cleanup cut by a write failure is not retried: the next sync completes and window @1
      still shows an agent that is gone. */
  lemma AbortedCleanupIsForgotten(shown: T.WindowState, palette: Palette, glyphs: map<string, string>)
    returns (s: State, failed: Step, s': State, retry: Step, s'': State)
    ensures CacheSound(s) && CacheExact(s)
    ensures IsStep(s, failed, s') && failed.Write? && !Completes(failed)
    ensures IsStep(s', retry, s'') && retry.Write? && Completes(retry)
    ensures retry.wanted == map[] && "@1" in s''.tmux.windows && s''.tmux.windows["@1"] == T.TripleOf(shown)
  {
    var tmux := Tmux(map["@1" := T.TripleOf(shown)], map["%1" := "@1"], {"@1"});
    s := State(map["@1" := shown], tmux);
    failed := Write([], palette, glyphs, T.UnsetTriple("@1"), map[], tmux, Some(0));
    s' := State(map[], tmux);
    retry := Write([], palette, glyphs, [], map[], tmux, None);
    s'' := s';
    assert tmux.panes.Values == {"@1"} by {
      assert tmux.panes["%1"] == "@1";
    }
    assert T.AgentGlyph in T.TripleOf(shown);
    forall w
      ensures T.ForWindow(T.UnsetTriple("@1"), w) == WindowCommands(w, s.cache, map[], tmux.panes.Values)
    {
      T.TripleForWindow("@1", shown, w);
    }
    assert T.UnsetTriple("@1")[..0] == [];
    assert tmux.(windows := tmux.windows) == tmux;
  }

  /** A sync of an unchanged world after a completed one issues no command. */
  lemma UnchangedWorldIsQuiet(s: State, step: Step, s': State, again: Step, s'': State)
    requires IsStep(s, step, s') && step.Write? && Completes(step)
    requires IsStep(s', again, s'') && again.Write?
    requires again.sessions == step.sessions && again.palette == step.palette && again.glyphs == step.glyphs
    requires s'.tmux.panes == s.tmux.panes
    ensures again.commands == [] && s''.cache == s'.cache
  {
    WriteKeepsWindows(s, step, s');
    WantedIsUnique(step.wanted, again.wanted, step.sessions, s.tmux.panes, step.palette, step.glyphs);
    PlanEmptyIff(again.commands, s'.cache, again.wanted, s'.tmux.panes.Values);
  }

  // ----- the live object -----

  datatype Listing = ListingFails | ListingEmpty | ListingAccurate

  /** What the outside does during one sync: how the listing ends, what tmux looks like when
      the chain arrives, and where an abort cuts it. */
  datatype Weather = Weather(listing: Listing, later: Tmux, cut: Option<nat>)

  class TmuxServer {
    var world: Tmux

    constructor (world: Tmux)
      ensures this.world == world
    {
      this.world := world;
    }

    method ListPanes(listing: Listing) returns (panes: Option<map<string, string>>)
      ensures panes == match listing
                       case ListingFails => None
                       case ListingEmpty => Some(map[])
                       case ListingAccurate => Some(world.panes)
    {
      match listing
      case ListingFails => panes := None;
      case ListingEmpty => panes := Some(map[]);
      case ListingAccurate => panes := Some(world.panes);
    }

    method RunChain(commands: seq<T.Command>, later: Tmux, cut: Option<nat>) returns (ok: bool)
      modifies this
      ensures ok == Attempt(commands, later, cut).1
      ensures world == later.(windows := Attempt(commands, later, cut).0)
    {
      var outcome := Attempt(commands, later, cut);
      world := later.(windows := outcome.0);
      ok := outcome.1;
    }
  }

  class Syncer {
    const tmux: TmuxServer
    const glyphs: map<string, string>
    var lastWindows: Cache

    constructor (tmux: TmuxServer, glyphs: map<string, string>)
      ensures this.tmux == tmux && this.glyphs == glyphs && lastWindows == map[]
    {
      this.tmux, this.glyphs, lastWindows := tmux, glyphs, map[];
    }

    function Now(): State
      reads this, tmux
    {
      State(lastWindows, tmux.world)
    }

    /** One broadcast. */
    method Sync(sessions: seq<seq<Row>>, palette: Palette, enabled: bool, weather: Weather) returns (ghost step: Step)
      requires Consistent(tmux.world) && Evolves(tmux.world, weather.later)
      modifies this`lastWindows, tmux
      ensures IsStep(old(Now()), step, Now())
      ensures !enabled ==> step == Disabled && lastWindows == map[] && tmux.world == old(tmux.world)
      ensures enabled && weather.listing.ListingFails? ==> step == ReadFailed && Now() == old(Now())
      ensures enabled && (weather.listing.ListingEmpty? ||
                          (weather.listing.ListingAccurate? && old(tmux.world.panes) == map[])) ==>
                step == EmptyListing && Now() == old(Now())
      ensures enabled && weather.listing.ListingAccurate? && old(tmux.world.panes) != map[] ==>
                && step.Write? && step.sessions == sessions && step.palette == palette && step.glyphs == glyphs
                && (step.commands != [] ==> step.later == weather.later && step.cut == weather.cut)
                && lastWindows == if Completes(step) then step.wanted else map[]
    {
      if !enabled {
        lastWindows := map[];
        return Disabled;
      }
      var listed := tmux.ListPanes(weather.listing);
      if listed.None? {
        return ReadFailed;
      }
      if |listed.value| == 0 {
        return EmptyListing;
      }
      var commands, wanted := PlanHeaderSync(sessions, listed.value, palette, glyphs, enabled, lastWindows);
      step := Write(sessions, palette, glyphs, commands, wanted,
                    if commands == [] then tmux.world else weather.later, weather.cut);
      if |commands| > 0 {
        var ok := tmux.RunChain(commands, weather.later, weather.cut);
        if !ok {
          lastWindows := map[];
          return;
        }
      }
      lastWindows := wanted;
    }
  }
}
