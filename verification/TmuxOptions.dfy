/** The tmux server as the header sync sees it: live windows with their agent options, and
    command chains that stop at the first command naming a dead window. */
module TmuxOptions {

  datatype Opt = AgentGlyph | AgentFg | AgentType

  type Options = map<Opt, string>

  type Windows = map<string, Options>

  datatype Command =
    | SetOption(window: string, opt: Opt, value: string)
    | UnsetOption(window: string, opt: Opt)

  /** The option triple of one window. */
  datatype WindowState = WindowState(glyph: string, fg: string, agent: string)

  function TripleOf(s: WindowState): Options {
    map[AgentGlyph := s.glyph, AgentFg := s.fg, AgentType := s.agent]
  }

  function SetTriple(window: string, s: WindowState): seq<Command> {
    [SetOption(window, AgentGlyph, s.glyph), SetOption(window, AgentFg, s.fg), SetOption(window, AgentType, s.agent)]
  }

  function UnsetTriple(window: string): seq<Command> {
    [UnsetOption(window, AgentGlyph), UnsetOption(window, AgentFg), UnsetOption(window, AgentType)]
  }

  function Apply(options: Options, c: Command): Options {
    match c
    case SetOption(_, opt, value) => options[opt := value]
    case UnsetOption(_, opt) => options - {opt}
  }

  function ApplyAll(options: Options, commands: seq<Command>): Options
    decreases |commands|
  {
    if |commands| == 0 then options else ApplyAll(Apply(options, commands[0]), commands[1..])
  }

  /** One chained invocation: it runs the commands in order, and aborts at a dead window. */
  function Exec(windows: Windows, commands: seq<Command>): (Windows, bool) {
    if |commands| == 0 then (windows, true)
    else
      var c := commands[0];
      if c.window !in windows then (windows, false)
      else Exec(windows[c.window := Apply(windows[c.window], c)], commands[1..])
  }

  /** The commands of a chain that name one window. */
  function ForWindow(commands: seq<Command>, window: string): seq<Command> {
    if |commands| == 0 then []
    else (if commands[0].window == window then [commands[0]] else []) + ForWindow(commands[1..], window)
  }

  lemma {:induction false} ForWindowConcat(a: seq<Command>, b: seq<Command>, window: string)
    ensures ForWindow(a + b, window) == ForWindow(a, window) + ForWindow(b, window)
  {
    if |a| == 0 {
      assert a + b == b;
    } else {
      ForWindowConcat(a[1..], b, window);
      FirstForWindow(a, b, window);
    }
  }

  lemma FirstForWindow(a: seq<Command>, b: seq<Command>, window: string)
    requires |a| > 0
    ensures ForWindow(a + b, window) ==
            (if a[0].window == window then [a[0]] else []) + ForWindow(a[1..] + b, window)
  {
    assert (a + b)[1..] == a[1..] + b;
  }

  lemma ThreeForWindow(a: Command, b: Command, c: Command, window: string)
    requires a.window == b.window == c.window
    ensures ForWindow([a, b, c], window) == if a.window == window then [a, b, c] else []
  {
    assert [a, b, c][1..] == [b, c] && [b, c][1..] == [c] && [c][1..] == [];
    assert ForWindow([c], window) == if a.window == window then [c] else [];
    assert ForWindow([b, c], window) == if a.window == window then [b, c] else [];
  }

  lemma ThreeApply(options: Options, a: Command, b: Command, c: Command)
    ensures ApplyAll(options, [a, b, c]) == Apply(Apply(Apply(options, a), b), c)
  {
    assert [a, b, c][1..] == [b, c] && [b, c][1..] == [c] && [c][1..] == [];
    assert ApplyAll(Apply(Apply(options, a), b), [c]) == Apply(Apply(Apply(options, a), b), c);
    assert ApplyAll(Apply(options, a), [b, c]) == Apply(Apply(Apply(options, a), b), c);
  }

  lemma TripleForWindow(window: string, s: WindowState, other: string)
    ensures ForWindow(SetTriple(window, s), other) == if other == window then SetTriple(window, s) else []
    ensures ForWindow(UnsetTriple(window), other) == if other == window then UnsetTriple(window) else []
  {
    ThreeForWindow(SetOption(window, AgentGlyph, s.glyph), SetOption(window, AgentFg, s.fg),
                   SetOption(window, AgentType, s.agent), other);
    ThreeForWindow(UnsetOption(window, AgentGlyph), UnsetOption(window, AgentFg),
                   UnsetOption(window, AgentType), other);
  }

  /** Whatever options a window carried, three sets leave exactly the triple and three
      unsets leave nothing. */
  lemma TriplesApply(options: Options, window: string, s: WindowState)
    ensures ApplyAll(options, SetTriple(window, s)) == TripleOf(s)
    ensures ApplyAll(options, UnsetTriple(window)) == map[]
  {
    ThreeApply(options, SetOption(window, AgentGlyph, s.glyph), SetOption(window, AgentFg, s.fg),
               SetOption(window, AgentType, s.agent));
    ThreeApply(options, UnsetOption(window, AgentGlyph), UnsetOption(window, AgentFg), UnsetOption(window, AgentType));
    var filled := ApplyAll(options, SetTriple(window, s));
    forall o: Opt
      ensures o in filled && o in TripleOf(s) && filled[o] == TripleOf(s)[o]
      ensures o !in ApplyAll(options, UnsetTriple(window))
    {
      match o case AgentGlyph => case AgentFg => case AgentType =>
    }
  }

  /** A chain leaves the set of windows alone and, when it completes, changes each window by
      exactly the commands that name it, however those of different windows are mixed. */
  lemma {:induction false} ExecPerWindow(windows: Windows, commands: seq<Command>, window: string)
    ensures Exec(windows, commands).0.Keys == windows.Keys
    ensures window in windows && Exec(windows, commands).1 ==>
              Exec(windows, commands).0[window] == ApplyAll(windows[window], ForWindow(commands, window))
    decreases |commands|
  {
    if |commands| > 0 && commands[0].window in windows {
      var c := commands[0];
      ExecPerWindow(windows[c.window := Apply(windows[c.window], c)], commands[1..], window);
      if c.window == window {
        assert ForWindow(commands, window) == [c] + ForWindow(commands[1..], window);
        assert ForWindow(commands, window)[1..] == ForWindow(commands[1..], window);
      } else {
        assert ForWindow(commands, window) == ForWindow(commands[1..], window);
      }
    }
  }

  /** A chain completes exactly when every window it names is alive. */
  lemma {:induction false} ExecCompletesIff(windows: Windows, commands: seq<Command>)
    ensures Exec(windows, commands).1 <==> forall c :: c in commands ==> c.window in windows
    decreases |commands|
  {
    if |commands| > 0 {
      assert forall c :: c in commands <==> c == commands[0] || c in commands[1..];
      var c := commands[0];
      if c.window in windows {
        ExecCompletesIff(windows[c.window := Apply(windows[c.window], c)], commands[1..]);
      }
    }
  }

  lemma {:induction false} NamedWindows(commands: seq<Command>, c: Command)
    requires c in commands
    ensures ForWindow(commands, c.window) != []
  {
    if commands[0].window != c.window {
      NamedWindows(commands[1..], c);
    }
  }
}
