/** The spawn command's quoting, and the shell's reading of it by sections 2.2.1, 2.2.2 and
    2.3 of the POSIX.1-2017 Shell Command Language. */
module ShellQuoting {
  import opened Wrappers

  // ----- the shell's tokeniser -----

  /** The first simple command of a text: its words after quote removal, and the text behind
      the separator that ended it, None at the end of the text. */
  datatype Lexed =
    | Words(words: seq<string>, rest: Option<string>)
    | Unterminated
    | Expands

  predicate IsBlank(c: char) {
    c == ' ' || c == '\t'
  }

  predicate IsSeparator(c: char) {
    c == ';' || c == '\n'
  }

  /** Characters whose unquoted use starts an operator, an expansion, or a comment; the model
      reads no further. */
  predicate IsSpecial(c: char) {
    c in "|&<>()$`\"*?[#~=%"
  }

  function Finish(word: Option<string>): seq<string> {
    if word.Some? then [word.value] else []
  }

  function Grow(word: Option<string>, more: string): Option<string> {
    if word.Some? then Some(word.value + more) else Some(more)
  }

  /** Reads on with the words so far, the word under construction, and whether a single quote
      is open. */
  function Lex(text: string, quoted: bool, word: Option<string>, words: seq<string>): Lexed
    decreases |text|
  {
    if |text| == 0 then
      if quoted then Unterminated else Words(words + Finish(word), None)
    else
      var c, rest := text[0], text[1..];
      if quoted then
        if c == '\'' then Lex(rest, false, word, words)
        else Lex(rest, true, Grow(word, [c]), words)
      else if c == '\'' then Lex(rest, true, Grow(word, ""), words)
      else if c == '\\' then
        if |rest| == 0 then Unterminated
        else if rest[0] == '\n' then Lex(rest[1..], false, word, words)
        else Lex(rest[1..], false, Grow(word, [rest[0]]), words)
      else if IsBlank(c) then Lex(rest, false, None, words + Finish(word))
      else if IsSeparator(c) then Words(words + Finish(word), Some(rest))
      else if IsSpecial(c) then Expands
      else Lex(rest, false, Grow(word, [c]), words)
  }

  function Tokens(text: string): Lexed {
    Lex(text, false, None, [])
  }

  // ----- the quoting -----

  /** Every single quote becomes '\'' . */
  function EscapeQuotes(arg: string): string {
    if |arg| == 0 then ""
    else (if arg[0] == '\'' then "'\\''" else [arg[0]]) + EscapeQuotes(arg[1..])
  }

  function ShellQuote(arg: string): string {
    "'" + EscapeQuotes(arg) + "'"
  }

  function JoinQuoted(argv: seq<string>): string {
    if |argv| == 0 then ""
    else if |argv| == 1 then ShellQuote(argv[0])
    else JoinQuoted(argv[..|argv| - 1]) + " " + ShellQuote(argv[|argv| - 1])
  }

  // ----- the shell undoes the quoting -----

  lemma LexOne(c: char, tail: string, quoted: bool, word: Option<string>, words: seq<string>)
    ensures quoted && c != '\'' ==> Lex([c] + tail, true, word, words) == Lex(tail, true, Grow(word, [c]), words)
    ensures quoted && c == '\'' ==> Lex([c] + tail, true, word, words) == Lex(tail, false, word, words)
    ensures !quoted && c == '\'' ==> Lex([c] + tail, false, word, words) == Lex(tail, true, Grow(word, ""), words)
    ensures !quoted && IsBlank(c) ==>
              Lex([c] + tail, false, word, words) == Lex(tail, false, None, words + Finish(word))
    ensures !quoted && IsSeparator(c) ==> Lex([c] + tail, false, word, words) == Words(words + Finish(word), Some(tail))
    ensures !quoted && c != '\'' && c != '\\' && !IsBlank(c) && !IsSeparator(c) && !IsSpecial(c) ==>
              Lex([c] + tail, false, word, words) == Lex(tail, false, Grow(word, [c]), words)
  {
    assert ([c] + tail)[1..] == tail;
  }

  lemma {:induction false} EscapedIsRead(arg: string, tail: string, read: string, words: seq<string>)
    ensures Lex(EscapeQuotes(arg) + "'" + tail, true, Some(read), words) == Lex(tail, false, Some(read + arg), words)
  {
    if |arg| == 0 {
      assert EscapeQuotes(arg) + "'" + tail == "'" + tail;
      assert ("'" + tail)[1..] == tail;
      assert read + arg == read;
    } else {
      var more := EscapeQuotes(arg[1..]) + "'" + tail;
      EscapedIsRead(arg[1..], tail, read + [arg[0]], words);
      assert read + [arg[0]] + arg[1..] == read + arg;
      if arg[0] == '\'' {
        QuoteIsRead(more, read, words);
        assert EscapeQuotes(arg) + "'" + tail == "'\\''" + more;
      } else {
        assert EscapeQuotes(arg) + "'" + tail == [arg[0]] + more;
        assert ([arg[0]] + more)[1..] == more;
      }
    }
  }

  /** The four characters that stand for a single quote inside single quotes. */
  lemma QuoteIsRead(more: string, read: string, words: seq<string>)
    ensures Lex("'\\''" + more, true, Some(read), words) == Lex(more, true, Some(read + "'"), words)
  {
    var text := "'\\''" + more;
    assert text[1..] == "\\''" + more;
    assert text[1..][1..] == "''" + more;
    assert text[1..][1..][1..] == "'" + more;
    assert ("'" + more)[1..] == more;
    assert read + "'" + "" == read + "'";
    assert Lex("'" + more, false, Some(read + "'"), words) == Lex(more, true, Some(read + "'"), words);
    assert Lex("\\''" + more, false, Some(read), words) == Lex("'" + more, false, Some(read + "'"), words);
  }

  lemma QuotedIsRead(arg: string, tail: string, words: seq<string>)
    ensures Lex(ShellQuote(arg) + tail, false, None, words) == Lex(tail, false, Some(arg), words)
  {
    var inside := EscapeQuotes(arg) + "'" + tail;
    assert ShellQuote(arg) + tail == ['\''] + inside;
    LexOne('\'', inside, false, None, words);
    EscapedIsRead(arg, tail, "", words);
    assert "" + arg == arg;
  }

  /** Quoted arguments joined by blanks are read back as those arguments, whatever they
      contain: the separator behind them is the first one the shell sees. */
  lemma {:induction false} JoinedIsRead(argv: seq<string>, tail: string)
    requires |argv| > 0
    ensures Lex(JoinQuoted(argv) + tail, false, None, []) ==
            Lex(tail, false, Some(argv[|argv| - 1]), argv[..|argv| - 1])
  {
    var last := argv[|argv| - 1];
    if |argv| == 1 {
      QuotedIsRead(last, tail, []);
    } else {
      var init := argv[..|argv| - 1];
      JoinedIsRead(init, [' '] + (ShellQuote(last) + tail));
      JoinSplits(argv, tail);
      NextIsRead(init, last, tail);
    }
  }

  lemma JoinSplits(argv: seq<string>, tail: string)
    requires |argv| > 1
    ensures JoinQuoted(argv) + tail ==
            JoinQuoted(argv[..|argv| - 1]) + ([' '] + (ShellQuote(argv[|argv| - 1]) + tail))
  {
    Regroup(JoinQuoted(argv[..|argv| - 1]), [' '], ShellQuote(argv[|argv| - 1]), tail);
  }

  lemma Regroup(a: string, b: string, c: string, d: string)
    ensures a + b + c + d == a + (b + (c + d))
  {
  }

  /** Behind a finished word and a blank comes the next argument. */
  lemma NextIsRead(init: seq<string>, last: string, tail: string)
    requires |init| > 0
    ensures Lex([' '] + (ShellQuote(last) + tail), false, Some(init[|init| - 1]), init[..|init| - 1]) ==
            Lex(tail, false, Some(last), init)
  {
    LexOne(' ', ShellQuote(last) + tail, false, Some(init[|init| - 1]), init[..|init| - 1]);
    assert init[..|init| - 1] + [init[|init| - 1]] == init;
    QuotedIsRead(last, tail, init);
  }

  // ----- the spawn command -----

  const SHELL_PREFIX := "sh -c "

  /** What the wrapper does behind the agent's command. */
  const AFTER_AGENT :=
    " status=$?; printf \"\\n[tcm] agent exited with status %d\\n\" \"$status\"; exec \"${SHELL:-sh}\""

  /** An override replaces the agent's own argv; the prompt comes last either way. */
  function SpawnAgentArgv(agent: string, prompt: string, override: seq<string>): seq<string> {
    (if |override| == 0 then [agent, "--"] else override) + [prompt]
  }

  predicate IsPlain(c: char) {
    c != '\'' && c != '\\' && !IsBlank(c) && !IsSeparator(c) && !IsSpecial(c)
  }

  lemma PlainWordIsRead(word: string, tail: string, words: seq<string>)
    requires |word| == 2 && IsPlain(word[0]) && IsPlain(word[1])
    ensures Lex(word + ([' '] + tail), false, None, words) == Lex(tail, false, None, words + [word])
  {
    assert word + ([' '] + tail) == [word[0]] + ([word[1]] + ([' '] + tail));
    LexOne(word[0], [word[1]] + ([' '] + tail), false, None, words);
    LexOne(word[1], [' '] + tail, false, Some([word[0]]), words);
    assert [word[0]] + [word[1]] == word;
    LexOne(' ', tail, false, Some(word), words);
  }

  lemma PrefixWords(tail: string)
    ensures SHELL_PREFIX + tail == "sh" + ([' '] + ("-c" + ([' '] + tail)))
    ensures [] + ["sh"] == ["sh"] && ["sh"] + ["-c"] == ["sh", "-c"]
  {
  }

  lemma PrefixIsRead(tail: string)
    ensures Lex(SHELL_PREFIX + tail, false, None, []) == Lex(tail, false, None, ["sh", "-c"])
  {
    PrefixWords(tail);
    PlainWordIsRead("sh", "-c" + ([' '] + tail), []);
    PlainWordIsRead("-c", tail, ["sh"]);
  }

  /** Read by a shell, the command is sh, -c and a wrapper; read by that inner shell up to
      its first separator, the wrapper is the argv. */
  ghost predicate RunsExactly(command: string, argv: seq<string>, after: string) {
    var outer := Tokens(command);
    && outer.Words? && outer.rest.None? && |outer.words| == 3 && outer.words[0] == "sh" && outer.words[1] == "-c"
    && Tokens(outer.words[2]) == Words(argv, Some(after))
  }

  lemma WrapperIsRead(argv: seq<string>, after: string)
    requires |argv| > 0
    ensures Tokens(JoinQuoted(argv) + ([';'] + after)) == Words(argv, Some(after))
  {
    var init, last := argv[..|argv| - 1], argv[|argv| - 1];
    var tail := [';'] + after;
    JoinedIsRead(argv, tail);
    assert Lex(tail, false, Some(last), init) == Words(argv, Some(after)) by {
      LexOne(';', after, false, Some(last), init);
      assert init + [last] == argv;
    }
  }

  lemma CommandIsRead(wrapper: string)
    ensures Tokens(SHELL_PREFIX + ShellQuote(wrapper)) == Words(["sh", "-c"] + [wrapper], None)
  {
    PrefixIsRead(ShellQuote(wrapper));
    QuotedIsRead(wrapper, "", ["sh", "-c"]);
    assert ShellQuote(wrapper) + "" == ShellQuote(wrapper);
  }

  /** Quoting nested twice is undone by the two shells, for every argv whatever it holds. */
  lemma NestedQuotingIsUndone(argv: seq<string>, after: string)
    requires |argv| > 0
    ensures RunsExactly(SHELL_PREFIX + ShellQuote(JoinQuoted(argv) + ([';'] + after)), argv, after)
  {
    WrapperIsRead(argv, after);
    CommandIsRead(JoinQuoted(argv) + ([';'] + after));
  }

  /** The command runs the agent with the prompt as the last word behind "--", or the override
      with the prompt behind it. */
  method BuildSpawnAgentCommand(agent: string, prompt: string, override: seq<string>) returns (command: string)
    ensures override == [] ==> RunsExactly(command, [agent, "--", prompt], AFTER_AGENT)
    ensures override != [] ==> RunsExactly(command, override + [prompt], AFTER_AGENT)
  {
    var argv := SpawnAgentArgv(agent, prompt, override);
    var inner := "";
    for i := 0 to |argv|
      invariant inner == JoinQuoted(argv[..i])
    {
      assert argv[..i + 1][..i] == argv[..i];
      inner := inner + (if i > 0 then " " else "") + ShellQuote(argv[i]);
    }
    assert argv[..|argv|] == argv;
    var wrapper := inner + ([';'] + AFTER_AGENT);
    NestedQuotingIsUndone(argv, AFTER_AGENT);
    command := SHELL_PREFIX + ShellQuote(wrapper);
  }

  /** Different argument lists never give the same command. */
  lemma CommandDeterminesArgv(a: seq<string>, b: seq<string>, after: string)
    requires |a| > 0 && |b| > 0
    requires ShellQuote(JoinQuoted(a) + ([';'] + after)) == ShellQuote(JoinQuoted(b) + ([';'] + after))
    ensures a == b
  {
    NestedQuotingIsUndone(a, after);
    NestedQuotingIsUndone(b, after);
  }
}
