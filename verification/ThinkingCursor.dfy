/** The incremental transcript reader: however the transcript's writes split its lines, the
    calls together count what one pass over the same bytes counts. */
module ThinkingCursor {
  import opened Wrappers

  const MAX_SCAN_BYTES := 8 * 1024 * 1024

  // ----- counting -----

  /** What a transcript line decodes to: the types are those of its message's content items. */
  datatype Entry = Entry(isSidechain: bool, role: string, types: seq<string>)

  /** The JSON decoding of one line, None for text that does not decode. */
  type Decoder = string -> Option<Entry>

  predicate IsThinking(kind: string) {
    kind == "thinking" || kind == "redacted_thinking"
  }

  function ThinkingTypes(types: seq<string>): nat {
    if |types| == 0 then 0
    else ThinkingTypes(types[..|types| - 1]) + if IsThinking(types[|types| - 1]) then 1 else 0
  }

  predicate HasAt(line: string, part: string, i: int) {
    0 <= i <= |line| && part <= line[i..]
  }

  predicate Contains(line: string, part: string) {
    exists i :: 0 <= i <= |line| && HasAt(line, part, i)
  }

  const MARK := "thinking\""

  function LineBlocks(line: string, decode: Decoder): nat {
    if !Contains(line, MARK) then 0
    else
      match decode(line)
      case None => 0
      case Some(e) => if e.isSidechain || e.role != "assistant" then 0 else ThinkingTypes(e.types)
  }

  /** Where the first line of the text ends. */
  function FirstNewline(text: string): (r: nat)
    ensures r <= |text|
    ensures r < |text| ==> text[r] == '\n'
    ensures forall i :: 0 <= i < r ==> text[i] != '\n'
  {
    if |text| == 0 || text[0] == '\n' then 0 else 1 + FirstNewline(text[1..])
  }

  /** The blocks of all lines of the text, the one behind the last newline included. */
  function Blocks(text: string, decode: Decoder): nat
    decreases |text|
  {
    var end := FirstNewline(text);
    if end == |text| then LineBlocks(text, decode)
    else LineBlocks(text[..end], decode) + Blocks(text[end + 1..], decode)
  }

  method CountThinkingBlocks(lines: string, decode: Decoder) returns (n: nat)
    ensures n == Blocks(lines, decode)
  {
    n := 0;
    var rest := lines;
    while true
      invariant n + Blocks(rest, decode) == Blocks(lines, decode)
      decreases |rest|
    {
      var end := FirstNewline(rest);
      var inLine := CountLine(rest[..end], decode);
      n := n + inLine;
      if end == |rest| {
        assert rest[..end] == rest;
        return;
      }
      rest := rest[end + 1..];
    }
  }

  method CountLine(line: string, decode: Decoder) returns (n: nat)
    ensures n == LineBlocks(line, decode)
  {
    if !Contains(line, MARK) {
      return 0;
    }
    var decoded := decode(line);
    if decoded.None? || decoded.value.isSidechain || decoded.value.role != "assistant" {
      return 0;
    }
    var types := decoded.value.types;
    n := 0;
    for i := 0 to |types|
      invariant n == ThinkingTypes(types[..i])
    {
      assert types[..i + 1][..i] == types[..i];
      if types[i] == "thinking" || types[i] == "redacted_thinking" {
        n := n + 1;
      }
    }
    assert types[..|types|] == types;
  }

  /** Lines end at newlines: a text that ends in one adds up with whatever follows it. */
  lemma {:induction false} BlocksAddUp(a: string, b: string, decode: Decoder)
    requires a == "" || a[|a| - 1] == '\n'
    ensures Blocks(a + b, decode) == Blocks(a, decode) + Blocks(b, decode)
    decreases |a|
  {
    if a == "" {
      assert a + b == b;
    } else {
      var end := FirstNewline(a);
      SameFirstLine(a, b);
      assert (a + b)[..end] == a[..end];
      assert (a + b)[end + 1..] == a[end + 1..] + b;
      BlocksAddUp(a[end + 1..], b, decode);
    }
  }

  lemma SameFirstLine(a: string, b: string)
    requires a != "" && a[|a| - 1] == '\n'
    ensures FirstNewline(a) < |a| && FirstNewline(a + b) == FirstNewline(a)
  {
    var i, j := FirstNewline(a), FirstNewline(a + b);
    assert i < |a|;
    assert (a + b)[i] == '\n';
    assert j <= i;
    assert (a + b)[j] == a[j];
  }

  // ----- the cursor -----

  /** What one call finds: no file, or the content when its size was read, whether the read
      itself fails, and how many bytes it gets. */
  datatype Access = Missing | Readable(content: string, fails: bool, got: nat)

  /** Just past the last newline of the text, 0 without one. */
  function PastLastNewline(text: string): (r: nat)
    ensures r <= |text|
    ensures r > 0 ==> text[r - 1] == '\n'
    ensures forall i :: r <= i < |text| ==> text[i] != '\n'
  {
    if |text| == 0 then 0
    else if text[|text| - 1] == '\n' then |text|
    else PastLastNewline(text[..|text| - 1])
  }

  function ReadBytes(offset: nat, content: string, got: nat): string
    requires offset <= |content|
  {
    if got < |content| - offset then content[offset..offset + got] else content[offset..]
  }

  /** The offset after a call, and the complete lines it counts. */
  function Advance(offset: nat, access: Access): (nat, string) {
    match access
    case Missing => (offset, "")
    case Readable(content, fails, got) =>
      if |content| < offset || |content| - offset > MAX_SCAN_BYTES then (|content|, "")
      else if |content| == offset || fails then (offset, "")
      else
        var bytes := ReadBytes(offset, content, got);
        (offset + PastLastNewline(bytes), bytes[..PastLastNewline(bytes)])
  }

  /** A transcript path as the hook names it, with what the path library says about it. */
  datatype HookPath = HookPath(given: string, absolute: bool, base: string, cleaned: string)

  class Cursor {
    var path: string
    var offset: nat

    constructor ()
      ensures path == "" && offset == 0
    {
      path, offset := "", 0;
    }

    /** Starts at the current end of the thread's own file; the first accepted path stays. */
    method TrackTranscript(hook: HookPath, threadId: string, size: Option<nat>)
      modifies this
      ensures
        var accepted := old(path) == "" && hook.given != "" && hook.absolute && hook.base == threadId + ".jsonl";
        && path == (if accepted then hook.cleaned else old(path))
        && offset == if accepted && size.Some? then size.value else old(offset)
    {
      if path != "" || hook.given == "" || !hook.absolute || hook.base != threadId + ".jsonl" {
        return;
      }
      path := hook.cleaned;
      if size.Some? {
        offset := size.value;
      }
    }

    /** The blocks written since the last call. */
    method NewThinkingBlocks(access: Access, decode: Decoder) returns (n: nat)
      modifies this`offset
      ensures path == "" ==> n == 0 && offset == old(offset)
      ensures path != "" ==>
                offset == Advance(old(offset), access).0 && n == Blocks(Advance(old(offset), access).1, decode)
    {
      if path == "" || access.Missing? {
        return 0;
      }
      var size := |access.content|;
      if size < offset || size - offset > MAX_SCAN_BYTES {
        offset := size;
        return 0;
      }
      if size == offset || access.fails {
        return 0;
      }
      var buf := ReadBytes(offset, access.content, access.got);
      var end := PastLastNewline(buf);
      if end == 0 {
        return 0;
      }
      offset := offset + end;
      n := CountThinkingBlocks(buf[..end], decode);
    }
  }

  // ----- any sequence of calls -----

  function OffsetAfter(start: nat, calls: seq<Access>): nat {
    if |calls| == 0 then start else Advance(OffsetAfter(start, calls[..|calls| - 1]), calls[|calls| - 1]).0
  }

  /** The sum of the counts the calls return. */
  function Total(start: nat, calls: seq<Access>, decode: Decoder): nat {
    if |calls| == 0 then 0
    else
      var init := calls[..|calls| - 1];
      Total(start, init, decode) + Blocks(Advance(OffsetAfter(start, init), calls[|calls| - 1]).1, decode)
  }

  /** The call sees a prefix of the transcript, at most 8 MiB ahead of the cursor. */
  predicate Ahead(offset: nat, call: Access, transcript: string) {
    call.Readable? ==>
      call.content <= transcript && offset <= |call.content| && |call.content| - offset <= MAX_SCAN_BYTES
  }

  ghost predicate Grows(start: nat, calls: seq<Access>, transcript: string) {
    && start <= |transcript|
    && forall n :: 0 <= n < |calls| ==> Ahead(OffsetAfter(start, calls[..n]), calls[n], transcript)
  }

  lemma CallReadsLines(offset: nat, access: Access, transcript: string)
    requires offset <= |transcript| && Ahead(offset, access, transcript)
    ensures
      var (next, lines) := Advance(offset, access);
      && offset <= next <= |transcript| && lines == transcript[offset..next]
      && (next > offset ==> transcript[next - 1] == '\n')
  {
    if access.Readable? && access.content != transcript[..offset] && !access.fails && |access.content| > offset {
      var bytes := ReadBytes(offset, access.content, access.got);
      var end := PastLastNewline(bytes);
      assert bytes == transcript[offset..offset + |bytes|];
      assert bytes[..end] == transcript[offset..offset + end];
      if end > 0 {
        assert bytes[end - 1] == transcript[offset + end - 1];
      }
    } else {
      assert transcript[offset..offset] == "";
    }
  }

  lemma FewerCalls(start: nat, calls: seq<Access>, transcript: string, n: nat)
    requires n <= |calls| && Grows(start, calls, transcript)
    ensures Grows(start, calls[..n], transcript)
    ensures n < |calls| ==> Ahead(OffsetAfter(start, calls[..n]), calls[n], transcript)
  {
    var fewer := calls[..n];
    forall k | 0 <= k < n
      ensures fewer[..k] == calls[..k] && fewer[k] == calls[k]
    {
    }
  }

  /** Counting on from a moment at which the lines so far are counted. */
  lemma CountOn(start: nat, offset: nat, next: nat, transcript: string, decode: Decoder)
    requires start <= offset <= next <= |transcript| && (offset == start || transcript[offset - 1] == '\n')
    ensures Blocks(transcript[start..next], decode) ==
            Blocks(transcript[start..offset], decode) + Blocks(transcript[offset..next], decode)
  {
    var before := transcript[start..offset];
    assert transcript[start..next] == before + transcript[offset..next];
    assert before != "" ==> before[|before| - 1] == transcript[offset - 1];
    BlocksAddUp(before, transcript[offset..next], decode);
  }

  /** The total is what one pass over the bytes from the start to the cursor counts, and the
      cursor stands at the start or just past a newline. */
  ghost predicate Counted(start: nat, offset: nat, total: nat, transcript: string, decode: Decoder) {
    && start <= offset <= |transcript|
    && total == Blocks(transcript[start..offset], decode)
    && (offset == start || transcript[offset - 1] == '\n')
  }

  lemma CountedOn(start: nat, offset: nat, next: nat, total: nat, transcript: string, decode: Decoder)
    requires Counted(start, offset, total, transcript, decode)
    requires offset <= next <= |transcript| && (next > offset ==> transcript[next - 1] == '\n')
    ensures Counted(start, next, total + Blocks(transcript[offset..next], decode), transcript, decode)
  {
    CountOn(start, offset, next, transcript, decode);
  }

  lemma NothingCounted(start: nat, transcript: string, decode: Decoder)
    requires start <= |transcript|
    ensures Counted(start, start, 0, transcript, decode)
  {
    assert transcript[start..start] == "";
  }

  lemma OneMoreCall(start: nat, offset: nat, total: nat, call: Access, transcript: string, decode: Decoder)
    requires Counted(start, offset, total, transcript, decode) && Ahead(offset, call, transcript)
    ensures Counted(start, Advance(offset, call).0, total + Blocks(Advance(offset, call).1, decode), transcript, decode)
  {
    CallReadsLines(offset, call, transcript);
    CountedOn(start, offset, Advance(offset, call).0, total, transcript, decode);
  }

  lemma LastCall(start: nat, calls: seq<Access>, decode: Decoder)
    requires |calls| > 0
    ensures
      var init, last := calls[..|calls| - 1], calls[|calls| - 1];
      var call := Advance(OffsetAfter(start, init), last);
      && OffsetAfter(start, calls) == call.0
      && Total(start, calls, decode) == Total(start, init, decode) + Blocks(call.1, decode)
  {
  }

  /** However many calls there are, and however they split the lines, their counts add up to
      one pass over the bytes from the start to the cursor. */
  lemma {:induction false} CallsCountOnce(start: nat, calls: seq<Access>, transcript: string, decode: Decoder)
    requires Grows(start, calls, transcript)
    ensures Counted(start, OffsetAfter(start, calls), Total(start, calls, decode), transcript, decode)
  {
    if |calls| == 0 {
      NothingCounted(start, transcript, decode);
    } else {
      var init, last := calls[..|calls| - 1], calls[|calls| - 1];
      var offset, total := OffsetAfter(start, init), Total(start, init, decode);
      LastCall(start, calls, decode);
      FewerCalls(start, calls, transcript, |calls| - 1);
      CallsCountOnce(start, init, transcript, decode);
      OneMoreCall(start, offset, total, last, transcript, decode);
    }
  }

  /** The cursor never goes back between two moments. */
  lemma {:induction false} CursorNeverGoesBack(start: nat, calls: seq<Access>, transcript: string, m: nat, n: nat)
    requires Grows(start, calls, transcript) && m <= n <= |calls|
    ensures OffsetAfter(start, calls[..m]) <= OffsetAfter(start, calls[..n]) <= |transcript|
    decreases n
  {
    if n == 0 {
    } else {
      CursorNeverGoesBack(start, calls, transcript, if m < n then m else n - 1, n - 1);
      assert calls[..n][..n - 1] == calls[..n - 1];
      FewerCalls(start, calls, transcript, n - 1);
      CallReadsLines(OffsetAfter(start, calls[..n - 1]), calls[n - 1], transcript);
    }
  }

  /** A full read leaves no complete line behind. */
  lemma FullReadCatchesUp(offset: nat, content: string, got: nat)
    requires offset <= |content| && |content| - offset <= MAX_SCAN_BYTES && got >= |content| - offset
    ensures '\n' !in content[Advance(offset, Readable(content, false, got)).0..]
  {
    if offset < |content| {
      var bytes := content[offset..];
      var end := PastLastNewline(bytes);
      assert content[offset + end..] == bytes[end..];
    }
  }

  // ----- one line and one call, read off their text -----

  lemma {:induction false} TypesAreCounted(types: seq<string>)
    ensures ThinkingTypes(types) == |set i: nat | i < |types| && types[i] in {"thinking", "redacted_thinking"}|
  {
    if |types| > 0 {
      var n := |types| - 1;
      TypesAreCounted(types[..n]);
      var before := set i: nat | i < n && types[..n][i] in {"thinking", "redacted_thinking"};
      var all := set i: nat | i < |types| && types[i] in {"thinking", "redacted_thinking"};
      assert all == before + if types[n] in {"thinking", "redacted_thinking"} then {n} else {};
    }
  }

  /** A line counts its thinking items, redacted or not, when it mentions thinking", decodes, and
      is the assistant's own; any other line counts nothing. */
  lemma LineCounts(line: string, decode: Decoder)
    requires '\n' !in line
    ensures
      var marked := exists i :: 0 <= i <= |line| - 9 && IsMarked(line, i);
      Blocks(line, decode) ==
      match decode(line)
      case None => 0
      case Some(e) =>
        if marked && !e.isSidechain && e.role == "assistant"
        then |set i: nat | i < |e.types| && e.types[i] in {"thinking", "redacted_thinking"}| else 0
  {
    assert FirstNewline(line) == |line|;
    assert Blocks(line, decode) == LineBlocks(line, decode);
    MarkIsFound(line);
    if decode(line).Some? {
      TypesAreCounted(decode(line).value.types);
    }
  }

  predicate IsMarked(line: string, i: int) {
    0 <= i && i + 9 <= |line| && line[i..i + 9] == "thinking\""
  }

  lemma MarkIsFound(line: string)
    ensures Contains(line, MARK) <==> exists i :: 0 <= i <= |line| - 9 && IsMarked(line, i)
  {
    forall i | 0 <= i <= |line|
      ensures HasAt(line, MARK, i) <==> IsMarked(line, i)
    {
      if i + 9 <= |line| {
        assert line[i..][..9] == line[i..i + 9];
      }
    }
  }

  /** One call leaves the cursor when it finds no file, nothing new, or a failing read; it
      jumps to the end of a file that has shrunk or is more than 8 MiB ahead; else it counts
      the lines up to the last newline of the bytes it gets and stops there. */
  lemma CallOutcome(offset: nat, access: Access)
    ensures
      var (next, lines) := Advance(offset, access);
      match access
      case Missing => next == offset && lines == ""
      case Readable(content, fails, got) =>
        if |content| < offset || |content| > offset + 8388608 then next == |content| && lines == ""
        else if |content| == offset || fails then next == offset && lines == ""
        else
          var end := if offset + got < |content| then offset + got else |content|;
          && offset <= next <= end && lines == content[offset..next]
          && (next > offset ==> content[next - 1] == '\n')
          && (forall i :: next <= i < end ==> content[i] != '\n')
  {
    if access.Readable? && offset < |access.content| <= offset + 8388608 && !access.fails {
      var bytes := ReadBytes(offset, access.content, access.got);
      var end := PastLastNewline(bytes);
      assert forall i :: 0 <= i < |bytes| ==> bytes[i] == access.content[offset + i];
      assert forall i :: offset + end <= i < offset + |bytes| ==> access.content[i] == bytes[i - offset];
      assert bytes[..end] == access.content[offset..offset + end];
    }
  }
}
