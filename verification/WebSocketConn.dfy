/** One upgraded connection: its reader's reassembly loop and its writer, and what the loop
    returns for any fragmentation of a message (section 5.4 of RFC 6455). */
module WebSocketConn {
  import opened Wrappers
  import opened WebSocketFrames

  /** The bytes still to be read, the bytes written so far, how many more the peer takes
      before a write stalls into an error, and whether the connection is closed. */
  datatype Wire = Wire(input: Bytes, sent: Bytes, room: nat, closed: bool)

  datatype WriteError = WriteClosed | WriteStalled

  datatype Outcome = Message(text: Bytes) | ReadFailed(failure: Failure) | WriteFailed(error: WriteError)

  // ----- writing -----

  /** A stalled write leaves a part of the frame on the wire and closes the connection. */
  function Send(w: Wire, frame: Bytes): (r: (Wire, Option<WriteError>))
    ensures r.0.input == w.input
  {
    if w.closed then (w, Some(WriteClosed))
    else if |frame| <= w.room then (w.(sent := w.sent + frame, room := w.room - |frame|), None)
    else (w.(sent := w.sent + frame[..w.room], room := 0, closed := true), Some(WriteStalled))
  }

  predicate Sendable(opcode: int, payload: Bytes) {
    0 <= opcode < 16 && |payload| < 0x8000_0000_0000_0000
  }

  function ServerFrame(opcode: int, payload: Bytes): Bytes
    requires Sendable(opcode, payload)
  {
    EncodeFrame(Frame(true, opcode, payload), [])
  }

  // ----- reading -----

  datatype Progress = Done(outcome: Outcome) | More(message: Bytes, inFragment: bool)

  function HandleData(message: Bytes, fin: bool, payload: Bytes): Progress {
    if fin then Done(Message(message + payload)) else More(message + payload, true)
  }

  /** What the reassembly loop does with one frame. */
  function Handle(message: Bytes, inFragment: bool, w: Wire, f: Frame): (r: (Progress, Wire))
    requires |f.payload| <= MAX_MESSAGE_SIZE
    ensures r.1.input == w.input
  {
    if f.opcode == OP_PING then
      var (w', error) := Send(w, ServerFrame(OP_PONG, f.payload));
      (if error.Some? then Done(WriteFailed(error.value)) else More(message, inFragment), w')
    else if f.opcode == OP_PONG then (More(message, inFragment), w)
    else if f.opcode == OP_CLOSE then (Done(ReadFailed(Closed)), Send(w, ServerFrame(OP_CLOSE, [])).0.(closed := true))
    else if f.opcode == OP_TEXT || f.opcode == OP_BINARY then
      (if inFragment then Done(ReadFailed(DataInsideMessage)) else HandleData(message, f.fin, f.payload), w)
    else if f.opcode == OP_CONTINUATION then
      (if !inFragment then Done(ReadFailed(ContinuationOutside))
       else if |message| + |f.payload| > MAX_MESSAGE_SIZE then Done(ReadFailed(MessageTooLarge))
       else HandleData(message, f.fin, f.payload), w)
    else (Done(ReadFailed(UnsupportedOpcode(f.opcode))), w)
  }

  /** The next message, with the message so far. */
  function ReadFrom(message: Bytes, inFragment: bool, w: Wire): (Outcome, Wire)
    decreases |w.input|
  {
    match ParseFrame(w.input)
    case Bad(failure, rest) => (ReadFailed(failure), w.(input := rest))
    case Got(frame, rest) =>
      var (progress, w') := Handle(message, inFragment, w.(input := rest), frame);
      match progress
      case Done(outcome) => (outcome, w')
      case More(message', inFragment') => ReadFrom(message', inFragment', w')
  }

  class Conn {
    var input: Bytes
    var sent: Bytes
    var room: nat
    var closed: bool

    function Now(): Wire
      reads this
    {
      Wire(input, sent, room, closed)
    }

    constructor (input: Bytes, room: nat)
      ensures Now() == Wire(input, [], room, false)
    {
      this.input, sent, this.room, closed := input, [], room, false;
    }

    /** Reads exactly n bytes; at a short end it takes what is left and fails. */
    method ReadFull(n: nat) returns (bytes: Bytes, ok: bool)
      modifies this`input
      ensures ok <==> n <= |old(input)|
      ensures ok ==> bytes == old(input)[..n] && input == old(input)[n..]
      ensures !ok ==> input == []
    {
      if n <= |input| {
        bytes, input, ok := input[..n], input[n..], true;
      } else {
        bytes, input, ok := input, [], false;
      }
    }

    /** Reads one frame and undoes its masking. */
    method ReadFrame() returns (frame: Frame, failure: Option<Failure>)
      modifies this`input
      ensures match ParseFrame(old(input))
              case Got(f, rest) => failure.None? && frame == f && input == rest
              case Bad(e, rest) => failure == Some(e) && input == rest
    {
      frame := Frame(false, 0, []);
      var header, ok := ReadFull(2);
      if !ok {
        return frame, Some(Closed);
      }
      var fin, opcode, masked, length := header[0] >= 128, header[0] % 16, header[1] >= 128, header[1] % 128;
      var ext;
      if length == 126 {
        ext, ok := ReadFull(2);
        if !ok {
          return frame, Some(Truncated);
        }
        length := FromBigEndian(ext);
      } else if length == 127 {
        ext, ok := ReadFull(8);
        if !ok {
          return frame, Some(Truncated);
        }
        length := FromBigEndian(ext);
      }
      if length > MAX_MESSAGE_SIZE {
        return frame, Some(FrameTooLarge);
      }
      assert ParseFrame(old(input)) == ParseBody(fin, opcode, masked, length, input);
      frame, failure := ReadBody(fin, opcode, masked, length);
    }

    /** Reads the key, if any, and the payload. */
    method ReadBody(fin: bool, opcode: int, masked: bool, length: nat) returns (frame: Frame, failure: Option<Failure>)
      modifies this`input
      ensures match ParseBody(fin, opcode, masked, length, old(input))
              case Got(f, rest) => failure.None? && frame == f && input == rest
              case Bad(e, rest) => failure == Some(e) && input == rest
    {
      frame := Frame(false, 0, []);
      ghost var body := input;
      var key: Bytes, ok := [], true;
      if masked {
        key, ok := ReadFull(4);
        if !ok {
          return frame, Some(Truncated);
        }
      }
      var data;
      data, ok := ReadFull(length);
      if !ok {
        return frame, Some(Truncated);
      }
      var payload := new Byte[length](i requires 0 <= i < |data| => data[i]);
      assert payload[..] == data;
      if masked {
        UnmaskInPlace(payload, key);
      }
      assert data == body[|key|..|key| + length];
      return Frame(fin, opcode, payload[..]), None;
    }

    /** What the peer takes of one socket write. */
    method SocketWrite(bytes: Bytes) returns (ok: bool)
      modifies this`sent, this`room
      ensures ok <==> |bytes| <= old(room)
      ensures ok ==> sent == old(sent) + bytes && room == old(room) - |bytes|
      ensures !ok ==> sent == old(sent) + bytes[..old(room)] && room == 0
    {
      ok := |bytes| <= room;
      var n := if ok then |bytes| else room;
      sent := sent + bytes[..n];
      room := room - n;
    }

    /** Builds and writes one unmasked frame: header, then payload. */
    method WriteFrameBytes(opcode: int, payload: Bytes) returns (ok: bool)
      requires Sendable(opcode, payload) && !closed
      modifies this`sent, this`room
      ensures
        var (w, error) := Send(old(Now()), ServerFrame(opcode, payload));
        (ok <==> error.None?) && sent == w.sent && room == w.room
    {
      var n := |payload|;
      var header: Bytes := [128 + opcode];
      if n < 126 {
        header := header + [n];
      } else if n <= 0xFFFF {
        header := header + [126, n / 256, n % 256];
        assert BigEndian(n, 2) == [n / 256, n % 256];
      } else {
        header := header + [127];
        header := header + BigEndian(n, 8);
      }
      assert header + payload == ServerFrame(opcode, payload);
      ok := SocketWrite(header);
      if ok {
        ok := SocketWrite(payload);
      }
    }

    /** Writes one frame; a failed write closes the connection. */
    method WriteFrame(opcode: int, payload: Bytes) returns (error: Option<WriteError>)
      requires Sendable(opcode, payload)
      modifies this`sent, this`room, this`closed
      ensures (Now(), error) == Send(old(Now()), ServerFrame(opcode, payload))
    {
      if closed {
        return Some(WriteClosed);
      }
      var ok := WriteFrameBytes(opcode, payload);
      if !ok {
        closed := true;
        return Some(WriteStalled);
      }
      return None;
    }

    method WriteText(text: Bytes) returns (error: Option<WriteError>)
      requires Sendable(OP_TEXT, text)
      modifies this`sent, this`room, this`closed
      ensures (Now(), error) == Send(old(Now()), ServerFrame(OP_TEXT, text))
    {
      error := WriteFrame(OP_TEXT, text);
    }

    /** The next complete message; pings are answered on the way. */
    method ReadText() returns (outcome: Outcome)
      modifies this
      ensures (outcome, Now()) == ReadFrom([], false, old(Now()))
    {
      var message: Bytes := [];
      var inFragment := false;
      while true
        invariant ReadFrom(message, inFragment, Now()) == ReadFrom([], false, old(Now()))
        decreases |input|
      {
        var frame, failure := ReadFrame();
        if failure.Some? {
          return ReadFailed(failure.value);
        }
        if frame.opcode == OP_PING {
          var error := WriteFrame(OP_PONG, frame.payload);
          if error.Some? {
            return WriteFailed(error.value);
          }
        } else if frame.opcode == OP_PONG {
        } else if frame.opcode == OP_CLOSE {
          var _ := WriteFrame(OP_CLOSE, []);
          closed := true;
          return ReadFailed(Closed);
        } else if frame.opcode == OP_TEXT || frame.opcode == OP_BINARY {
          if inFragment {
            return ReadFailed(DataInsideMessage);
          }
          message := message + frame.payload;
          if frame.fin {
            return Message(message);
          }
          inFragment := true;
        } else if frame.opcode == OP_CONTINUATION {
          if !inFragment {
            return ReadFailed(ContinuationOutside);
          }
          message := message + frame.payload;
          if |message| > MAX_MESSAGE_SIZE {
            return ReadFailed(MessageTooLarge);
          }
          if frame.fin {
            return Message(message);
          }
        } else {
          return ReadFailed(UnsupportedOpcode(frame.opcode));
        }
      }
    }
  }

  /** What the reader does with a frame of each opcode of section 5.2 of RFC 6455: it answers a
      ping with a pong of the same data, and a failed answer ends the read; a pong changes
      nothing; a close is answered and closes; a text or binary frame begins a message, a
      continuation goes on with one of up to 1 MiB, and the final one ends it. */
  lemma HandledByOpcode(message: Bytes, inFragment: bool, w: Wire, f: Frame)
    requires |f.payload| <= 1048576
    ensures
      var (progress, w') := Handle(message, inFragment, w, f);
      var grown := message + f.payload;
      if f.opcode == 9 then
        var pong := EncodeFrame(Frame(true, 10, f.payload), []);
        if w.closed then progress == Done(WriteFailed(WriteClosed)) && w' == w
        else if |pong| <= w.room then
          progress == More(message, inFragment) && w' == w.(sent := w.sent + pong, room := w.room - |pong|)
        else
          && progress == Done(WriteFailed(WriteStalled))
          && w' == w.(sent := w.sent + pong[..w.room], room := 0, closed := true)
      else if f.opcode == 10 then progress == More(message, inFragment) && w' == w
      else if f.opcode == 8 then
        var bye := EncodeFrame(Frame(true, 8, []), []);
        && progress == Done(ReadFailed(Closed)) && w'.closed && w'.input == w.input
        && w'.sent == (if w.closed then w.sent else if |bye| <= w.room then w.sent + bye else w.sent + bye[..w.room])
      else
        && w' == w
        && progress ==
           if f.opcode in {1, 2} then
             if inFragment then Done(ReadFailed(DataInsideMessage))
             else if f.fin then Done(Message(grown)) else More(grown, true)
           else if f.opcode == 0 then
             if !inFragment then Done(ReadFailed(ContinuationOutside))
             else if |grown| > 1048576 then Done(ReadFailed(MessageTooLarge))
             else if f.fin then Done(Message(grown)) else More(grown, true)
           else Done(ReadFailed(UnsupportedOpcode(f.opcode)))
  {
  }

  // ----- fragmentation -----

  /** A frame as the client sends it, with its masking key or none. */
  datatype KeyedFrame = KeyedFrame(frame: Frame, key: Bytes)

  type ClientFrame = f: KeyedFrame | f.frame.Valid() && (f.key == [] || |f.key| == 4)
    witness KeyedFrame(Frame(true, OP_TEXT, []), [])

  function Encoded(fs: seq<ClientFrame>): Bytes
  {
    if |fs| == 0 then [] else EncodeFrame(fs[0].frame, fs[0].key) + Encoded(fs[1..])
  }

  predicate IsControl(f: Frame) {
    f.opcode == OP_PING || f.opcode == OP_PONG
  }

  /** The frames are one message, or the rest of one: a data frame, continuations up to the
      final one, and pings and pongs anywhere before it. */
  predicate OneMessage(fs: seq<ClientFrame>, inFragment: bool) {
    |fs| > 0 &&
    var f := fs[0].frame;
    if IsControl(f) then OneMessage(fs[1..], inFragment)
    else
      && (if inFragment then f.opcode == OP_CONTINUATION else f.opcode == OP_TEXT || f.opcode == OP_BINARY)
      && (if f.fin then |fs| == 1 else OneMessage(fs[1..], true))
  }

  function OwnData(f: Frame): Bytes {
    if IsControl(f) then [] else f.payload
  }

  function OwnPong(f: Frame): Bytes
    requires f.Valid()
  {
    if f.opcode == OP_PING then ServerFrame(OP_PONG, f.payload) else []
  }

  function Data(fs: seq<ClientFrame>): Bytes {
    if |fs| == 0 then [] else OwnData(fs[0].frame) + Data(fs[1..])
  }

  /** One pong of identical payload for each ping, in order. */
  function Pongs(fs: seq<ClientFrame>): Bytes
  {
    if |fs| == 0 then [] else OwnPong(fs[0].frame) + Pongs(fs[1..])
  }

  predicate FramesFit(fs: seq<ClientFrame>) {
    |fs| == 0 || (|fs[0].frame.payload| <= MAX_MESSAGE_SIZE && FramesFit(fs[1..]))
  }

  /** The reader's state within a message. */
  predicate Reading(message: Bytes, inFragment: bool) {
    |message| <= MAX_MESSAGE_SIZE && (!inFragment ==> message == [])
  }

  lemma ReadOne(message: Bytes, inFragment: bool, w: Wire)
    ensures ParseFrame(w.input).Bad? ==>
              ReadFrom(message, inFragment, w) ==
                  (ReadFailed(ParseFrame(w.input).failure), w.(input := ParseFrame(w.input).rest))
    ensures ParseFrame(w.input).Got? ==>
              var (progress, w') := Handle(message, inFragment, w.(input := ParseFrame(w.input).rest),
                                           ParseFrame(w.input).frame);
              ReadFrom(message, inFragment, w) ==
              if progress.Done? then (progress.outcome, w') else ReadFrom(progress.message, progress.inFragment, w')
  {
  }

  lemma Associates<X>(a: seq<X>, b: seq<X>, c: seq<X>)
    ensures a + b + c == a + (b + c)
  {
  }

  lemma EncodedSplits(fs: seq<ClientFrame>, rest: Bytes)
    requires |fs| > 0
    ensures Encoded(fs) + rest == EncodeFrame(fs[0].frame, fs[0].key) + (Encoded(fs[1..]) + rest)
  {
    Associates(EncodeFrame(fs[0].frame, fs[0].key), Encoded(fs[1..]), rest);
  }

  lemma FirstFrame(fs: seq<ClientFrame>, rest: Bytes)
    requires |fs| > 0
    ensures |fs[0].frame.payload| > MAX_MESSAGE_SIZE ==>
              ParseFrame(Encoded(fs) + rest).Bad? && ParseFrame(Encoded(fs) + rest).failure == FrameTooLarge
    ensures |fs[0].frame.payload| <= MAX_MESSAGE_SIZE ==>
              ParseFrame(Encoded(fs) + rest) == Got(fs[0].frame, Encoded(fs[1..]) + rest)
  {
    EncodedSplits(fs, rest);
    FrameRoundTrip(fs[0].frame, fs[0].key, Encoded(fs[1..]) + rest);
  }

  /** Of pings and pongs only a ping is answered. */
  lemma PongIsSent(message: Bytes, inFragment: bool, w: Wire, f: Frame)
    requires IsControl(f) && f.Valid() && |f.payload| <= MAX_MESSAGE_SIZE
    requires !w.closed && |OwnPong(f)| <= w.room
    ensures Handle(message, inFragment, w, f) ==
            (More(message, inFragment), w.(sent := w.sent + OwnPong(f), room := w.room - |OwnPong(f)|))
  {
    assert w.sent + [] == w.sent;
  }

  /** A ping or pong leaves the message alone. */
  lemma ControlIsHandled(message: Bytes, inFragment: bool, w: Wire, fs: seq<ClientFrame>)
    requires |fs| > 0 && IsControl(fs[0].frame) && |fs[0].frame.payload| <= MAX_MESSAGE_SIZE
    requires !w.closed && |Pongs(fs)| <= w.room
    ensures
      var (progress, w') := Handle(message, inFragment, w, fs[0].frame);
      && progress == More(message, inFragment) && !w'.closed && w'.input == w.input
      && |Pongs(fs[1..])| <= w'.room && w'.room - |Pongs(fs[1..])| == w.room - |Pongs(fs)|
      && w'.sent + Pongs(fs[1..]) == w.sent + Pongs(fs)
    ensures Data(fs) == Data(fs[1..])
  {
    PongsSplit(w.sent, fs);
    PongIsSent(message, inFragment, w, fs[0].frame);
  }

  lemma PongsSplit(sent: Bytes, fs: seq<ClientFrame>)
    requires |fs| > 0
    ensures sent + Pongs(fs) == sent + OwnPong(fs[0].frame) + Pongs(fs[1..])
    ensures |Pongs(fs)| == |OwnPong(fs[0].frame)| + |Pongs(fs[1..])|
  {
    Associates(sent, OwnPong(fs[0].frame), Pongs(fs[1..]));
  }

  /** A data frame in its place grows the message, and ends it when it is final. */
  lemma DataIsHandled(message: Bytes, inFragment: bool, w: Wire, fs: seq<ClientFrame>)
    requires OneMessage(fs, inFragment) && !IsControl(fs[0].frame) && Reading(message, inFragment)
    requires |fs[0].frame.payload| <= MAX_MESSAGE_SIZE
    ensures
      var grown := message + fs[0].frame.payload;
      && message + Data(fs) == grown + Data(fs[1..]) && Pongs(fs) == Pongs(fs[1..])
      && Handle(message, inFragment, w, fs[0].frame) ==
         (if |grown| > MAX_MESSAGE_SIZE then Done(ReadFailed(MessageTooLarge))
          else HandleData(message, fs[0].frame.fin, fs[0].frame.payload), w)
  {
    var payload := fs[0].frame.payload;
    assert Data(fs) == payload + Data(fs[1..]);
    assert message + payload + Data(fs[1..]) == message + (payload + Data(fs[1..]));
  }

  /** What a whole read ends with. */
  predicate IsWhole(result: (Outcome, Wire), fits: bool, whole: Bytes, end: Wire) {
    if fits && |whole| <= MAX_MESSAGE_SIZE then result == (Message(whole), end)
    else result.0 == ReadFailed(FrameTooLarge) || result.0 == ReadFailed(MessageTooLarge)
  }

  function End(w: Wire, fs: seq<ClientFrame>, rest: Bytes): Wire
    requires |Pongs(fs)| <= w.room
  {
    Wire(rest, w.sent + Pongs(fs), w.room - |Pongs(fs)|, false)
  }

  /** A first frame that fits is handled, and the rest is read from behind it. */
  lemma FirstIsHandled(message: Bytes, inFragment: bool, w: Wire, fs: seq<ClientFrame>, rest: Bytes)
    requires |fs| > 0 && |fs[0].frame.payload| <= MAX_MESSAGE_SIZE && w.input == Encoded(fs) + rest
    ensures
      var (progress, w') := Handle(message, inFragment, w.(input := Encoded(fs[1..]) + rest), fs[0].frame);
      ReadFrom(message, inFragment, w) ==
      if progress.Done? then (progress.outcome, w') else ReadFrom(progress.message, progress.inFragment, w')
  {
    FirstFrame(fs, rest);
    ReadOne(message, inFragment, w);
  }

  lemma ControlIsRead(message: Bytes, inFragment: bool, w: Wire, fs: seq<ClientFrame>, rest: Bytes) returns (w': Wire)
    requires |fs| > 0 && IsControl(fs[0].frame) && |fs[0].frame.payload| <= MAX_MESSAGE_SIZE
    requires w.input == Encoded(fs) + rest && !w.closed && |Pongs(fs)| <= w.room
    ensures w'.input == Encoded(fs[1..]) + rest && !w'.closed && |Pongs(fs[1..])| <= w'.room
    ensures End(w', fs[1..], rest) == End(w, fs, rest) && Data(fs) == Data(fs[1..])
    ensures ReadFrom(message, inFragment, w) == ReadFrom(message, inFragment, w')
  {
    var behind := w.(input := Encoded(fs[1..]) + rest);
    FirstIsHandled(message, inFragment, w, fs, rest);
    ControlIsHandled(message, inFragment, behind, fs);
    w' := Handle(message, inFragment, behind, fs[0].frame).1;
  }

  /** What the read of a data frame that fits comes to. */
  lemma DataIsRead(message: Bytes, inFragment: bool, w: Wire, fs: seq<ClientFrame>, rest: Bytes)
    requires OneMessage(fs, inFragment) && !IsControl(fs[0].frame) && Reading(message, inFragment)
    requires |fs[0].frame.payload| <= MAX_MESSAGE_SIZE && w.input == Encoded(fs) + rest
    ensures
      var behind := w.(input := Encoded(fs[1..]) + rest);
      var grown := message + fs[0].frame.payload;
      ReadFrom(message, inFragment, w) ==
      if |grown| > MAX_MESSAGE_SIZE then (ReadFailed(MessageTooLarge), behind)
      else if fs[0].frame.fin then (Message(grown), behind)
      else ReadFrom(grown, true, behind)
  {
    FirstIsHandled(message, inFragment, w, fs, rest);
    DataIsHandled(message, inFragment, w.(input := Encoded(fs[1..]) + rest), fs);
  }

  lemma FinalIsWhole(result: (Outcome, Wire), message: Bytes, w: Wire, fs: seq<ClientFrame>, rest: Bytes)
    requires |fs| == 1 && !IsControl(fs[0].frame) && !w.closed && |Pongs(fs)| <= w.room
    requires |fs[0].frame.payload| <= MAX_MESSAGE_SIZE
    requires
      var grown := message + fs[0].frame.payload;
      var behind := w.(input := Encoded(fs[1..]) + rest);
      result == if |grown| > MAX_MESSAGE_SIZE then (ReadFailed(MessageTooLarge), behind) else (Message(grown), behind)
    ensures IsWhole(result, FramesFit(fs), message + Data(fs), End(w, fs, rest))
  {
    assert fs[1..] == [] && FramesFit(fs);
    assert Encoded(fs[1..]) + rest == rest;
    assert fs[0].frame.payload + [] == fs[0].frame.payload;
    assert Data(fs) == fs[0].frame.payload;
    assert Pongs(fs) == [] && w.sent + [] == w.sent;
    assert End(w, fs, rest) == w.(input := rest);
  }

  lemma MoreIsWhole(result: (Outcome, Wire), message: Bytes, w: Wire, fs: seq<ClientFrame>, rest: Bytes)
    requires |fs| > 0 && !IsControl(fs[0].frame) && !w.closed && |Pongs(fs)| <= w.room
    requires |fs[0].frame.payload| <= MAX_MESSAGE_SIZE && Pongs(fs) == Pongs(fs[1..])
    requires
      var grown := message + fs[0].frame.payload;
      if |grown| > MAX_MESSAGE_SIZE then result.0 == ReadFailed(MessageTooLarge)
      else IsWhole(result, FramesFit(fs[1..]), grown + Data(fs[1..]),
                   End(w.(input := Encoded(fs[1..]) + rest), fs[1..], rest))
    ensures IsWhole(result, FramesFit(fs), message + Data(fs), End(w, fs, rest))
  {
    DataSplits(message, fs);
    assert End(w.(input := Encoded(fs[1..]) + rest), fs[1..], rest) == End(w, fs, rest);
  }

  lemma DataSplits(message: Bytes, fs: seq<ClientFrame>)
    requires |fs| > 0 && !IsControl(fs[0].frame)
    ensures message + Data(fs) == message + fs[0].frame.payload + Data(fs[1..])
    ensures |message + Data(fs)| >= |message + fs[0].frame.payload|
  {
    Associates(message, fs[0].frame.payload, Data(fs[1..]));
  }

  /** Any fragmentation of a message, with pings and pongs between its frames and masked or
      not, is returned whole, with one pong of identical payload per ping in order and the
      reader at the next message, exactly when the message and each frame are at most 1 MiB;
      otherwise the read fails as too large. */
  lemma {:induction false} FragmentsAreReadWhole(message: Bytes, inFragment: bool, w: Wire, fs: seq<ClientFrame>,
                                                 rest: Bytes)
    requires OneMessage(fs, inFragment) && Reading(message, inFragment)
    requires w.input == Encoded(fs) + rest && !w.closed && |Pongs(fs)| <= w.room
    ensures IsWhole(ReadFrom(message, inFragment, w), FramesFit(fs), message + Data(fs), End(w, fs, rest))
    decreases |fs|
  {
    var result := ReadFrom(message, inFragment, w);
    var f, tail := fs[0].frame, fs[1..];
    if |f.payload| > MAX_MESSAGE_SIZE {
      FirstFrame(fs, rest);
      ReadOne(message, inFragment, w);
    } else if IsControl(f) {
      var w' := ControlIsRead(message, inFragment, w, fs, rest);
      FragmentsAreReadWhole(message, inFragment, w', tail, rest);
    } else {
      DataIsRead(message, inFragment, w, fs, rest);
      if f.fin {
        FinalIsWhole(result, message, w, fs, rest);
      } else {
        if |message + f.payload| <= MAX_MESSAGE_SIZE {
          FragmentsAreReadWhole(message + f.payload, true, w.(input := Encoded(tail) + rest), tail, rest);
        }
        MoreIsWhole(result, message, w, fs, rest);
      }
    }
  }

  // ----- and nothing else is returned -----

  /** The input starts with the frames, masked or not, and then the rest. */
  predicate ParsesTo(input: Bytes, fs: seq<ClientFrame>, rest: Bytes) {
    if |fs| == 0 then input == rest
    else
      var parsed := ParseFrame(input);
      parsed.Got? && parsed.frame == fs[0].frame && ParsesTo(parsed.rest, fs[1..], rest)
  }

  /** The frames read as one message of the given text. */
  ghost predicate IsMessage(message: Bytes, inFragment: bool, w: Wire, fs: seq<ClientFrame>, text: Bytes, w': Wire) {
    && OneMessage(fs, inFragment) && FramesFit(fs)
    && text == message + Data(fs) && |text| <= MAX_MESSAGE_SIZE
    && ParsesTo(w.input, fs, w'.input) && w'.sent == w.sent + Pongs(fs)
  }

  lemma LastFrameData(f: ClientFrame)
    requires !IsControl(f.frame) && |f.frame.payload| <= MAX_MESSAGE_SIZE
    ensures [f][1..] == [] && Data([f]) == f.frame.payload && Pongs([f]) == [] && FramesFit([f])
  {
    assert [f][1..] == [];
    assert f.frame.payload + [] == f.frame.payload;
  }

  lemma LastFrameOnly(message: Bytes, inFragment: bool, w: Wire, f: ClientFrame, text: Bytes, w': Wire)
    requires Reading(message, inFragment)
    requires ParseFrame(w.input).Got? && ParseFrame(w.input).frame == f.frame && |f.frame.payload| <= MAX_MESSAGE_SIZE
    requires Handle(message, inFragment, w.(input := ParseFrame(w.input).rest), f.frame) == (Done(Message(text)), w')
    ensures IsMessage(message, inFragment, w, [f], text, w')
  {
    assert !IsControl(f.frame);
    LastFrameData(f);
    assert w.sent + [] == w.sent;
    assert ParsesTo(ParseFrame(w.input).rest, [], w'.input);
  }

  lemma ParsedIsValid(s: Bytes)
    ensures ParseFrame(s).Got? ==> ParseFrame(s).frame.Valid()
  {
  }

  /** The frame has its place within a message and does not end it. */
  predicate Continues(f: Frame, inFragment: bool, inFragment': bool) {
    if IsControl(f) then inFragment' == inFragment
    else
      && inFragment' && !f.fin
      && (if inFragment then f.opcode == OP_CONTINUATION else f.opcode == OP_TEXT || f.opcode == OP_BINARY)
  }

  /** What a frame that does not end the read leaves for the rest. */
  lemma FrameBefore(message: Bytes, inFragment: bool, w: Wire, f: Frame, message': Bytes, inFragment': bool, w': Wire)
    requires Reading(message, inFragment) && f.Valid() && |f.payload| <= MAX_MESSAGE_SIZE
    requires Handle(message, inFragment, w, f) == (More(message', inFragment'), w')
    ensures Reading(message', inFragment') && Continues(f, inFragment, inFragment') && w'.input == w.input
    ensures message' == message + OwnData(f) && w'.sent == w.sent + OwnPong(f)
  {
    assert message + [] == message && w.sent + [] == w.sent;
  }

  lemma DataInFront(message: Bytes, f: ClientFrame, tail: seq<ClientFrame>)
    ensures message + Data([f] + tail) == message + OwnData(f.frame) + Data(tail)
  {
    var fs := [f] + tail;
    assert fs[0] == f && fs[1..] == tail;
    assert Data(fs) == OwnData(f.frame) + Data(tail);
  }

  lemma PongsInFront(sent: Bytes, f: ClientFrame, tail: seq<ClientFrame>)
    ensures sent + Pongs([f] + tail) == sent + OwnPong(f.frame) + Pongs(tail)
  {
    var fs := [f] + tail;
    assert fs[0] == f && fs[1..] == tail;
    assert Pongs(fs) == OwnPong(f.frame) + Pongs(tail);
  }

  lemma ShapeInFront(input: Bytes, f: ClientFrame, tail: seq<ClientFrame>, inFragment: bool, inFragment': bool,
                     rest: Bytes)
    requires ParseFrame(input).Got? && ParseFrame(input).frame == f.frame && |f.frame.payload| <= MAX_MESSAGE_SIZE
    requires Continues(f.frame, inFragment, inFragment') && OneMessage(tail, inFragment') && FramesFit(tail)
    requires ParsesTo(ParseFrame(input).rest, tail, rest)
    ensures OneMessage([f] + tail, inFragment) && FramesFit([f] + tail) && ParsesTo(input, [f] + tail, rest)
  {
    var fs := [f] + tail;
    assert fs[0] == f && fs[1..] == tail;
  }

  /** Conversely, whatever the peer sends, a returned text is the whole of one message: the
      bytes read are a data frame, its continuations up to the final one, and pings and pongs
      in between, all within the limits, and exactly the pongs were sent. */
  lemma {:induction false} OnlyWholeMessagesAreReturned(message: Bytes, inFragment: bool, w: Wire)
    returns (fs: seq<ClientFrame>)
    requires Reading(message, inFragment) && ReadFrom(message, inFragment, w).0.Message?
    ensures IsMessage(message, inFragment, w, fs, ReadFrom(message, inFragment, w).0.text,
                      ReadFrom(message, inFragment, w).1)
    decreases |w.input|
  {
    ReadOne(message, inFragment, w);
    ParsedIsValid(w.input);
    var parsed := ParseFrame(w.input);
    var f: ClientFrame := KeyedFrame(parsed.frame, []);
    var (progress, w1) := Handle(message, inFragment, w.(input := parsed.rest), parsed.frame);
    var result := ReadFrom(message, inFragment, w);
    if progress.Done? {
      fs := [f];
      LastFrameOnly(message, inFragment, w, f, result.0.text, result.1);
    } else {
      FrameBefore(message, inFragment, w.(input := parsed.rest), parsed.frame, progress.message,
                  progress.inFragment, w1);
      var tail := OnlyWholeMessagesAreReturned(progress.message, progress.inFragment, w1);
      fs := [f] + tail;
      ShapeInFront(w.input, f, tail, inFragment, progress.inFragment, result.1.input);
      DataInFront(message, f, tail);
      PongsInFront(w.sent, f, tail);
    }
  }
}
