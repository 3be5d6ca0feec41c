/** The frame format of sections 5.2 and 5.3 of RFC 6455, written by one side and parsed by
    the other. */
module WebSocketFrames {

  type Byte = b: int | 0 <= b < 256

  type Bytes = seq<Byte>

  const MAX_MESSAGE_SIZE := 0x10_0000

  const OP_CONTINUATION := 0
  const OP_TEXT := 1
  const OP_BINARY := 2
  const OP_CLOSE := 8
  const OP_PING := 9
  const OP_PONG := 10

  /** An opcode has four bits. */
  datatype Frame = Frame(fin: bool, opcode: int, payload: Bytes) {
    predicate Valid() {
      0 <= opcode < 16 && |payload| < 0x8000_0000_0000_0000
    }
  }

  // ----- masking -----

  function XorBits(a: nat, b: nat, bits: nat): nat {
    if bits == 0 then 0
    else 2 * XorBits(a / 2, b / 2, bits - 1) + if a % 2 == b % 2 then 0 else 1
  }

  function Pow2(n: nat): nat {
    if n == 0 then 1 else 2 * Pow2(n - 1)
  }

  lemma {:induction false} XorBitsFits(a: nat, b: nat, bits: nat)
    ensures XorBits(a, b, bits) < Pow2(bits)
  {
    if bits > 0 {
      XorBitsFits(a / 2, b / 2, bits - 1);
    }
  }

  lemma {:induction false} XorBitsTwice(a: nat, b: nat, bits: nat)
    requires a < Pow2(bits)
    ensures XorBits(XorBits(a, b, bits), b, bits) == a
  {
    if bits > 0 {
      XorBitsTwice(a / 2, b / 2, bits - 1);
      var x := XorBits(a, b, bits);
      assert x / 2 == XorBits(a / 2, b / 2, bits - 1);
    }
  }

  lemma EightBits()
    ensures Pow2(8) == 256
  {
    assert Pow2(4) == 16;
  }

  function Xor(a: Byte, b: Byte): Byte {
    XorBitsFits(a, b, 8);
    EightBits();
    XorBits(a, b, 8)
  }

  /** Bit j of a, from the lowest. */
  predicate Bit(a: nat, j: nat) {
    if j == 0 then a % 2 == 1 else Bit(a / 2, j - 1)
  }

  lemma Halved(x: nat, d: nat)
    requires d < 2
    ensures (2 * x + d) / 2 == x && (2 * x + d) % 2 == d
  {
  }

  lemma {:induction false} XorBit(a: nat, b: nat, bits: nat, j: nat)
    requires j < bits
    ensures Bit(XorBits(a, b, bits), j) <==> Bit(a, j) != Bit(b, j)
  {
    var high, low := XorBits(a / 2, b / 2, bits - 1), if a % 2 == b % 2 then 0 else 1;
    assert XorBits(a, b, bits) == 2 * high + low;
    Halved(high, low);
    if j > 0 {
      XorBit(a / 2, b / 2, bits - 1, j - 1);
    }
  }

  /** Byte i of the data is combined with byte i mod 4 of the key; no key, no change. */
  function Mask(data: Bytes, key: Bytes): (r: Bytes)
    requires key == [] || |key| == 4
    ensures |r| == |data|
  {
    if key == [] then data else seq(|data|, i requires 0 <= i < |data| => Xor(data[i], key[i % 4]))
  }

  lemma MaskingIsUndone(data: Bytes, key: Bytes)
    requires key == [] || |key| == 4
    ensures Mask(Mask(data, key), key) == data
  {
    if key != [] {
      forall i | 0 <= i < |data|
        ensures Xor(Xor(data[i], key[i % 4]), key[i % 4]) == data[i]
      {
        EightBits();
        XorBitsTwice(data[i], key[i % 4], 8);
      }
      assert Mask(Mask(data, key), key) == data;
    }
  }

  /** A bit of a masked byte is set exactly when the data's and the key's differ; without a
      key the data stays. */
  lemma MaskedBit(data: Bytes, key: Bytes, i: nat, j: nat)
    requires |key| == 4 && i < |data| && j < 8
    ensures Bit(Mask(data, key)[i], j) <==> Bit(data[i], j) != Bit(key[i % 4], j)
    ensures Mask(data, []) == data
  {
    XorBit(data[i], key[i % 4], 8, j);
  }

  method UnmaskInPlace(payload: array<Byte>, key: Bytes)
    requires |key| == 4
    modifies payload
    ensures payload[..] == Mask(old(payload[..]), key)
  {
    for i := 0 to payload.Length
      invariant forall j :: 0 <= j < i ==> payload[j] == Xor(old(payload[j]), key[j % 4])
      invariant forall j :: i <= j < payload.Length ==> payload[j] == old(payload[j])
    {
      payload[i] := Xor(payload[i], key[i % 4]);
    }
  }

  // ----- big-endian lengths -----

  function Pow256(k: nat): nat {
    if k == 0 then 1 else 256 * Pow256(k - 1)
  }

  function BigEndian(n: nat, k: nat): (r: Bytes)
    ensures |r| == k
  {
    if k == 0 then [] else BigEndian(n / 256, k - 1) + [n % 256]
  }

  function FromBigEndian(s: Bytes): nat {
    if |s| == 0 then 0 else 256 * FromBigEndian(s[..|s| - 1]) + s[|s| - 1]
  }

  lemma {:induction false} BigEndianIsRead(n: nat, k: nat)
    requires n < Pow256(k)
    ensures FromBigEndian(BigEndian(n, k)) == n
  {
    if k > 0 {
      BigEndianIsRead(n / 256, k - 1);
      assert BigEndian(n, k)[..k - 1] == BigEndian(n / 256, k - 1);
    }
  }

  lemma LengthsFit()
    ensures Pow256(2) == 0x1_0000 && Pow256(8) == 0x1_0000_0000_0000_0000
  {
    assert Pow256(4) == 0x1_0000_0000;
    assert Pow256(6) == 0x1_0000_0000_0000;
  }

  // ----- writing -----

  /** The seven length bits and the extended length of a payload. */
  function LengthCode(n: nat): (int, Bytes) {
    if n < 126 then (n, [])
    else if n <= 0xFFFF then (126, BigEndian(n, 2))
    else (127, BigEndian(n, 8))
  }

  function FirstByte(f: Frame): Byte
    requires f.Valid()
  {
    (if f.fin then 128 else 0) + f.opcode
  }

  function SecondByte(f: Frame, key: Bytes): Byte
    requires f.Valid()
  {
    (if key == [] then 0 else 128) + LengthCode(|f.payload|).0
  }

  function EncodeFrame(f: Frame, key: Bytes): Bytes
    requires f.Valid() && (key == [] || |key| == 4)
  {
    [FirstByte(f), SecondByte(f, key)] + LengthCode(|f.payload|).1 + key + Mask(f.payload, key)
  }

  /** The values of two and of eight digits in base 256. */
  function Two(a: int, b: int): int {
    256 * a + b
  }

  function Eight(a: int, b: int, c: int, d: int, e: int, f: int, g: int, h: int): int {
    256 * (256 * (256 * (256 * (256 * Two(Two(a, b), c) + d) + e) + f) + g) + h
  }

  lemma ReadSnoc(s: Bytes, d: Byte)
    ensures FromBigEndian(s + [d]) == 256 * FromBigEndian(s) + d
  {
    assert (s + [d])[..|s|] == s;
  }

  lemma TwoAreRead(a: Byte, b: Byte)
    ensures FromBigEndian([a, b]) == Two(a, b)
  {
    ReadSnoc([], a);
    ReadSnoc([a], b);
  }

  lemma EightAreRead(a: Byte, b: Byte, c: Byte, d: Byte, e: Byte, f: Byte, g: Byte, h: Byte)
    ensures FromBigEndian([a, b, c, d, e, f, g, h]) == Eight(a, b, c, d, e, f, g, h)
  {
    var four := [a, b] + [c] + [d];
    TwoAreRead(a, b);
    ReadSnoc([a, b], c);
    ReadSnoc([a, b] + [c], d);
    ReadSnoc(four, e);
    ReadSnoc(four + [e], f);
    ReadSnoc(four + [e] + [f], g);
    ReadSnoc(four + [e] + [f] + [g], h);
    assert [a, b, c, d, e, f, g, h] == four + [e] + [f] + [g] + [h];
  }

  lemma CodeIsRead(n: nat)
    requires 126 <= n < 0x8000_0000_0000_0000
    ensures
      var ext := LengthCode(n).1;
      if n < 65536 then |ext| == 2 && n == Two(ext[0], ext[1])
      else |ext| == 8 && n == Eight(ext[0], ext[1], ext[2], ext[3], ext[4], ext[5], ext[6], ext[7])
  {
    var ext := LengthCode(n).1;
    LengthsFit();
    if n < 65536 {
      BigEndianIsRead(n, 2);
      TwoAreRead(ext[0], ext[1]);
      assert ext == [ext[0], ext[1]];
    } else {
      BigEndianIsRead(n, 8);
      EightAreRead(ext[0], ext[1], ext[2], ext[3], ext[4], ext[5], ext[6], ext[7]);
      assert ext == [ext[0], ext[1], ext[2], ext[3], ext[4], ext[5], ext[6], ext[7]];
    }
  }

  /** The bytes of a frame: the final bit and the opcode, the mask bit and the length in seven
      bits, in two more bytes or in eight, the high ones first, then the key and the data. */
  lemma FrameBytes(f: Frame, key: Bytes)
    requires f.Valid() && (key == [] || |key| == 4)
    ensures
      var s, n := EncodeFrame(f, key), |f.payload|;
      var h := if n < 126 then 2 else if n < 65536 then 4 else 10;
      && |s| == h + |key| + n && s[h..] == key + Mask(f.payload, key)
      && s[0] == (if f.fin then 128 else 0) + f.opcode
      && s[1] - (if key == [] then 0 else 128) == (if n < 126 then n else if n < 65536 then 126 else 127)
      && (h == 4 ==> n == Two(s[2], s[3]))
      && (h == 10 ==> n == Eight(s[2], s[3], s[4], s[5], s[6], s[7], s[8], s[9]))
  {
    if |f.payload| >= 126 {
      CodeIsRead(|f.payload|);
    }
  }

  // ----- parsing -----

  datatype Failure = Closed | Truncated | FrameTooLarge | DataInsideMessage | ContinuationOutside | MessageTooLarge
                   | UnsupportedOpcode(opcode: int)

  datatype Parsed = Got(frame: Frame, rest: Bytes) | Bad(failure: Failure, rest: Bytes)

  function ExtendedLength(len7: int): nat {
    if len7 == 126 then 2 else if len7 == 127 then 8 else 0
  }

  /** Parses behind the header bytes: the key, if any, and a payload of the given length. */
  function ParseBody(fin: bool, opcode: int, masked: bool, length: nat, body: Bytes): Parsed {
    var k := if masked then 4 else 0;
    if |body| < k + length then Bad(Truncated, [])
    else Got(Frame(fin, opcode, Mask(body[k..k + length], body[..k])), body[k + length..])
  }

  function ParseFrame(s: Bytes): (r: Parsed)
    ensures r.Got? ==> |r.rest| < |s| && |r.frame.payload| <= MAX_MESSAGE_SIZE
  {
    if |s| < 2 then Bad(Closed, [])
    else
      var len7, tail := s[1] % 128, s[2..];
      var ext := ExtendedLength(len7);
      if |tail| < ext then Bad(Truncated, [])
      else
        var length := if ext == 0 then len7 else FromBigEndian(tail[..ext]);
        if length > MAX_MESSAGE_SIZE then Bad(FrameTooLarge, tail[ext..])
        else ParseBody(s[0] >= 128, s[0] % 16, s[1] >= 128, length, tail[ext..])
  }

  lemma LengthIsRead(n: nat)
    requires n < 0x8000_0000_0000_0000
    ensures
      var (len7, ext) := LengthCode(n);
      0 <= len7 < 128 && |ext| == ExtendedLength(len7) && (if ext == [] then len7 == n else FromBigEndian(ext) == n)
  {
    LengthsFit();
    if 126 <= n <= 0xFFFF {
      BigEndianIsRead(n, 2);
    } else if n > 0xFFFF {
      BigEndianIsRead(n, 8);
    }
  }

  lemma BodyIsRead(f: Frame, key: Bytes, rest: Bytes)
    requires key == [] || |key| == 4
    ensures ParseBody(f.fin, f.opcode, key != [], |f.payload|, key + Mask(f.payload, key) + rest) == Got(f, rest)
  {
    var body := key + Mask(f.payload, key) + rest;
    var k := |key|;
    assert body[..k] == key;
    assert body[k..k + |f.payload|] == Mask(f.payload, key);
    assert body[k + |f.payload|..] == rest;
    MaskingIsUndone(f.payload, key);
  }

  lemma TailIsRead(s: Bytes, ext: Bytes, body: Bytes)
    requires |s| >= 2 && s[2..] == ext + body && |ext| == ExtendedLength(s[1] % 128)
    ensures
      var length := if ext == [] then s[1] % 128 else FromBigEndian(ext);
      ParseFrame(s) == if length > MAX_MESSAGE_SIZE then Bad(FrameTooLarge, body)
                       else ParseBody(s[0] >= 128, s[0] % 16, s[1] >= 128, length, body)
  {
    var tail := s[2..];
    assert tail[..|ext|] == ext && tail[|ext|..] == body;
  }

  lemma AfterTwo<X>(a: X, b: X, ext: seq<X>, body: seq<X>)
    ensures
      var s := [a, b] + ext + body;
      s[0] == a && s[1] == b && s[2..] == ext + body
  {
  }

  /** Splitting a written frame after its two first bytes. */
  lemma HeaderIsRead(b0: Byte, b1: Byte, ext: Bytes, body: Bytes)
    requires |ext| == ExtendedLength(b1 % 128)
    ensures
      var s := [b0, b1] + ext + body;
      var length := if ext == [] then b1 % 128 else FromBigEndian(ext);
      ParseFrame(s) == if length > MAX_MESSAGE_SIZE then Bad(FrameTooLarge, body)
                       else ParseBody(b0 >= 128, b0 % 16, b1 >= 128, length, body)
  {
    var s := [b0, b1] + ext + body;
    AfterTwo(b0, b1, ext, body);
    TailIsRead(s, ext, body);
  }

  lemma Regroup<X>(head: seq<X>, ext: seq<X>, key: seq<X>, data: seq<X>, rest: seq<X>)
    ensures head + ext + key + data + rest == head + ext + (key + data + rest)
  {
  }

  lemma HeaderBits(f: Frame, key: Bytes)
    requires f.Valid()
    ensures FirstByte(f) >= 128 <==> f.fin
    ensures FirstByte(f) % 16 == f.opcode
    ensures SecondByte(f, key) >= 128 <==> key != []
    ensures SecondByte(f, key) % 128 == LengthCode(|f.payload|).0
  {
  }

  /** A written frame is read back whole and leaves the reader at the next one, exactly when
      its payload is at most 1 MiB; a longer one is refused. */
  lemma FrameRoundTrip(f: Frame, key: Bytes, rest: Bytes)
    requires f.Valid() && (key == [] || |key| == 4)
    ensures |f.payload| <= 1048576 ==> ParseFrame(EncodeFrame(f, key) + rest) == Got(f, rest)
    ensures |f.payload| > 1048576 ==>
              ParseFrame(EncodeFrame(f, key) + rest) == Bad(FrameTooLarge, key + Mask(f.payload, key) + rest)
  {
    var ext := LengthCode(|f.payload|).1;
    LengthIsRead(|f.payload|);
    HeaderBits(f, key);
    Regroup([FirstByte(f), SecondByte(f, key)], ext, key, Mask(f.payload, key), rest);
    HeaderIsRead(FirstByte(f), SecondByte(f, key), ext, key + Mask(f.payload, key) + rest);
    BodyIsRead(f, key, rest);
  }

  /** A stream that ends within the first two bytes or the extended length. */
  lemma CutHeader(s: Bytes)
    ensures |s| < 2 ==> ParseFrame(s) == Bad(Closed, [])
    ensures 2 <= |s| < 2 + ExtendedLength(s[1] % 128) ==> ParseFrame(s) == Bad(Truncated, [])
  {
  }

  lemma CutBody(fin: bool, opcode: int, masked: bool, length: nat, body: Bytes)
    ensures |body| < (if masked then 4 else 0) + length ==>
              ParseBody(fin, opcode, masked, length, body) == Bad(Truncated, [])
  {
  }

  lemma CutAt<X>(a: X, b: X, ext: seq<X>, body: seq<X>, n: nat)
    requires n < 2 + |ext| + |body|
    ensures
      var s := ([a, b] + ext + body)[..n];
      && |s| == n && (n >= 2 ==> s[1] == b)
      && (n >= 2 + |ext| ==> s == [a, b] + ext + body[..n - 2 - |ext|])
  {
  }

  /** A stream that ends inside a frame the reader would take is a truncated one, or a closed
      one when not even the first two bytes are there; nothing is left of it. */
  lemma CutFrameIsTruncated(f: Frame, key: Bytes, n: nat)
    requires f.Valid() && (key == [] || |key| == 4) && |f.payload| <= 1048576 && n < |EncodeFrame(f, key)|
    ensures ParseFrame(EncodeFrame(f, key)[..n]) == Bad(if n < 2 then Closed else Truncated, [])
  {
    var b0, b1, ext := FirstByte(f), SecondByte(f, key), LengthCode(|f.payload|).1;
    var body := key + Mask(f.payload, key);
    LengthIsRead(|f.payload|);
    HeaderBits(f, key);
    assert EncodeFrame(f, key) == [b0, b1] + ext + body;
    CutAt(b0, b1, ext, body, n);
    CutHeader(([b0, b1] + ext + body)[..n]);
    if n >= 2 + |ext| {
      var rest := body[..n - 2 - |ext|];
      HeaderIsRead(b0, b1, ext, rest);
      CutBody(f.fin, f.opcode, key != [], |f.payload|, rest);
    }
  }
}
