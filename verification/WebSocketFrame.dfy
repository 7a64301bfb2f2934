/** WebSocket::makeFrame and WebSocket::getFrame, against the framing of RFC 6455, sections 5.2 and 5.3. */
module WebSocketFrame {
  import BitPatterns
  import opened Bytes
  import opened Wrappers

  datatype FrameType =
    | ERROR_FRAME
    | INCOMPLETE_FRAME
    | OPENING_FRAME
    | CLOSING_FRAME
    | INCOMPLETE_TEXT_FRAME
    | INCOMPLETE_BINARY_FRAME
    | TEXT_FRAME
    | BINARY_FRAME
    | PING_FRAME
    | PONG_FRAME

  function EnumValue(t: FrameType): nat {
    match t
    case ERROR_FRAME => 0xFF00
    case INCOMPLETE_FRAME => 0xFE00
    case OPENING_FRAME => 0x3300
    case CLOSING_FRAME => 0x3400
    case INCOMPLETE_TEXT_FRAME => 0x01
    case INCOMPLETE_BINARY_FRAME => 0x02
    case TEXT_FRAME => 0x81
    case BINARY_FRAME => 0x82
    case PING_FRAME => 0x19
    case PONG_FRAME => 0x1A
  }

  // The types that name a frame on the wire: their value fits the first byte.
  predicate OnWire(t: FrameType) {
    EnumValue(t) < 256
  }

  // ---- RFC 6455, section 5.2 ----

  datatype Header = Header(fin: bool, rsv: nat, opcode: nat, masked: bool, length: nat, size: nat)

  function BigEndian(s: seq<Byte>): nat {
    if s == [] then 0 else s[0] * Pow256(|s| - 1) + BigEndian(s[1..])
  }

  // Reading the header the way the standard prescribes.
  function ReadHeader(b: seq<Byte>): Option<Header> {
    if |b| < 2 then None else
    var field := b[1] % 128;
    var extra := if field <= 125 then 0 else if field == 126 then 2 else 8;
    if |b| < 2 + extra then None else
    var length := if field <= 125 then field else BigEndian(b[2..2 + extra]);
    Some(Header(b[0] >= 128, b[0] / 16 % 8, b[0] % 16, b[1] >= 128, length, 2 + extra))
  }

  // "the minimal number of bytes MUST be used to encode the length"
  predicate Shortest(h: Header) {
    h.size == if h.length <= 125 then 2 else if h.length <= 65535 then 4 else 10
  }

  // Section 5.3: masking with a four-byte key.
  function Mask(key: seq<Byte>, data: seq<Byte>): (r: seq<Byte>)
    requires |key| == 4
    ensures |r| == |data|
  {
    seq(|data|, i requires 0 <= i < |data| => Xor(data[i], key[i % 4]))
  }

  lemma MaskTwice(key: seq<Byte>, data: seq<Byte>)
    requires |key| == 4
    ensures Mask(key, Mask(key, data)) == data
  {
    forall i | 0 <= i < |data| ensures Mask(key, Mask(key, data))[i] == data[i] {
      XorTwice(data[i], key[i % 4]);
    }
  }

  // ---- makeFrame ----

  // The bytes in front of the payload, size being an int.
  function HeaderBytes(first: Byte, size: nat): seq<Byte>
    requires size < 0x8000_0000
  {
    if size <= 125 then [first, size]
    else if size <= 65535 then [first, 126, size / 256 % 256, size % 256]
    else [first, 127, 0, 0, 0, 0, size / 0x1000000 % 256, size / 0x10000 % 256, size / 0x100 % 256, size % 256]
  }

  function Frame(t: FrameType, msg: seq<Byte>): seq<Byte>
    requires |msg| < 0x8000_0000
  {
    HeaderBytes(EnumValue(t) % 256, |msg|) + msg
  }

  // For every int length the standard reads back exactly that length, in its shortest form.
  lemma HeaderConforms(first: Byte, size: nat, rest: seq<Byte>)
    requires size < 0x8000_0000
    ensures var h := ReadHeader(HeaderBytes(first, size) + rest);
      && h.Some? && h.value.length == size && Shortest(h.value) && !h.value.masked
      && h.value.size == |HeaderBytes(first, size)|
      && h.value.fin == (first >= 128) && h.value.rsv == first / 16 % 8 && h.value.opcode == first % 16
  {
    hide BigEndian;
    var s := HeaderBytes(first, size);
    var b := s + rest;
    assert b[..|s|] == s;
    if size > 65535 {
      assert b[2..10] == s[2..10];
      LongForm(first, size);
    } else if size > 125 {
      assert b[2..4] == s[2..4];
      MediumForm(first, size);
    }
  }

  lemma MediumForm(first: Byte, size: nat)
    requires 125 < size <= 65535
    ensures BigEndian(HeaderBytes(first, size)[2..4]) == size
  {
    BigEndian2(size / 256 % 256, size % 256);
    assert HeaderBytes(first, size)[2..4] == [size / 256 % 256, size % 256];
  }

  lemma LongForm(first: Byte, size: nat)
    requires 65535 < size < 0x8000_0000
    ensures BigEndian(HeaderBytes(first, size)[2..10]) == size
  {
    hide BigEndian;
    var s := HeaderBytes(first, size);
    assert s[2..10] == [0] + ([0] + ([0] + ([0] + [s[6], s[7], s[8], s[9]])));
    LeadingZero([0] + ([0] + ([0] + [s[6], s[7], s[8], s[9]])));
    LeadingZero([0] + ([0] + [s[6], s[7], s[8], s[9]]));
    LeadingZero([0] + [s[6], s[7], s[8], s[9]]);
    LeadingZero([s[6], s[7], s[8], s[9]]);
    BigEndian4(s[6], s[7], s[8], s[9]);
    Digits(size);
  }

  lemma LeadingZero(s: seq<Byte>)
    ensures BigEndian([0] + s) == BigEndian(s)
  {
    assert ([0] + s)[1..] == s;
  }

  lemma BigEndian2(a: Byte, b: Byte)
    ensures BigEndian([a, b]) == a * 0x100 + b
  {
    assert [a, b][1..] == [b] && [b][1..] == [];
    assert BigEndian([b]) == b * Pow256(0) == b;
    assert Pow256(1) == 256 * Pow256(0) == 256;
  }

  lemma BigEndian4(a: Byte, b: Byte, c: Byte, d: Byte)
    ensures BigEndian([a, b, c, d]) == a * 0x1000000 + b * 0x10000 + c * 0x100 + d
  {
    BigEndian2(c, d);
    assert [a, b, c, d][1..] == [b, c, d] && [b, c, d][1..] == [c, d];
    assert Pow256(2) == 256 * Pow256(1) == 65536 && Pow256(3) == 256 * Pow256(2);
    assert BigEndian([b, c, d]) == b * Pow256(2) + BigEndian([c, d]);
  }

  lemma Digits(n: nat)
    requires n < 0x1_0000_0000
    ensures n == n / 0x1000000 % 256 * 0x1000000 + n / 0x10000 % 256 * 0x10000 + n / 0x100 % 256 * 0x100 + n % 256
  {
    assert n / 0x10000 == n / 0x100 / 256 && n / 0x1000000 == n / 0x10000 / 256;
  }

  // makeFrame: writes the frame at the start of buffer and returns its length. Like the source it does not look
  // at buffer_size; the caller must have made room.
  method MakeFrame(t: FrameType, msg: seq<Byte>, buffer: array<Byte>) returns (n: nat)
    requires |msg| < 0x8000_0000 && buffer.Length >= |Frame(t, msg)|
    modifies buffer
    ensures n == |Frame(t, msg)| && buffer[..n] == Frame(t, msg) && buffer[n..] == old(buffer[n..])
  {
    hide HeaderBytes;
    var pos := WriteHeader(buffer, EnumValue(t) % 256, |msg|);
    CopyIn(buffer, pos, msg);
    n := pos + |msg|;
    assert buffer[..n] == buffer[..pos] + buffer[pos..n];
  }

  // The part of makeFrame before memcpy.
  method WriteHeader(buffer: array<Byte>, first: Byte, size: nat) returns (pos: nat)
    requires size < 0x8000_0000 && buffer.Length >= |HeaderBytes(first, size)|
    modifies buffer
    ensures pos == |HeaderBytes(first, size)| && buffer[..pos] == HeaderBytes(first, size)
    ensures forall k :: pos <= k < buffer.Length ==> buffer[k] == old(buffer[k])
  {
    buffer[0] := first;
    pos := 1;
    if size <= 125 {
      buffer[pos] := size;
      pos := pos + 1;
    } else if size <= 65535 {
      buffer[pos] := 126;
      buffer[pos + 1] := size / 256 % 256;
      buffer[pos + 2] := size % 256;
      pos := pos + 3;
    } else {
      buffer[pos] := 127;
      pos := pos + 1;
      for i := 0 to 4
        invariant pos == 2 + i && buffer[0] == first && buffer[1] == 127 && forall k :: 2 <= k < pos ==> buffer[k] == 0
        invariant forall k :: 6 <= k < buffer.Length ==> buffer[k] == old(buffer[k])
      {
        buffer[pos] := 0;
        pos := pos + 1;
      }
      buffer[pos] := size / 0x1000000 % 256;
      buffer[pos + 1] := size / 0x10000 % 256;
      buffer[pos + 2] := size / 0x100 % 256;
      buffer[pos + 3] := size % 256;
      pos := pos + 4;
    }
  }

  // ---- getFrame ----

  // What getFrame makes of the first n bytes of b: nothing, or a frame of a type with a payload.
  datatype Outcome = Incomplete | Accepted(kind: FrameType, payload: seq<Byte>)

  function Field(b: seq<Byte>): nat
    requires |b| >= 2
  {
    b[1] % 128
  }

  function PayloadLength(b: seq<Byte>): nat
    requires |b| >= 4 || (|b| >= 2 && Field(b) <= 125)
  {
    if Field(b) <= 125 then Field(b) else b[2] as int + b[3] as int * 256
  }

  function HeaderLength(b: seq<Byte>): nat
    requires |b| >= 2
  {
    if Field(b) <= 125 then 2 else if Field(b) == 126 then 4 else 10
  }

  function IsMasked(b: seq<Byte>): bool
    requires |b| >= 2
  {
    b[1] / 128 % 2 == 1
  }

  function Kind(first: Byte): FrameType {
    var opcode, fin := first % 16, first / 128 % 2 == 1;
    if opcode == 0x0 || opcode == 0x1 then if fin then TEXT_FRAME else INCOMPLETE_TEXT_FRAME
    else if opcode == 0x2 then if fin then BINARY_FRAME else INCOMPLETE_BINARY_FRAME
    else if opcode == 0x9 then PING_FRAME
    else if opcode == 0xA then PONG_FRAME
    else ERROR_FRAME
  }

  // The bytes getFrame reads are there. The source compares n with the header and the payload only, so a masked
  // frame is also read up to four bytes further.
  predicate Readable(b: seq<Byte>, n: nat) {
    && n <= |b|
    && (n >= 3 ==>
      && (Field(b) > 125 ==> |b| >= 4)
      && (n >= PayloadLength(b) + HeaderLength(b) && IsMasked(b) ==> |b| >= HeaderLength(b) + 4 + PayloadLength(b)))
  }

  function Received(b: seq<Byte>, n: nat): Outcome
    requires Readable(b, n)
  {
    if n < 3 || n < PayloadLength(b) + HeaderLength(b) then Incomplete
    else
      var pos, len := HeaderLength(b), PayloadLength(b);
      Accepted(Kind(b[0]),
        if IsMasked(b) then Mask(b[pos..pos + 4], b[pos + 4..pos + 4 + len]) else b[pos..pos + len])
  }

  // The received bytes with the payload in the clear.
  function Unmasked(b: seq<Byte>, payload: seq<Byte>): seq<Byte>
    requires |b| >= 2 && HeaderLength(b) + (if IsMasked(b) then 4 else 0) + |payload| <= |b|
  {
    var at := HeaderLength(b) + if IsMasked(b) then 4 else 0;
    b[..at] + payload + b[at + |payload|..]
  }

  // getFrame: the result type, out_length (None when it is not assigned), the payload and a NUL in out_buffer. A
  // masked payload is unmasked where it lies.
  method GetFrame(in_buffer: array<Byte>, in_length: nat, out_buffer: array<Byte>)
      returns (kind: FrameType, out_length: Option<nat>)
    requires in_buffer != out_buffer && Readable(in_buffer[..], in_length)
    requires var r := Received(in_buffer[..], in_length); r.Accepted? ==> |r.payload| < out_buffer.Length
    modifies in_buffer, out_buffer
    ensures match Received(old(in_buffer[..]), in_length)
      case Incomplete =>
        && kind == INCOMPLETE_FRAME && out_length == None
        && in_buffer[..] == old(in_buffer[..]) && out_buffer[..] == old(out_buffer[..])
      case Accepted(k, payload) =>
        && kind == k && out_length == Some(|payload| + 1)
        && out_buffer[..|payload| + 1] == payload + [0]
        && out_buffer[|payload| + 1..] == old(out_buffer[|payload| + 1..])
        && in_buffer[..] == Unmasked(old(in_buffer[..]), payload)
  {
    hide Kind, Mask;
    if in_length < 3 {
      return INCOMPLETE_FRAME, None;
    }
    var length_field := in_buffer[1] % 128;
    var pos, payload_length: int := 2, length_field;
    if length_field == 126 {
      payload_length := in_buffer[2] as int + in_buffer[3] as int * 256;
      pos := pos + 2;
    } else if length_field == 127 {
      payload_length := in_buffer[2] as int + in_buffer[3] as int * 256;
      pos := pos + 8;
    }
    if in_length < payload_length + pos {
      return INCOMPLETE_FRAME, None;
    }
    kind := Kind(in_buffer[0]);
    assert pos == HeaderLength(in_buffer[..]) && payload_length == PayloadLength(in_buffer[..]);
    ghost var payload := Received(in_buffer[..], in_length).payload;
    Deliver(in_buffer, in_buffer[1] / 128 % 2 == 1, pos, payload_length, out_buffer, payload);
    out_length := Some(payload_length + 1);
  }

  method CopyOut(data: seq<Byte>, out_buffer: array<Byte>)
    requires |data| < out_buffer.Length
    modifies out_buffer
    ensures out_buffer[..|data| + 1] == data + [0]
    ensures out_buffer[|data| + 1..] == old(out_buffer[|data| + 1..])
  {
    ghost var rest := out_buffer[|data|..];
    CopyIn(out_buffer, 0, data);
    assert out_buffer[|data|..] == rest;
    out_buffer[|data|] := 0;
    assert out_buffer[..|data| + 1] == out_buffer[0..0 + |data|] + [out_buffer[|data|]];
    assert out_buffer[|data| + 1..] == rest[1..];
  }

  // getFrame from the mask on: unmask in place, copy out, terminate.
  method Deliver(in_buffer: array<Byte>, msg_masked: bool, from: nat, n: nat, out_buffer: array<Byte>,
      ghost payload: seq<Byte>)
    requires in_buffer != out_buffer && n < out_buffer.Length
    requires from + (if msg_masked then 4 else 0) + n <= in_buffer.Length
    requires payload == if msg_masked then Mask(in_buffer[from..from + 4], in_buffer[from + 4..from + 4 + n])
      else in_buffer[from..from + n]
    modifies in_buffer, out_buffer
    ensures out_buffer[..n + 1] == payload + [0] && out_buffer[n + 1..] == old(out_buffer[n + 1..])
    ensures var at := from + if msg_masked then 4 else 0;
      in_buffer[..] == old(in_buffer[..at]) + payload + old(in_buffer[at + n..])
  {
    hide Mask;
    var pos := from;
    if msg_masked {
      var mask := in_buffer[pos..pos + 4];
      pos := pos + 4;
      Unmask(in_buffer, pos, n, mask);
    }
    assert in_buffer[..pos + n] == in_buffer[..pos] + in_buffer[pos..pos + n];
    assert in_buffer[..] == in_buffer[..pos + n] + in_buffer[pos + n..];
    CopyOut(in_buffer[pos..pos + n], out_buffer);
  }

  // The in-place loop of getFrame.
  method Unmask(c: array<Byte>, from: nat, n: nat, mask: seq<Byte>)
    requires from + n <= c.Length && |mask| == 4
    modifies c
    ensures c[..from] == old(c[..from]) && c[from + n..] == old(c[from + n..])
    ensures c[from..from + n] == Mask(mask, old(c[from..from + n]))
  {
    for i := 0 to n
      invariant c[..from] == old(c[..from])
      invariant forall k :: 0 <= k < i ==> c[from + k] == Xor(old(c[from + k]), mask[k % 4])
      invariant forall k :: from + i <= k < c.Length ==> c[k] == old(c[k])
    {
      c[from + i] := Xor(c[from + i], mask[i % 4]);
    }
  }

  // ---- Round trips ----

  // A frame as a client sends it: mask bit, key, masked payload.
  function MaskedFrame(t: FrameType, key: seq<Byte>, msg: seq<Byte>): seq<Byte>
    requires |msg| < 0x8000_0000 && |key| == 4
  {
    var h := HeaderBytes(EnumValue(t) % 256, |msg|);
    h[1 := h[1] + 128] + key + Mask(key, msg)
  }

  // The sizes getFrame understands: the reader takes two length bytes low byte first, the writer wrote them (or
  // the two top bytes of eight) high byte first.
  predicate LengthSurvives(size: nat) {
    size <= 125 || (size <= 65535 && size / 256 == size % 256)
  }

  lemma HeaderReadBack(t: FrameType, size: nat, rest: seq<Byte>, bit: nat)
    requires OnWire(t) && size < 0x8000_0000 && bit <= 1
    ensures var h := HeaderBytes(EnumValue(t) % 256, size);
      var b := h[1 := h[1] + 128 * bit] + rest;
      && |h| >= 2 && (|h| == 2 <==> size <= 125) && h[1] < 128
      && HeaderLength(b) == |h| && Kind(b[0]) == t && IsMasked(b) == (bit == 1)
      && (|b| >= 4 || size <= 125) && (Field(b) <= 125 <==> size <= 125)
      && (PayloadLength(b) == size <==> LengthSurvives(size))
      && PayloadLength(b) <= 65535
  {}

  // getFrame returns what makeFrame was given exactly for payloads of 1 to 125 bytes and those whose length has
  // two equal length bytes. An empty payload is reported as incomplete.
  lemma FrameRoundTrip(t: FrameType, msg: seq<Byte>)
    requires OnWire(t) && |msg| < 0x8000_0000
    ensures var f := Frame(t, msg);
      Readable(f, |f|) && (Received(f, |f|) == Accepted(t, msg) <==> msg != [] && LengthSurvives(|msg|))
    ensures msg == [] ==> Received(Frame(t, msg), 2) == Incomplete
  {
    hide HeaderBytes, Kind, PayloadLength, HeaderLength, IsMasked, LengthSurvives, Field, EnumValue, OnWire;
    var h, f := HeaderBytes(EnumValue(t) % 256, |msg|), Frame(t, msg);
    HeaderReadBack(t, |msg|, msg, 0);
    assert f == h[1 := h[1] + 128 * 0] + msg && f[|h|..|h| + |msg|] == msg;
    SmallSurvives(|msg|);
  }

  lemma SmallSurvives(size: nat)
    ensures size <= 125 ==> LengthSurvives(size)
  {}

  // The same for masked frames, where the empty payload is understood too.
  lemma MaskedFrameRoundTrip(t: FrameType, key: seq<Byte>, msg: seq<Byte>)
    requires OnWire(t) && |msg| < 0x8000_0000 && |key| == 4
    ensures var f := MaskedFrame(t, key, msg);
      && (LengthSurvives(|msg|) ==> Readable(f, |f|))
      && (Readable(f, |f|) ==> (Received(f, |f|) == Accepted(t, msg) <==> LengthSurvives(|msg|)))
  {
    hide HeaderBytes, Kind, PayloadLength, HeaderLength, IsMasked, LengthSurvives, Field, EnumValue, OnWire, Mask;
    var h, f := HeaderBytes(EnumValue(t) % 256, |msg|), MaskedFrame(t, key, msg);
    HeaderReadBack(t, |msg|, key + Mask(key, msg), 1);
    MaskTwice(key, msg);
    assert f == h[1 := h[1] + 128 * 1] + (key + Mask(key, msg));
    assert f[|h|..|h| + 4] == key && f[|h| + 4..|h| + 4 + |msg|] == Mask(key, msg);
    SmallSurvives(|msg|);
  }

  // ---- Frames that arrive in parts ----

  // The first n bytes of b are those of f, and there is room for the rest.
  ghost predicate Arrived(f: seq<Byte>, b: seq<Byte>, n: nat) {
    n <= |f| <= |b| && b[..n] == f[..n]
  }

  // What the first bytes alone tell. Three bytes do not tell a 16-bit length, but that header is longer.
  lemma HeaderArrived(f: seq<Byte>, b: seq<Byte>, n: nat)
    requires Arrived(f, b, n) && n >= 3 && (|f| >= 4 || Field(f) <= 125)
    ensures Field(b) == Field(f) && HeaderLength(b) == HeaderLength(f) && IsMasked(b) == IsMasked(f)
    ensures (|b| >= 4 || Field(b) <= 125) && Kind(b[0]) == Kind(f[0])
    ensures n >= 4 || Field(f) <= 125 ==> PayloadLength(b) == PayloadLength(f)
    ensures Field(f) > 125 ==> HeaderLength(f) >= 4
  {
    assert forall i :: 0 <= i < n ==> b[i] == b[..n][i] == f[..n][i] == f[i];
  }

  // An unmasked frame is incomplete exactly until its last byte has arrived.
  lemma UnmaskedWaits(t: FrameType, msg: seq<Byte>, b: seq<Byte>, n: nat)
    requires OnWire(t) && msg != [] && |msg| < 0x8000_0000 && LengthSurvives(|msg|)
    requires Arrived(Frame(t, msg), b, n)
    ensures Readable(b, n) && (Received(b, n) == Incomplete <==> n < |Frame(t, msg)|)
  {
    hide HeaderBytes, Kind, PayloadLength, HeaderLength, IsMasked, LengthSurvives, Field, EnumValue, OnWire;
    var h, f := HeaderBytes(EnumValue(t) % 256, |msg|), Frame(t, msg);
    HeaderReadBack(t, |msg|, msg, 0);
    assert f == h[1 := h[1] + 128 * 0] + msg;
    if n >= 3 {
      HeaderArrived(f, b, n);
    }
  }

  // A masked frame is incomplete exactly until all but four of its bytes have arrived.
  lemma MaskedWaits(t: FrameType, key: seq<Byte>, msg: seq<Byte>, b: seq<Byte>, n: nat)
    requires OnWire(t) && |key| == 4 && |msg| < 0x8000_0000 && LengthSurvives(|msg|)
    requires Arrived(MaskedFrame(t, key, msg), b, n)
    ensures Readable(b, n)
    ensures Received(b, n) == Incomplete <==> n < 3 || n + 4 < |MaskedFrame(t, key, msg)|
    ensures Received(b, n) != Incomplete ==> var f := MaskedFrame(t, key, msg);
      Received(b, n) == Accepted(t, Mask(b[|f| - |msg| - 4..|f| - |msg|], b[|f| - |msg|..|f|]))
  {
    hide HeaderBytes, Kind, PayloadLength, HeaderLength, IsMasked, LengthSurvives, Field, EnumValue, OnWire, Mask;
    var h, f := HeaderBytes(EnumValue(t) % 256, |msg|), MaskedFrame(t, key, msg);
    HeaderReadBack(t, |msg|, key + Mask(key, msg), 1);
    assert f == h[1 := h[1] + 128 * 1] + (key + Mask(key, msg));
    if n >= 3 {
      HeaderArrived(f, b, n);
    }
  }

  // A frame is waited for if, whatever stands behind the bytes that have arrived, it is incomplete until all have.
  ghost predicate WaitedFor(f: seq<Byte>) {
    forall b: seq<Byte>, n: nat :: Arrived(f, b, n) ==> Readable(b, n) && (Received(b, n) == Incomplete <==> n < |f|)
  }

  // The length that getFrame takes from a header makeFrame wrote for size.
  function TakenFor(size: nat): nat {
    if size <= 125 then size else if size <= 65535 then size / 256 + size % 256 * 256 else 0
  }

  lemma TakenForItself(size: nat)
    ensures TakenFor(size) == size <==> LengthSurvives(size)
    ensures TakenFor(size) != size + 4
  {}

  function WireFrame(t: FrameType, key: seq<Byte>, msg: seq<Byte>, masked: bool): seq<Byte>
    requires |msg| < 0x8000_0000 && |key| == 4
  {
    if masked then MaskedFrame(t, key, msg) else Frame(t, msg)
  }

  // Every frame of makeFrame, masked or not, is incomplete until the header and the length taken have arrived,
  // however long the frame is.
  lemma IncompleteUntilTaken(t: FrameType, key: seq<Byte>, msg: seq<Byte>, masked: bool, b: seq<Byte>, n: nat)
    requires OnWire(t) && |key| == 4 && |msg| < 0x8000_0000
    requires Arrived(WireFrame(t, key, msg, masked), b, n) && Readable(b, n)
    ensures var header := |HeaderBytes(EnumValue(t) % 256, |msg|)|;
      Received(b, n) == Incomplete <==> n < 3 || n < header + TakenFor(|msg|)
  {
    hide HeaderBytes, Kind, PayloadLength, HeaderLength, IsMasked, Field, EnumValue, OnWire, Mask, TakenFor;
    var h, f, bit := HeaderBytes(EnumValue(t) % 256, |msg|), WireFrame(t, key, msg, masked), if masked then 1 else 0;
    var rest := if masked then key + Mask(key, msg) else msg;
    HeaderReadBack(t, |msg|, rest, bit);
    LengthTaken(t, |msg|, rest, bit);
    assert f == h[1 := h[1] + 128 * bit] + rest;
    if n >= 3 {
      HeaderArrived(f, b, n);
    }
  }

  lemma LengthTaken(t: FrameType, size: nat, rest: seq<Byte>, bit: nat)
    requires OnWire(t) && size < 0x8000_0000 && bit <= 1
    ensures var h := HeaderBytes(EnumValue(t) % 256, size);
      |h| >= 2 && h[1] < 128 && var b := h[1 := h[1] + 128 * bit] + rest;
      (|b| >= 4 || Field(b) <= 125) && PayloadLength(b) == TakenFor(size)
  {}

  lemma WireSize(t: FrameType, key: seq<Byte>, msg: seq<Byte>, masked: bool)
    requires OnWire(t) && |key| == 4 && |msg| < 0x8000_0000
    ensures var header := |HeaderBytes(EnumValue(t) % 256, |msg|)|;
      && |WireFrame(t, key, msg, masked)| == header + |msg| + (if masked then 4 else 0)
      && header >= 2 && (if |msg| <= 125 then header == 2 else header >= 4)
  {}

  lemma MaskBit(t: FrameType, key: seq<Byte>, msg: seq<Byte>, masked: bool)
    requires OnWire(t) && |key| == 4 && |msg| < 0x8000_0000
    ensures |WireFrame(t, key, msg, masked)| >= 2 && IsMasked(WireFrame(t, key, msg, masked)) == masked
  {
    HeaderReadBack(t, |msg|, msg, 0);
    HeaderReadBack(t, |msg|, key + Mask(key, msg), 1);
  }

  // getFrame waits for the whole of a frame exactly when it is not masked, not empty, and of a length it understands.
  lemma WaitedForExactly(t: FrameType, key: seq<Byte>, msg: seq<Byte>, masked: bool)
    requires OnWire(t) && |key| == 4 && |msg| < 0x8000_0000
    ensures |WireFrame(t, key, msg, masked)| >= 2 && IsMasked(WireFrame(t, key, msg, masked)) == masked
    ensures WaitedFor(WireFrame(t, key, msg, masked)) <==> !masked && msg != [] && LengthSurvives(|msg|)
  {
    MaskBit(t, key, msg, masked);
    hide IsMasked, Readable, Received, HeaderBytes, MaskedFrame, Frame, LengthSurvives, TakenFor;
    var f := WireFrame(t, key, msg, masked);
    if !masked && msg != [] && LengthSurvives(|msg|) {
      forall b: seq<Byte>, n: nat | Arrived(f, b, n)
        ensures Readable(b, n) && (Received(b, n) == Incomplete <==> n < |f|)
      {
        UnmaskedWaits(t, msg, b, n);
      }
    } else {
      var n := NotWaitedAt(t, key, msg, masked);
      assert Arrived(f, f, n);
      if Readable(f, n) {
        IncompleteUntilTaken(t, key, msg, masked, f, n);
      }
    }
  }

  // Where it goes wrong: the whole frame is not enough, or a part of it is.
  lemma NotWaitedAt(t: FrameType, key: seq<Byte>, msg: seq<Byte>, masked: bool) returns (n: nat)
    requires OnWire(t) && |key| == 4 && |msg| < 0x8000_0000
    requires masked || msg == [] || !LengthSurvives(|msg|)
    ensures var f, header := WireFrame(t, key, msg, masked), |HeaderBytes(EnumValue(t) % 256, |msg|)|;
      n <= |f| && ((n < 3 || n < header + TakenFor(|msg|)) <==> n == |f|)
  {
    hide HeaderBytes, MaskedFrame, Frame, LengthSurvives, WireFrame, EnumValue, OnWire;
    var f, taken := WireFrame(t, key, msg, masked), |HeaderBytes(EnumValue(t) % 256, |msg|)| + TakenFor(|msg|);
    WireSize(t, key, msg, masked);
    TakenForItself(|msg|);
    SmallSurvives(|msg|);
    n := if taken >= |f| then |f| else if taken < 3 then 3 else taken;
  }

  // With one to four bytes missing, a masked frame is accepted with whatever stands in their place: the type is
  // right, the payload need not be.
  lemma AcceptedEarly(t: FrameType, key: seq<Byte>, msg: seq<Byte>, n: nat) returns (b: seq<Byte>)
    requires OnWire(t) && |key| == 4 && msg != [] && |msg| < 0x8000_0000 && LengthSurvives(|msg|)
    requires var f := MaskedFrame(t, key, msg); 3 <= n && |f| - 4 <= n < |f|
    ensures Arrived(MaskedFrame(t, key, msg), b, n) && Readable(b, n)
    ensures Received(b, n).Accepted? && Received(b, n).kind == t && Received(b, n).payload != msg
  {
    hide Readable, Received, Mask;
    var f := MaskedFrame(t, key, msg);
    var last := |f| - 1;
    var k := |msg| - 1;
    b := f[last := (f[last] as int + 1) % 256];
    MaskedWaits(t, key, msg, b, n);
    assert b[|f| - |msg| - 4..|f| - |msg|] == key;
    var got := b[|f| - |msg|..|f|];
    assert got[k] == b[last];
    MaskAt(key, got, k);
    MaskAt(key, msg, k);
    assert f[last] == Mask(key, msg)[k];
    XorTwice(got[k], key[k % 4]);
  }

  lemma MaskAt(key: seq<Byte>, data: seq<Byte>, i: nat)
    requires |key| == 4 && i < |data|
    ensures Mask(key, data)[i] == Xor(data[i], key[i % 4])
  {}

  // ---- getFrame and the standard ----

  // getFrame and section 5.2 agree on the mask bit and the size of every header. They agree on the length in the
  // 7-bit form, in the 16-bit form exactly if its two bytes are equal, and in the 64-bit form exactly if it is zero.
  lemma ReaderAgrees(b: seq<Byte>)
    requires ReadHeader(b).Some?
    ensures |b| >= 2 && (Field(b) <= 125 || |b| >= 4)
    ensures var h := ReadHeader(b).value;
      && h.masked == IsMasked(b) && h.size == HeaderLength(b)
      && (Field(b) <= 125 ==> PayloadLength(b) == h.length)
      && (Field(b) == 126 ==> (PayloadLength(b) == h.length <==> b[2] == b[3]))
      && (Field(b) == 127 ==> (PayloadLength(b) == h.length <==> h.length == 0))
  {
    hide BigEndian;
    if Field(b) == 126 {
      assert b[2..4] == [b[2], b[3]];
      BigEndian2(b[2], b[3]);
    } else if Field(b) == 127 {
      LongLength(b[2..10]);
    }
  }

  // Two low-order bytes do not make the value of eight bytes, unless all are zero.
  lemma LongLength(s: seq<Byte>)
    requires |s| == 8
    ensures s[0] as int + s[1] as int * 256 == BigEndian(s) <==> BigEndian(s) == 0
  {
    var rest := BigEndian(s[1..][1..]);
    assert BigEndian(s) == s[0] * Pow256(7) + (s[1] * Pow256(6) + rest) by {
      assert BigEndian(s[1..]) == s[1..][0] * Pow256(6) + rest;
    }
    Pow256Values();
  }

  // The standard reads a masked frame as masked, with the payload's length and the same first byte.
  lemma MaskedHeaderConforms(t: FrameType, key: seq<Byte>, msg: seq<Byte>)
    requires OnWire(t) && |key| == 4 && |msg| < 0x8000_0000
    ensures var h, f := ReadHeader(MaskedFrame(t, key, msg)), MaskedFrame(t, key, msg);
      && h.Some? && h.value.masked && h.value.length == |msg| && Shortest(h.value)
      && h.value.size + 4 + |msg| == |f| && f[h.value.size..h.value.size + 4] == key
      && Mask(key, f[h.value.size + 4..]) == msg
  {
    hide HeaderBytes, BigEndian, Mask;
    var s := HeaderBytes(EnumValue(t) % 256, |msg|);
    var rest := key + Mask(key, msg);
    HeaderConforms(EnumValue(t) % 256, |msg|, rest);
    var f := MaskedFrame(t, key, msg);
    assert f == s[1 := s[1] + 128] + rest;
    MaskBitOnly(s + rest, f);
    MaskTwice(key, msg);
    assert f[|s|..|s| + 4] == key && f[|s| + 4..] == Mask(key, msg);
  }

  lemma MaskBitOnly(b: seq<Byte>, f: seq<Byte>)
    requires |b| >= 2 && b[1] < 128 && f == b[1 := b[1] + 128]
    ensures ReadHeader(f).Some? == ReadHeader(b).Some?
    ensures ReadHeader(b).Some? ==> ReadHeader(f).value == ReadHeader(b).value.(masked := true)
  {
    hide BigEndian;
    assert f[2..] == b[2..];
    assert |b| >= 4 ==> f[2..4] == f[2..][..2] == b[2..4];
    assert |b| >= 10 ==> f[2..10] == f[2..][..8] == b[2..10];
  }

  // makeFrame into a buffer, getFrame out of it.
  method Transfer(t: FrameType, msg: seq<Byte>)
      returns (kind: FrameType, out_length: Option<nat>, out_buffer: array<Byte>)
    requires OnWire(t) && msg != [] && |msg| < 0x8000_0000 && LengthSurvives(|msg|)
    ensures kind == t && out_length == Some(|msg| + 1)
    ensures |msg| < out_buffer.Length && out_buffer[..|msg| + 1] == msg + [0]
  {
    hide Frame, Received, Readable, LengthSurvives, OnWire;
    FrameRoundTrip(t, msg);
    var buffer := new Byte[|msg| + 10];
    FrameSize(t, msg);
    var n := MakeFrame(t, msg, buffer);
    out_buffer := new Byte[|msg| + 1];
    var frame := new Byte[n];
    CopyIn(frame, 0, buffer[..n]);
    assert frame[..] == frame[0..0 + n] == Frame(t, msg);
    kind, out_length := GetFrame(frame, n, out_buffer);
  }

  lemma FrameSize(t: FrameType, msg: seq<Byte>)
    requires |msg| < 0x8000_0000
    ensures |Frame(t, msg)| <= |msg| + 10
  {}

  // Section 5.5: control frames must be final, and 5.2: reserved bits must be zero. makeFrame's ping and pong
  // frames meet neither; its other frames meet both.
  lemma ControlFramesMalformed(t: FrameType, msg: seq<Byte>)
    requires OnWire(t) && |msg| < 0x8000_0000
    ensures var h := ReadHeader(Frame(t, msg));
      h.Some? && (h.value.rsv == 0 && (h.value.opcode >= 8 ==> h.value.fin) <==> t != PING_FRAME && t != PONG_FRAME)
  {
    hide ReadHeader, HeaderBytes;
    HeaderConforms(EnumValue(t), |msg|, msg);
  }

  // ---- getFrame byte by byte ----

  // Complete frames, by the bytes of the header: the reader's length is b[1] without its top bit, or b[2] and b[3]
  // low byte first.
  lemma CompleteExactly(b: seq<Byte>, n: nat)
    requires Readable(b, n)
    ensures Received(b, n).Accepted? <==>
      && n >= 3
      && (b[1] % 128 <= 125 ==> n >= 2 + b[1] % 128)
      && (b[1] % 128 == 126 ==> n >= 4 + b[2] as int + 0x100 * b[3] as int)
      && (b[1] % 128 == 127 ==> n >= 10 + b[2] as int + 0x100 * b[3] as int)
  {
    hide Kind;
  }

  // The type of an accepted frame by section 5.2's opcode and FIN bit.
  lemma KindByOpcode(b: seq<Byte>, n: nat)
    requires Readable(b, n) && Received(b, n).Accepted?
    ensures ReadHeader(b).Some?
    ensures var h, kind := ReadHeader(b).value, Received(b, n).kind;
      && (kind == TEXT_FRAME <==> h.fin && h.opcode <= 1)
      && (kind == INCOMPLETE_TEXT_FRAME <==> !h.fin && h.opcode <= 1)
      && (kind == BINARY_FRAME <==> h.fin && h.opcode == 2)
      && (kind == INCOMPLETE_BINARY_FRAME <==> !h.fin && h.opcode == 2)
      && (kind == PING_FRAME <==> h.opcode == 9)
      && (kind == PONG_FRAME <==> h.opcode == 10)
      && (kind == ERROR_FRAME <==> 3 <= h.opcode <= 8 || h.opcode >= 11)
  {
    hide BigEndian, Mask;
  }

  // The payload behind the header as section 5.2 delimits it, unmasked by section 5.3's key.
  lemma PayloadByPlace(b: seq<Byte>, n: nat)
    requires Readable(b, n) && Received(b, n).Accepted?
    ensures ReadHeader(b).Some?
    ensures var h, payload := ReadHeader(b).value, Received(b, n).payload;
      var at := h.size + if h.masked then 4 else 0;
      && |payload| == (if b[1] % 128 <= 125 then b[1] % 128 else b[2] as int + 0x100 * b[3] as int)
      && at + |payload| <= |b| && h.size == (if b[1] % 128 <= 125 then 2 else if b[1] % 128 == 126 then 4 else 10)
      && forall i :: 0 <= i < |payload| ==>
        payload[i] == if h.masked then Xor(b[at + i], b[h.size + i % 4]) else b[at + i]
  {
    hide BigEndian, Kind, Xor;
    var size, len := HeaderLength(b), PayloadLength(b);
    assert |b| >= size;
    if IsMasked(b) {
      MaskedAt(b, size, len);
    }
  }

  lemma MaskedAt(b: seq<Byte>, from: nat, n: nat)
    requires from + 4 + n <= |b|
    ensures forall i :: 0 <= i < n ==>
      Mask(b[from..from + 4], b[from + 4..from + 4 + n])[i] == Xor(b[from + 4 + i], b[from + i % 4])
  {
    hide Xor;
  }

  // Of the received bytes exactly the payload's are replaced.
  lemma UnmaskedAt(b: seq<Byte>, n: nat, k: nat)
    requires Readable(b, n) && Received(b, n).Accepted? && k < |b|
    ensures ReadHeader(b).Some?
    ensures var payload, h := Received(b, n).payload, ReadHeader(b).value;
      var at := h.size + if h.masked then 4 else 0;
      && |Unmasked(b, payload)| == |b|
      && Unmasked(b, payload)[k] == if at <= k < at + |payload| then payload[k - at] else b[k]
  {
    hide Readable, Received, ReadHeader, HeaderLength, IsMasked, PayloadLength, Field;
    PayloadByPlace(b, n);
    ReaderAgrees(b);
  }

  // ---- The standard's numbers and examples ----

  // The first byte of every type's frames; the types that are not on the wire are written as zero.
  lemma FirstByte(t: FrameType, msg: seq<Byte>)
    requires |msg| < 0x8000_0000
    ensures var h := ReadHeader(Frame(t, msg));
      && h.Some? && h.value.length == |msg| && !h.value.masked && Frame(t, msg)[h.value.size..] == msg
      && (h.value.fin, h.value.rsv, h.value.opcode) ==
        match t
        case TEXT_FRAME => (true, 0, 1)
        case BINARY_FRAME => (true, 0, 2)
        case INCOMPLETE_TEXT_FRAME => (false, 0, 1)
        case INCOMPLETE_BINARY_FRAME => (false, 0, 2)
        case PING_FRAME => (false, 1, 9)
        case PONG_FRAME => (false, 1, 10)
        case ERROR_FRAME | INCOMPLETE_FRAME | OPENING_FRAME | CLOSING_FRAME => (false, 0, 0)
  {
    hide ReadHeader, HeaderBytes;
    HeaderConforms(EnumValue(t) % 256, |msg|, msg);
  }

  // Section 5.7: "Hello" in a single frame, unmasked and masked.
  lemma Hello()
    ensures var hello: seq<Byte> := [0x48, 0x65, 0x6c, 0x6c, 0x6f];
      && Frame(TEXT_FRAME, hello) == [0x81, 0x05, 0x48, 0x65, 0x6c, 0x6c, 0x6f]
      && MaskedFrame(TEXT_FRAME, [0x37, 0xfa, 0x21, 0x3d], hello) ==
        [0x81, 0x85, 0x37, 0xfa, 0x21, 0x3d, 0x7f, 0x9f, 0x4d, 0x51, 0x58]
  {
    hide Xor;
    HelloMasked();
    assert Mask([0x37, 0xfa, 0x21, 0x3d], [0x48, 0x65, 0x6c, 0x6c, 0x6f]) == [0x7f, 0x9f, 0x4d, 0x51, 0x58];
  }

  lemma HelloMasked()
    ensures Xor(0x48, 0x37) == 0x7f && Xor(0x65, 0xfa) == 0x9f && Xor(0x6c, 0x21) == 0x4d
    ensures Xor(0x6c, 0x3d) == 0x51 && Xor(0x6f, 0x37) == 0x58
  {
    BitPatterns.XorIsExclusiveOr(0x48, 0x37);
    BitPatterns.XorIsExclusiveOr(0x65, 0xfa);
    BitPatterns.XorIsExclusiveOr(0x6c, 0x21);
    BitPatterns.XorIsExclusiveOr(0x6c, 0x3d);
    BitPatterns.XorIsExclusiveOr(0x6f, 0x37);
  }

  // Section 5.7: 256 bytes and 64 KiB of binary data in a single unmasked frame.
  lemma BinaryExamples(msg: seq<Byte>)
    ensures |msg| == 256 ==> Frame(BINARY_FRAME, msg) == [0x82, 0x7E, 0x01, 0x00] + msg
    ensures |msg| == 65536 ==> Frame(BINARY_FRAME, msg) == [0x82, 0x7F, 0, 0, 0, 0, 0, 0x01, 0, 0] + msg
  {}
}
