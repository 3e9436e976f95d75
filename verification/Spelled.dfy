/**
 * What the engine does, in plain numbers: for every frame a client can send, the
 * bytes it is on the wire and the bytes of the answer, as RFC 6455 spells them.
 */
module Spelled {
  import opened Bytes
  import opened Wire
  import opened Engine
  import opened Streams

  // ---- frames of the server ----

  /** `len` in eight bytes, most significant first: each is what one more division by 256 leaves. */
  function EightBytes(len: nat): (s: seq<Byte>)
    ensures |s| == 8
  {
    var a := len / 256;
    var b := a / 256;
    var c := b / 256;
    var d := c / 256;
    var e := d / 256;
    var f := e / 256;
    var g := f / 256;
    [g % 256, f % 256, e % 256, d % 256, c % 256, b % 256, a % 256, len % 256]
  }

  /** A final, unmasked frame whose first byte is `b0`, its length in the shortest form. */
  function Plainly(b0: Byte, payload: seq<Byte>): seq<Byte>
    requires |payload| < TWO_64
  {
    var len := |payload|;
    [b0] +
    (if len < 126 then [len]
     else if len < 65536 then [126, len / 256, len % 256]
     else [127] + EightBytes(len)) + payload
  }

  lemma TwoBytes(len: nat)
    requires len < 65536
    ensures BigEndian(len, 2) == [len / 256, len % 256]
  {
    assert BigEndian(len / 256, 1) == BigEndian(len / 256 / 256, 0) + [len / 256 % 256];
  }

  /** A final frame is sent as these bytes. */
  lemma SentAs(f: Frame)
    requires f.fin && f.opcode < 16 && |f.payload| < TWO_64
    ensures Encode(f) == Plainly(0x80 + f.opcode, f.payload)
  {
    var len := |f.payload|;
    if 126 <= len < 65536 {
      TwoBytes(len);
    } else if len >= 65536 {
      BigEndianIsEight(len);
    }
  }

  lemma BigEndianIsEight(len: nat)
    ensures BigEndian(len, 8) == EightBytes(len)
  {
    var a := len / 256;
    var b := a / 256;
    var c := b / 256;
    var d := c / 256;
    var e := d / 256;
    var f := e / 256;
    var g := f / 256;
    assert BigEndian(g, 1) == BigEndian(g / 256, 0) + [g % 256] == [g % 256];
    assert BigEndian(f, 2) == BigEndian(g, 1) + [f % 256];
    assert BigEndian(e, 3) == BigEndian(f, 2) + [e % 256];
    assert BigEndian(d, 4) == BigEndian(e, 3) + [d % 256];
    assert BigEndian(c, 5) == BigEndian(d, 4) + [c % 256];
    assert BigEndian(b, 6) == BigEndian(c, 5) + [b % 256];
    assert BigEndian(a, 7) == BigEndian(b, 6) + [a % 256];
    assert BigEndian(len, 8) == BigEndian(a, 7) + [len % 256];
  }

  /** What the calls a callback may make put on the wire. */
  lemma CallsSpelled(p: View, code: nat)
    ensures Encode(CallFrame(SendText(p))) == Plainly(0x81, p)
    ensures Encode(CallFrame(SendBinary(p))) == Plainly(0x82, p)
    ensures Encode(CallFrame(CloseWith(code, p))) ==
            Plainly(0x88, [code / 256 % 256, code % 256] + if |p| <= 123 then p else p[..123])
  {
    SentAs(CallFrame(SendText(p)));
    SentAs(CallFrame(SendBinary(p)));
    SentAs(CallFrame(CloseWith(code, p)));
  }

  // ---- frames of a client ----

  /** `payload` under a mask key, without the key. */
  predicate Masked(masked: seq<Byte>, key: seq<Byte>, payload: seq<Byte>) {
    |key| == 4 && |masked| == |payload| && forall k :: 0 <= k < |payload| ==> IsXor(masked[k], payload[k], key[k % 4])
  }

  /** A masked frame whose first byte is `b0` and whose length is in the second byte. */
  function OnTheWire(b0: Byte, key: seq<Byte>, masked: seq<Byte>): seq<Byte>
    requires |masked| <= 125
  {
    [b0, 128 + |masked|] + key + masked
  }

  lemma MaskedIs(masked: seq<Byte>, key: seq<Byte>, payload: seq<Byte>)
    requires Masked(masked, key, payload)
    ensures masked == Mask(key, payload)
  {
    forall k | 0 <= k < |payload|
      ensures masked[k] == Mask(key, payload)[k]
    {
      XorIsBitwise(payload[k], key[k % 4], masked[k]);
    }
  }

  /** Such a frame is dispatched as first byte and payload say, and nothing of it is left. */
  lemma ShortFrame(h: Handler, maxBody: nat, st: State, b0: Byte, key: seq<Byte>, masked: seq<Byte>, f: Frame)
    requires f.fin == (b0 >= 128) && f.opcode == b0 % 16
    requires Masked(masked, key, f.payload) && |f.payload| <= 125 && |f.payload| <= maxBody
    ensures var o, r := Drain(h, maxBody, st, OnTheWire(b0, key, masked)), Dispatch(h, st, f);
            o == Outcome(r.state, r.sent, [f], [], r.open)
  {
    var e := Envelope(b0 / 16 % 8, Short, key);
    Byte0OfParts(b0);
    MaskedIs(masked, key, f.payload);
    var first := OnWire(e, f);
    assert first == OnTheWire(b0, key, masked) && first + [] == first;
    DrainOnWire(h, maxBody, st, ClientFrame(f, e), []);
    var r := Dispatch(h, st, f);
    assert r.sent + [] == r.sent && [f] + [] == [f];
  }

  lemma OutputOf(f: Frame)
    requires f.fin && f.opcode < 16 && |f.payload| < TWO_64
    ensures Output([Sent(true, f)]) == Plainly(0x80 + f.opcode, f.payload)
  {
    OutputOne(Sent(true, f));
    SentAs(f);
  }

  lemma PingReply(h: Handler, st: State, p: seq<Byte>)
    requires |p| <= 125
    ensures var r := Dispatch(h, st, Frame(true, 9, p));
            r.state == st && r.open && Output(r.sent) == [0x8A, |p|] + p
  {
    OutputOf(Pong(p));
  }

  /** A Ping, 0x89, is answered with a Pong, 0x8A, of the same payload. */
  lemma PingAnswered(h: Handler, maxBody: nat, st: State, key: seq<Byte>, masked: seq<Byte>, p: seq<Byte>)
    requires Masked(masked, key, p) && |p| <= 125 && |p| <= maxBody
    ensures var o := Drain(h, maxBody, st, OnTheWire(0x89, key, masked));
            Output(o.sent) == [0x8A, |p|] + p && o.open && o.rest == [] && o.state == st
  {
    ShortFrame(h, maxBody, st, 0x89, key, masked, Frame(true, 9, p));
    PingReply(h, st, p);
  }

  /** A Pong, 0x8A, is not answered. */
  lemma PongIgnored(h: Handler, maxBody: nat, st: State, key: seq<Byte>, masked: seq<Byte>, p: seq<Byte>)
    requires Masked(masked, key, p) && |p| <= 125 && |p| <= maxBody
    ensures var o := Drain(h, maxBody, st, OnTheWire(0x8A, key, masked));
            Output(o.sent) == [] && o.open && o.rest == [] && o.state == st
  {
    ShortFrame(h, maxBody, st, 0x8A, key, masked, Frame(true, 10, p));
  }

  lemma CloseReply(h: Handler, st: State, p: seq<Byte>)
    requires |p| <= 125
    ensures var r := Dispatch(h, st, Frame(true, 8, p));
            r.state == State(true, st.fired + [OnClose]) && !r.open &&
            Output(r.sent) == (if st.closeSent then [] else [0x88, |p|] + p) + Output(FromCallback(h.onClose(st.fired)))
  {
    var echo := if st.closeSent then [] else [Sent(true, CloseEcho(p))];
    OutputOf(CloseEcho(p));
    assert Clip(p, CONTROL_MAX_PAYLOAD) == p;
    OutputAppend(echo, FromCallback(h.onClose(st.fired)));
    assert Output(echo) == if st.closeSent then [] else [0x88, |p|] + p;
  }

  /**
   * A Close, 0x88, is answered with a Close of the same payload, unless one was sent
   * before; only then comes what the route asks for when told of it.
   */
  lemma CloseAnswered(h: Handler, maxBody: nat, st: State, key: seq<Byte>, masked: seq<Byte>, p: seq<Byte>)
    requires Masked(masked, key, p) && |p| <= 125 && |p| <= maxBody
    ensures var o := Drain(h, maxBody, st, OnTheWire(0x88, key, masked));
            Output(o.sent) ==
            (if st.closeSent then [] else [0x88, |p|] + p) + Output(FromCallback(h.onClose(st.fired))) &&
            !o.open && o.rest == [] && o.state == State(true, st.fired + [OnClose])
  {
    ShortFrame(h, maxBody, st, 0x88, key, masked, Frame(true, 8, p));
    CloseReply(h, st, p);
  }

  lemma MessageReply(h: Handler, st: State, opcode: Byte, p: seq<Byte>)
    requires opcode == 1 || opcode == 2
    ensures Dispatch(h, st, Frame(true, opcode, p)) ==
            Reply(State(st.closeSent, st.fired + [OnMessage(p)]), FromCallback(h.onMessage(st.fired, p)), true)
  {
  }

  /** A message, 0x81 or 0x82, goes to the route, and what the route asks for goes out. */
  lemma MessageDelivered(
    h: Handler, maxBody: nat, st: State, b0: Byte, key: seq<Byte>, masked: seq<Byte>, p: seq<Byte>)
    requires Masked(masked, key, p) && |p| <= 125 && |p| <= maxBody && (b0 == 0x81 || b0 == 0x82)
    ensures var o := Drain(h, maxBody, st, OnTheWire(b0, key, masked));
            Output(o.sent) == Output(FromCallback(h.onMessage(st.fired, p))) &&
            o.open && o.rest == [] && o.state == State(st.closeSent, st.fired + [OnMessage(p)])
  {
    ShortFrame(h, maxBody, st, b0, key, masked, Frame(true, b0 % 16, p));
    MessageReply(h, st, b0 % 16, p);
  }

  /** Anything else, a fragment or an opcode that means nothing, gets a Close with code 1002. */
  lemma ProtocolErrorAnswered(
    h: Handler, maxBody: nat, st: State, b0: Byte, key: seq<Byte>, masked: seq<Byte>, p: seq<Byte>)
    requires Masked(masked, key, p) && |p| <= 125 && |p| <= maxBody
    requires b0 < 128 || b0 % 16 !in {1, 2, 8, 9, 10}
    ensures var o := Drain(h, maxBody, st, OnTheWire(b0, key, masked));
            Output(o.sent) == [0x88, 2, 0x03, 0xEA] && !o.open && o.rest == [] && o.state == State(true, st.fired)
  {
    ShortFrame(h, maxBody, st, b0, key, masked, Frame(b0 >= 128, b0 % 16, p));
    OutputOf(PROTOCOL_ERROR);
  }

  /** Without the mask bit nothing is taken, nothing answered, and the connection must be closed. */
  lemma UnmaskedRefused(h: Handler, maxBody: nat, st: State, data: seq<Byte>)
    requires |data| >= 2 && data[1] < 128
    ensures Drain(h, maxBody, st, data) == Outcome(st, [], [], data, false)
  {
  }

  /** The same for a control frame of more than 125 bytes, which must spell its length in two more bytes. */
  lemma LongControlRefused(h: Handler, maxBody: nat, st: State, data: seq<Byte>)
    requires |data| >= 4 && data[0] % 16 >= 8 && data[1] == 0xFE && (data[2] > 0 || data[3] >= 126)
    ensures Drain(h, maxBody, st, data) == Outcome(st, [], [], data, false)
  {
    assert data[2..4] == [data[2], data[3]];
    NumberOfTwo(data[2], data[3]);
  }

  // ---- messages of any length on the echo route ----

  /** How a client may spell a length. */
  predicate Spells(lengthBytes: seq<Byte>, len: nat) {
    len < TWO_64 &&
    ((len < 126 && lengthBytes == [128 + len]) ||
     (len < 65536 && lengthBytes == [128 + 126, len / 256, len % 256]) ||
     lengthBytes == [128 + 127] + EightBytes(len))
  }

  lemma AnyLength(b0: Byte, lengthBytes: seq<Byte>, key: seq<Byte>, f: Frame) returns (e: Envelope)
    requires Spells(lengthBytes, |f.payload|) && |key| == 4 && f.fin == (b0 >= 128) && f.opcode == b0 % 16
    ensures Fits(e, f) && OnWire(e, f) == [b0] + lengthBytes + key + Mask(key, f.payload)
  {
    var len := |f.payload|;
    Byte0OfParts(b0);
    if len < 126 && lengthBytes == [128 + len] {
      e := Envelope(b0 / 16 % 8, Short, key);
      assert ClientHead(e, f) == [b0] + lengthBytes;
    } else if |lengthBytes| == 3 {
      e := Envelope(b0 / 16 % 8, Medium, key);
      TwoBytes(len);
      assert ClientHead(e, f) == [b0] + lengthBytes;
    } else {
      e := Envelope(b0 / 16 % 8, Long, key);
      BigEndianIsEight(len);
      assert ClientHead(e, f) == [b0] + lengthBytes;
    }
  }

  lemma EchoOfMessage(st: State, f: Frame)
    requires f.fin && (f.opcode == 1 || f.opcode == 2) && |f.payload| < TWO_64
    ensures var r := Dispatch(ECHO, st, f);
            r.open && Output(r.sent) == Plainly(0x81, f.payload)
  {
    EchoOne(st, f);
    SentAs(Frame(true, OP_TEXT, f.payload));
    var echo := Frame(true, OP_TEXT, f.payload);
    assert EncodeAll([echo]) == Encode(echo) + EncodeAll([]);
  }

  /** The echo route sends a text frame, 0x81, for every message, of any length and however that is spelled. */
  lemma MessageEchoed(
    maxBody: nat, st: State, b0: Byte, lengthBytes: seq<Byte>, key: seq<Byte>, masked: seq<Byte>, p: seq<Byte>)
    requires Masked(masked, key, p) && |p| <= maxBody && Spells(lengthBytes, |p|) && (b0 == 0x81 || b0 == 0x82)
    ensures var o := Drain(ECHO, maxBody, st, [b0] + lengthBytes + key + masked);
            Output(o.sent) == Plainly(0x81, p) && o.open && o.rest == [] && o.dispatched == [Frame(true, b0 % 16, p)]
  {
    var f := Frame(true, b0 % 16, p);
    MaskedIs(masked, key, p);
    var e := AnyLength(b0, lengthBytes, key, f);
    var first, r := OnWire(e, f), Dispatch(ECHO, st, f);
    EchoOfMessage(st, f);
    DrainOnWire(ECHO, maxBody, st, ClientFrame(f, e), []);
    assert first + [] == first && r.sent + [] == r.sent && [f] + [] == [f];
  }

  /** One frame to the last bit: 81 81 37 00 00 00 7F is the text "H", and 81 01 48 its echo. */
  lemma OneFrame(st: State)
    ensures var o := Drain(ECHO, 1, st, [0x81, 0x81, 0x37, 0, 0, 0, 0x7F]);
            o.dispatched == [Frame(true, 1, [0x48])] && Output(o.sent) == [0x81, 1, 0x48]
  {
    var key, masked, p := [0x37, 0, 0, 0], [0x7F], [0x48];
    MaskedExample(key);
    ShortSpells(p);
    SevenBytes(key);
    MessageEchoed(1, st, 0x81, [0x81], key, masked, p);
  }

  lemma ShortSpells(p: seq<Byte>)
    requires |p| == 1
    ensures Spells([0x81], 1) && Plainly(0x81, p) == [0x81, 1] + p
  {
  }

  lemma MaskedExample(key: seq<Byte>)
    requires key == [0x37, 0, 0, 0]
    ensures Masked([0x7F], key, [0x48])
  {
    XorOfExample();
  }

  lemma SevenBytes(key: seq<Byte>)
    requires key == [0x37, 0, 0, 0]
    ensures [0x81] + [0x81] + key + [0x7F] == [0x81, 0x81, 0x37, 0, 0, 0, 0x7F]
  {
  }

  /** 0111 1111 is 0100 1000 with 0011 0111. */
  lemma XorOfExample()
    ensures IsXor(0x7F, 0x48, 0x37)
  {
    assert XorBits(1, 0, 0) == 0;
    assert XorBits(2, 1, 0) == 1;
    assert XorBits(3, 2, 1) == 3;
    assert XorBits(4, 4, 3) == 7;
    assert XorBits(5, 9, 6) == 15;
    assert XorBits(6, 18, 13) == 31;
    assert XorBits(7, 36, 27) == 63;
    assert XorBits(8, 72, 55) == 127;
    XorIsBitwise(0x48, 0x37, 0x7F);
  }
}
