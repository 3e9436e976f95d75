/** Server frames on the wire: `ws::sendFrame` and an independent decoder for RFC 6455, section 5.2. */
module Wire {
  import opened Bytes
  import opened RingBuffers

  const OP_TEXT: Byte := 0x1
  const OP_BINARY: Byte := 0x2
  const OP_CLOSE: Byte := 0x8
  const OP_PING: Byte := 0x9
  const OP_PONG: Byte := 0xA
  const CONTROL_MAX_PAYLOAD: nat := 125

  datatype Frame = Frame(fin: bool, opcode: Byte, payload: seq<Byte>)

  /** What a `u8` opcode nibble and a `size_t` payload length can express. */
  predicate Expressible(f: Frame) {
    f.opcode < 16 && |f.payload| < TWO_64
  }

  /** A control frame as section 5.5 of RFC 6455 wants it. */
  predicate ControlShape(f: Frame) {
    f.fin && 8 <= f.opcode < 16 && |f.payload| <= CONTROL_MAX_PAYLOAD
  }

  /** The status code a Close carries in its first two bytes, if it has that many. */
  function CloseCode(payload: seq<Byte>): Option<nat> {
    if |payload| >= 2 then Some(Number(payload[..2])) else None
  }

  /**
   * And section 5.5.1: the body of a Close, if there is one, starts with a status code.
   * Which codes mean something and how a reason is encoded is not looked at.
   */
  predicate LegalControl(f: Frame) {
    ControlShape(f) && (f.opcode == OP_CLOSE && f.payload != [] ==> CloseCode(f.payload).Some?)
  }

  /** The header bytes for a payload of `len` bytes: `opcode & 0x0F` is `opcode % 16`. */
  function Header(fin: bool, opcode: Byte, len: nat): seq<Byte> {
    var b0: Byte := (if fin then 0x80 else 0) + opcode % 16;
    if len <= 125 then [b0, len]
    else if len <= 0xFFFF then [b0, 126] + BigEndian(len, 2)
    else [b0, 127] + BigEndian(len, 8)
  }

  function Encode(f: Frame): seq<Byte> {
    Header(f.fin, f.opcode, |f.payload|) + f.payload
  }

  function EncodeAll(fs: seq<Frame>): seq<Byte> {
    if fs == [] then [] else Encode(fs[0]) + EncodeAll(fs[1..])
  }

  lemma {:induction false} EncodeAllAppend(a: seq<Frame>, b: seq<Frame>)
    ensures EncodeAll(a + b) == EncodeAll(a) + EncodeAll(b)
  {
    if a == [] {
      assert a + b == b;
    } else {
      assert (a + b)[1..] == a[1..] + b && (a + b)[0] == a[0];
      EncodeAllAppend(a[1..], b);
      Assoc(Encode(a[0]), EncodeAll(a[1..]), EncodeAll(b));
    }
  }

  // ---- sending ----

  lemma WideLength(len: nat, k: nat)
    requires 2 <= k < 10
    ensures ([0, 127] + BigEndian(len, 8))[k] == ByteAt(len, 9 - k)
  {
    BigEndianIndex(len, 8, k - 2);
  }

  /** Fills the scratch array with the header and returns its length. */
  method FillHeader(hdr: array<Byte>, opcode: Byte, len: nat, fin: bool) returns (hdrLen: nat)
    requires hdr.Length == 14 && len < TWO_64
    modifies hdr
    ensures hdrLen <= 10 && hdr[..hdrLen] == Header(fin, opcode, len)
  {
    hdr[0] := (if fin then 0x80 else 0) + opcode % 16;
    hdrLen := 1;
    if len <= 125 {
      hdr[hdrLen] := len;
      hdrLen := hdrLen + 1;
    } else if len <= 0xFFFF {
      hdr[hdrLen] := 126;
      hdr[hdrLen + 1] := ByteAt(len, 1);
      hdr[hdrLen + 2] := ByteAt(len, 0);
      hdrLen := hdrLen + 3;
      BigEndianIndex(len, 2, 0);
      BigEndianIndex(len, 2, 1);
      assert hdr[2..4] == BigEndian(len, 2);
    } else {
      hdr[hdrLen] := 127;
      hdrLen := hdrLen + 1;
      var i := 8;
      while i > 0
        invariant 0 <= i <= 8 && hdrLen == 10 - i
        invariant hdr[0] == (if fin then 0x80 else 0) + opcode % 16 && hdr[1] == 127
        invariant forall k :: 2 <= k < hdrLen ==> hdr[k] == ByteAt(len, 9 - k)
      {
        i := i - 1;
        hdr[hdrLen] := ByteAt(len, i);
        hdrLen := hdrLen + 1;
      }
      forall k | 2 <= k < 10
        ensures hdr[k] == ([0, 127] + BigEndian(len, 8))[k]
      {
        WideLength(len, k);
      }
      assert hdr[2..10] == BigEndian(len, 8);
    }
  }

  /** Builds the header in a 14-byte scratch array, then appends header and payload; neither result is looked at. */
  method SendFrame(writeBuf: RingBuffer, opcode: Byte, payload: seq<Byte>, fin: bool)
    requires writeBuf.Valid() && |payload| < TWO_64
    modifies writeBuf
    ensures writeBuf.Valid()
    ensures writeBuf.contents ==
            old(writeBuf.contents) + Clip(Encode(Frame(fin, opcode, payload)), old(writeBuf.Room()))
  {
    var hdr := new Byte[14];
    var hdrLen := FillHeader(hdr, opcode, |payload|, fin);
    ghost var before, room := writeBuf.contents, writeBuf.Room();
    ghost var h := hdr[..hdrLen];
    ghost var first, second := Clip(h, room), Clip(payload, room - |Clip(h, room)|);
    ClipAppend(h, payload, room);
    var _ := WriteAll(writeBuf, hdr[..hdrLen]);
    if payload != [] {
      var _ := WriteAll(writeBuf, payload);
    }
    assert payload == [] ==> second == [];
    assert writeBuf.contents == before + first + second;
    Assoc(before, first, second);
    assert h + payload == Encode(Frame(fin, opcode, payload));
  }

  // ---- a receiver written from the standard ----

  datatype Decoded = Incomplete | Malformed | Complete(frame: Frame, size: nat)

  /**
   * One unmasked frame at the front of `s`: reserved bits clear, length in its
   * shortest form (RFC 6455, section 5.2).
   */
  function Decode(s: seq<Byte>): (d: Decoded)
    ensures d.Complete? ==> 2 <= d.size <= |s|
  {
    if |s| < 2 then Incomplete
    else if (s[0] / 16) % 8 != 0 || s[1] >= 128 then Malformed
    else
      var fin, opcode := s[0] >= 128, s[0] % 16;
      if s[1] <= 125 then WithPayload(s, fin, opcode, 2, s[1])
      else if s[1] == 126 then
        if |s| < 4 then Incomplete
        else if Number(s[2..4]) <= 125 then Malformed
        else WithPayload(s, fin, opcode, 4, Number(s[2..4]))
      else
        if |s| < 10 then Incomplete
        else if Number(s[2..10]) <= 0xFFFF then Malformed
        else WithPayload(s, fin, opcode, 10, Number(s[2..10]))
  }

  function WithPayload(s: seq<Byte>, fin: bool, opcode: Byte, at: nat, len: nat): (d: Decoded)
    requires 2 <= at <= |s|
    ensures d.Complete? ==> 2 <= d.size <= |s|
  {
    if |s| < at + len then Incomplete else Complete(Frame(fin, opcode, s[at..at + len]), at + len)
  }

  /** All complete frames at the front of a stream. */
  function DecodeAll(s: seq<Byte>): seq<Frame> {
    match Decode(s)
    case Complete(f, n) => [f] + DecodeAll(s[n..])
    case _ => []
  }

  /** What `DecodeAll` leaves over. */
  function Undecoded(s: seq<Byte>): seq<Byte> {
    match Decode(s)
    case Complete(_, n) => Undecoded(s[n..])
    case _ => s
  }

  /** The length spelled in a header reads back. */
  lemma HeaderLength(f: Frame, s: seq<Byte>)
    requires Expressible(f) && Header(f.fin, f.opcode, |f.payload|) <= s
    ensures 125 < |f.payload| <= 0xFFFF ==> |s| >= 4 && Number(s[2..4]) == |f.payload|
    ensures |f.payload| > 0xFFFF ==> |s| >= 10 && Number(s[2..10]) == |f.payload|
  {
    var len := |f.payload|;
    var k := if len <= 0xFFFF then 2 else 8;
    WordSizes();
    if len > 125 {
      assert s[2..2 + k] == Header(f.fin, f.opcode, len)[2..] == BigEndian(len, k);
      NumberOfBigEndian(len, k);
    }
  }

  /** A header is read to its end. */
  lemma HeaderSelects(f: Frame, s: seq<Byte>)
    requires Expressible(f) && Header(f.fin, f.opcode, |f.payload|) <= s
    ensures Decode(s) == WithPayload(s, f.fin, f.opcode, |Header(f.fin, f.opcode, |f.payload|)|, |f.payload|)
  {
    HeaderLength(f, s);
    assert s[0] == Header(f.fin, f.opcode, |f.payload|)[0] && s[1] == Header(f.fin, f.opcode, |f.payload|)[1];
  }

  lemma DecodeOfEncode(f: Frame, tail: seq<Byte>)
    requires Expressible(f)
    ensures Decode(Encode(f) + tail) == Complete(f, |Encode(f)|)
  {
    var h := Header(f.fin, f.opcode, |f.payload|);
    var s := h + f.payload + tail;
    Slices(h, f.payload, tail, []);
    assert s + [] == s;
    HeaderSelects(f, s);
  }

  lemma DecodeStep(f: Frame, tail: seq<Byte>)
    requires Expressible(f)
    ensures DecodeAll(Encode(f) + tail) == [f] + DecodeAll(tail)
    ensures Undecoded(Encode(f) + tail) == Undecoded(tail)
  {
    DecodeOfEncode(f, tail);
    assert (Encode(f) + tail)[|Encode(f)|..] == tail;
  }

  /** More bytes never change a frame that was already complete. */
  lemma DecodeStable(a: seq<Byte>, b: seq<Byte>)
    requires Decode(a).Complete?
    ensures Decode(a + b) == Decode(a)
  {
    var s := a + b;
    assert s[0] == a[0] && s[1] == a[1];
    if a[1] == 126 {
      assert s[2..4] == a[2..4];
    } else if a[1] == 127 {
      assert s[2..10] == a[2..10];
    }
    var n := Decode(a).size;
    assert s[..n] == a[..n];
    var at := if a[1] <= 125 then 2 else if a[1] == 126 then 4 else 10;
    assert s[at..n] == a[at..n];
  }

  /**
   * The concatenated output of any sequence of `sendFrame` calls decodes back to
   * exactly the frames sent, leaving exactly what follows them.
   */
  lemma {:induction false} ServerStreamDecodes(fs: seq<Frame>, tail: seq<Byte>)
    requires forall f :: f in fs ==> Expressible(f)
    ensures DecodeAll(EncodeAll(fs) + tail) == fs + DecodeAll(tail)
    ensures Undecoded(EncodeAll(fs) + tail) == Undecoded(tail)
  {
    if fs == [] {
      assert EncodeAll(fs) + tail == tail;
    } else {
      ServerStreamDecodes(fs[1..], tail);
      Assoc(Encode(fs[0]), EncodeAll(fs[1..]), tail);
      DecodeStep(fs[0], EncodeAll(fs[1..]) + tail);
      Assoc([fs[0]], fs[1..], DecodeAll(tail));
      assert [fs[0]] + fs[1..] == fs;
    }
  }

  /** Two different frame sequences never share their bytes. */
  lemma ServerStreamInjective(fs: seq<Frame>, gs: seq<Frame>)
    requires forall f :: f in fs || f in gs ==> Expressible(f)
    requires EncodeAll(fs) == EncodeAll(gs)
    ensures fs == gs
  {
    ServerStreamDecodes(fs, []);
    ServerStreamDecodes(gs, []);
    assert EncodeAll(fs) + [] == EncodeAll(fs) && EncodeAll(gs) + [] == EncodeAll(gs);
    assert fs + DecodeAll([]) == fs && gs + DecodeAll([]) == gs;
  }

  /** A receiver that has seen less has decoded a prefix of what it will decode. */
  lemma {:induction false} DecodeAllMonotone(a: seq<Byte>, b: seq<Byte>)
    ensures DecodeAll(a) <= DecodeAll(a + b)
    decreases |a|
  {
    if Decode(a).Complete? {
      var n := Decode(a).size;
      DecodeStable(a, b);
      assert (a + b)[n..] == a[n..] + b;
      DecodeAllMonotone(a[n..], b);
    }
  }

  /** Whatever part of a server stream has arrived, the frames decoded from it are the first ones sent. */
  lemma PrefixDecodes(seen: seq<Byte>, fs: seq<Frame>)
    requires forall f :: f in fs ==> Expressible(f)
    requires seen <= EncodeAll(fs)
    ensures DecodeAll(seen) <= fs
  {
    var unseen := EncodeAll(fs)[|seen|..];
    assert EncodeAll(fs) == seen + unseen;
    DecodeAllMonotone(seen, unseen);
    ServerStreamDecodes(fs, []);
    assert EncodeAll(fs) + [] == EncodeAll(fs);
  }

  /** A control frame has a two-byte header that spells its length. */
  lemma ControlHeader(f: Frame)
    requires ControlShape(f)
    ensures |Encode(f)| == 2 + |f.payload|
    ensures Encode(f)[0] == 0x80 + f.opcode && Encode(f)[1] == |f.payload|
  {
  }
}
