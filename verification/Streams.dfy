/**
 * What the WebSocket engine does to a whole byte stream: independence from how
 * the stream is chopped, exactly which bytes it accepts, and what it answers.
 */
module Streams {
  import opened Bytes
  import opened Wire
  import opened Engine

  // ---- chunking ----

  /** Where the mask key of a masked frame starts. */
  function KeyAt(b1: Byte): nat {
    if b1 % 128 == 126 then 4 else if b1 % 128 == 127 then 10 else 2
  }

  lemma SliceOfFront(a: seq<Byte>, b: seq<Byte>, i: nat, j: nat)
    requires i <= j <= |a|
    ensures (a + b)[i..j] == a[i..j]
  {
  }

  /** A verdict on the front of the buffer is not changed by bytes that arrive later. */
  lemma ParseStable(a: seq<Byte>, b: seq<Byte>, maxBody: nat)
    requires !Parse(a, maxBody).NeedMore?
    ensures Parse(a + b, maxBody) == Parse(a, maxBody)
  {
    assert (a + b)[0] == a[0] && (a + b)[1] == a[1];
    var at := KeyAt(a[1]);
    if a[1] >= 128 && at > 2 {
      SliceOfFront(a, b, 2, at);
    }
    if Parse(a, maxBody).Taken? {
      SliceOfFront(a, b, at, at + 4);
      SliceOfFront(a, b, at + 4, Parse(a, maxBody).size);
    }
  }

  /** Running on `a` and then, once `b` has arrived, on what is left over is one run on `a + b`. */
  lemma {:induction false} DrainSplit(h: Handler, maxBody: nat, st: State, a: seq<Byte>, b: seq<Byte>)
    ensures var o := Drain(h, maxBody, st, a);
            Drain(h, maxBody, st, a + b) ==
            if o.open then Prepend(o.sent, o.dispatched, Drain(h, maxBody, o.state, o.rest + b))
            else o.(rest := o.rest + b)
    decreases |a|
  {
    match Parse(a, maxBody)
    case NeedMore =>
      var o := Drain(h, maxBody, st, a + b);
      assert [] + o.sent == o.sent && [] + o.dispatched == o.dispatched;
    case Rejected =>
      ParseStable(a, b, maxBody);
    case Taken(f, n) =>
      ParseStable(a, b, maxBody);
      assert (a + b)[n..] == a[n..] + b;
      var r := Dispatch(h, st, f);
      if r.open {
        DrainSplit(h, maxBody, r.state, a[n..], b);
        var o := Drain(h, maxBody, r.state, a[n..]);
        if o.open {
          var later := Drain(h, maxBody, o.state, o.rest + b);
          Assoc(r.sent, o.sent, later.sent);
          Assoc([f], o.dispatched, later.dispatched);
        }
      }
  }

  /** A connection that is handed its bytes piece by piece and stops for good once told to close. */
  function Feed(h: Handler, maxBody: nat, o: Outcome, chunks: seq<seq<Byte>>): Outcome
    decreases |chunks|
  {
    if chunks == [] then o
    else
      var next :=
        if o.open then Prepend(o.sent, o.dispatched, Drain(h, maxBody, o.state, o.rest + chunks[0]))
        else o.(rest := o.rest + chunks[0]);
      Feed(h, maxBody, next, chunks[1..])
  }

  lemma {:induction false} FeedFrom(h: Handler, maxBody: nat, st: State, seen: seq<Byte>, chunks: seq<seq<Byte>>)
    ensures Feed(h, maxBody, Drain(h, maxBody, st, seen), chunks) == Drain(h, maxBody, st, seen + Concat(chunks))
    decreases |chunks|
  {
    if chunks == [] {
      assert seen + [] == seen;
    } else {
      DrainSplit(h, maxBody, st, seen, chunks[0]);
      FeedFrom(h, maxBody, st, seen + chunks[0], chunks[1..]);
      Assoc(seen, chunks[0], Concat(chunks[1..]));
    }
  }

  /** However a stream is chopped, its outcome is that of one run over all of it. */
  lemma ChunkingIndependence(h: Handler, maxBody: nat, st: State, chunks: seq<seq<Byte>>)
    ensures Feed(h, maxBody, Outcome(st, [], [], [], true), chunks) == Drain(h, maxBody, st, Concat(chunks))
  {
    FeedFrom(h, maxBody, st, [], chunks);
    assert [] + Concat(chunks) == Concat(chunks);
  }

  /** What has been answered to part of a stream is the beginning of the answer to all of it. */
  lemma AnswersGrow(h: Handler, maxBody: nat, st: State, a: seq<Byte>, b: seq<Byte>)
    ensures Drain(h, maxBody, st, a).sent <= Drain(h, maxBody, st, a + b).sent
    ensures Output(Drain(h, maxBody, st, a).sent) <= Output(Drain(h, maxBody, st, a + b).sent)
  {
    DrainSplit(h, maxBody, st, a, b);
    var x, y := Drain(h, maxBody, st, a).sent, Drain(h, maxBody, st, a + b).sent;
    assert x + y[|x|..] == y;
    OutputAppend(x, y[|x|..]);
  }

  /**
   * Every dispatched frame consumes at least six bytes, nothing is consumed but
   * frames, and what is left to wait for more is less than one frame.
   */
  lemma {:induction false} FramesBounded(h: Handler, maxBody: nat, st: State, data: seq<Byte>)
    ensures var o := Drain(h, maxBody, st, data);
            |o.rest| <= |data| && o.rest == data[|data| - |o.rest|..] && 6 * |o.dispatched| <= |data| - |o.rest| &&
            (o.open ==> |o.rest| < 14 + maxBody)
    decreases |data|
  {
    match Parse(data, maxBody)
    case Taken(f, n) =>
      var r := Dispatch(h, st, f);
      if r.open {
        FramesBounded(h, maxBody, r.state, data[n..]);
      }
    case _ =>
  }

  // ---- the accepted language ----

  /** How the length is spelled: in the second byte, in two more, or in eight more. */
  datatype Form = Short | Medium | Long

  /** Everything in a client frame that the engine does not look at or that it undoes. */
  datatype Envelope = Envelope(reserved: nat, form: Form, key: seq<Byte>)

  predicate Fits(e: Envelope, f: Frame) {
    f.opcode < 16 && e.reserved < 8 && |e.key| == 4 &&
    match e.form
    case Short => |f.payload| <= 125
    case Medium => |f.payload| <= 0xFFFF
    case Long => |f.payload| < TWO_64
  }

  /** The frames the engine lets through: bounded, and at most 125 bytes for a control frame. */
  predicate Admitted(f: Frame, maxBody: nat) {
    |f.payload| <= maxBody && (f.opcode >= 8 ==> |f.payload| <= CONTROL_MAX_PAYLOAD)
  }

  /** The first byte of a masked frame: FIN, reserved bits, opcode. */
  function Byte0(fin: bool, reserved: nat, opcode: nat): Byte
    requires reserved < 8 && opcode < 16
  {
    (if fin then 0x80 else 0) + 16 * reserved + opcode
  }

  lemma Byte0Parts(fin: bool, reserved: nat, opcode: nat)
    requires reserved < 8 && opcode < 16
    ensures var b := Byte0(fin, reserved, opcode);
            (b >= 128 <==> fin) && b / 16 % 8 == reserved && b % 16 == opcode
  {
  }

  lemma Byte0OfParts(b: Byte)
    ensures b == Byte0(b >= 128, b / 16 % 8, b % 16)
  {
  }

  function ClientHead(e: Envelope, f: Frame): seq<Byte>
    requires Fits(e, f)
  {
    var len := |f.payload|;
    var b0 := Byte0(f.fin, e.reserved, f.opcode);
    match e.form
    case Short => [b0, 0x80 + len]
    case Medium => [b0, 0x80 + 126] + BigEndian(len, 2)
    case Long => [b0, 0x80 + 127] + BigEndian(len, 8)
  }

  /** A masked frame on the wire. */
  function OnWire(e: Envelope, f: Frame): seq<Byte>
    requires Fits(e, f)
  {
    ClientHead(e, f) + e.key + Mask(e.key, f.payload)
  }

  lemma MaskTwice(key: seq<Byte>, data: seq<Byte>)
    requires |key| == 4
    ensures Mask(key, Mask(key, data)) == data
  {
    forall i | 0 <= i < |data|
      ensures Mask(key, Mask(key, data))[i] == data[i]
    {
      XorTwice(data[i], key[i % 4]);
    }
  }

  lemma BodyOnWire(s: seq<Byte>, maxBody: nat, at: nat, key: seq<Byte>, f: Frame)
    requires 2 <= at && at + 4 + |f.payload| <= |s| && |key| == 4 && f.opcode < 16 && Admitted(f, maxBody)
    requires (s[0] >= 128 <==> f.fin) && s[0] % 16 == f.opcode
    requires s[at..at + 4] == key && s[at + 4..at + 4 + |f.payload|] == Mask(key, f.payload)
    ensures ParseBody(s, maxBody, at, |f.payload|) == Taken(f, at + 4 + |f.payload|)
  {
    MaskTwice(key, f.payload);
  }

  lemma LengthReads(e: Envelope, f: Frame, s: seq<Byte>)
    requires Fits(e, f) && ClientHead(e, f) <= s
    ensures e.form.Medium? ==> |s| >= 4 && Number(s[2..4]) == |f.payload|
    ensures e.form.Long? ==> |s| >= 10 && Number(s[2..10]) == |f.payload|
  {
    var k := if e.form.Medium? then 2 else 8;
    WordSizes();
    if !e.form.Short? {
      assert s[2..2 + k] == ClientHead(e, f)[2..] == BigEndian(|f.payload|, k);
      NumberOfBigEndian(|f.payload|, k);
    }
  }

  /** A head is read to its end, and the length spelled in it reads back. */
  lemma HeadSelects(e: Envelope, f: Frame, s: seq<Byte>, maxBody: nat)
    requires Fits(e, f) && ClientHead(e, f) <= s
    ensures Parse(s, maxBody) == ParseBody(s, maxBody, |ClientHead(e, f)|, |f.payload|)
    ensures (s[0] >= 128 <==> f.fin) && s[0] % 16 == f.opcode
  {
    Byte0Parts(f.fin, e.reserved, f.opcode);
    LengthReads(e, f, s);
    assert s[0] == ClientHead(e, f)[0] && s[1] == ClientHead(e, f)[1];
  }

  lemma ParseOnWire(e: Envelope, f: Frame, tail: seq<Byte>, maxBody: nat)
    requires Fits(e, f) && Admitted(f, maxBody)
    ensures Parse(OnWire(e, f) + tail, maxBody) == Taken(f, |OnWire(e, f)|)
  {
    var head, masked := ClientHead(e, f), Mask(e.key, f.payload);
    var s := OnWire(e, f) + tail;
    Slices(head, e.key, masked, tail);
    HeadSelects(e, f, s, maxBody);
    BodyOnWire(s, maxBody, |head|, e.key, f);
  }

  /** The envelope a taken frame came in. */
  function EnvelopeOf(data: seq<Byte>, maxBody: nat): Envelope
    requires Parse(data, maxBody).Taken?
  {
    var at := KeyAt(data[1]);
    Envelope(data[0] / 16 % 8, FormOf(data[1]), data[at..at + 4])
  }

  /** The length spelled at the front of a masked frame. */
  function LengthAt(data: seq<Byte>): nat
    requires |data| >= 2 && |data| >= KeyAt(data[1])
  {
    if KeyAt(data[1]) == 2 then data[1] % 128 else Number(data[2..KeyAt(data[1])])
  }

  function FormOf(b1: Byte): Form {
    if KeyAt(b1) == 4 then Medium else if KeyAt(b1) == 10 then Long else Short
  }

  /** Every masked head there is spells the head of some frame. */
  lemma HeadSpells(data: seq<Byte>, key: seq<Byte>, f: Frame)
    requires |data| >= 2 && data[1] >= 128 && |data| >= KeyAt(data[1]) && |key| == 4
    requires (data[0] >= 128 <==> f.fin) && data[0] % 16 == f.opcode && |f.payload| == LengthAt(data)
    ensures var e := Envelope(data[0] / 16 % 8, FormOf(data[1]), key);
            Fits(e, f) && ClientHead(e, f) == data[..KeyAt(data[1])]
  {
    var at := KeyAt(data[1]);
    Byte0OfParts(data[0]);
    WordSizes();
    if at == 2 {
      assert data[..at] == [data[0], data[1]];
    } else {
      BigEndianOfNumber(data[2..at]);
      assert data[..at] == [data[0], data[1]] + data[2..at];
    }
  }

  lemma ThreePieces(data: seq<Byte>, i: nat, j: nat, n: nat)
    requires i <= j <= n <= |data|
    ensures data[..n] == data[..i] + data[i..j] + data[j..n]
  {
  }

  lemma HeadWasRead(data: seq<Byte>, maxBody: nat)
    requires Parse(data, maxBody).Taken?
    ensures var f, n := Parse(data, maxBody).frame, Parse(data, maxBody).size;
            var e, at := EnvelopeOf(data, maxBody), KeyAt(data[1]);
            Fits(e, f) && Admitted(f, maxBody) && ClientHead(e, f) == data[..at] && n == at + 4 + |f.payload| &&
            f.payload == Mask(e.key, data[at + 4..n])
  {
    HeadSpells(data, EnvelopeOf(data, maxBody).key, Parse(data, maxBody).frame);
  }

  lemma TakenWasOnWire(data: seq<Byte>, maxBody: nat)
    requires Parse(data, maxBody).Taken?
    ensures var f, n, e := Parse(data, maxBody).frame, Parse(data, maxBody).size, EnvelopeOf(data, maxBody);
            Fits(e, f) && Admitted(f, maxBody) && data[..n] == OnWire(e, f)
  {
    var f, n, e, at := Parse(data, maxBody).frame, Parse(data, maxBody).size, EnvelopeOf(data, maxBody), KeyAt(data[1]);
    HeadWasRead(data, maxBody);
    MaskTwice(e.key, data[at + 4..n]);
    ThreePieces(data, at, at + 4, n);
  }

  /**
   * Exactly which bytes are taken as frame `f`: its masked encodings, under any key,
   * any reserved bits and any length form, when `f` is admitted.
   */
  lemma AcceptedLanguage(data: seq<Byte>, maxBody: nat, f: Frame, n: nat)
    ensures Parse(data, maxBody) == Taken(f, n) <==>
            exists e: Envelope :: Fits(e, f) && Admitted(f, maxBody) && n == |OnWire(e, f)| && OnWire(e, f) <= data
  {
    if Parse(data, maxBody) == Taken(f, n) {
      TakenWasOnWire(data, maxBody);
      assert OnWire(EnvelopeOf(data, maxBody), f) == data[..n];
    }
    forall e: Envelope | Fits(e, f) && Admitted(f, maxBody) && n == |OnWire(e, f)| && OnWire(e, f) <= data
      ensures Parse(data, maxBody) == Taken(f, n)
    {
      ParseOnWire(e, f, data[n..], maxBody);
      assert data == OnWire(e, f) + data[n..];
    }
  }

  /** A head that alone condemns its frame, whatever follows it. */
  predicate Condemned(e: Envelope, f: Frame, data: seq<Byte>, maxBody: nat) {
    Fits(e, f) && !Admitted(f, maxBody) && ClientHead(e, f) <= data
  }

  lemma RejectedIsCondemned(data: seq<Byte>, maxBody: nat)
    requires Parse(data, maxBody).Rejected? && data[1] >= 128
    ensures exists e: Envelope, f: Frame :: Condemned(e, f, data, maxBody)
  {
    var f := Frame(data[0] >= 128, data[0] % 16, seq(LengthAt(data), _ => 0));
    HeadSpells(data, [0, 0, 0, 0], f);
    assert Condemned(Envelope(data[0] / 16 % 8, FormOf(data[1]), [0, 0, 0, 0]), f, data, maxBody);
  }

  /**
   * Exactly which bytes are refused: an unmasked second byte, or the head of a
   * masked frame that is not admitted. The payload need not have arrived.
   */
  lemma RefusedLanguage(data: seq<Byte>, maxBody: nat)
    ensures Parse(data, maxBody).Rejected? <==>
            |data| >= 2 && (data[1] < 128 || exists e: Envelope, f: Frame :: Condemned(e, f, data, maxBody))
  {
    if Parse(data, maxBody).Rejected? && data[1] >= 128 {
      RejectedIsCondemned(data, maxBody);
    }
    forall e: Envelope, f: Frame | Condemned(e, f, data, maxBody)
      ensures |data| >= 2 && Parse(data, maxBody).Rejected?
    {
      HeadSelects(e, f, data, maxBody);
    }
  }

  lemma ShorterWaits(s: seq<Byte>, n: nat, maxBody: nat)
    requires n < |s| && Parse(s, maxBody).Taken? && Parse(s, maxBody).size == |s|
    ensures Parse(s[..n], maxBody).NeedMore?
  {
    assert s[..n] + s[n..] == s;
    if !Parse(s[..n], maxBody).NeedMore? {
      ParseStable(s[..n], s[n..], maxBody);
    }
  }

  /** A beginning of a frame that is not all of it is waited on. */
  lemma FrontWaits(e: Envelope, f: Frame, n: nat, maxBody: nat)
    requires Fits(e, f) && Admitted(f, maxBody) && n < |OnWire(e, f)|
    ensures Parse(OnWire(e, f)[..n], maxBody).NeedMore?
  {
    var s := OnWire(e, f);
    ParseOnWire(e, f, [], maxBody);
    assert s + [] == s;
    ShorterWaits(s, n, maxBody);
  }

  /** The longest frame there is: its length spelled in eight bytes, and as much payload as is admitted. */
  lemma LongestFrame(maxBody: nat) returns (e: Envelope, f: Frame)
    requires maxBody < TWO_64
    ensures Fits(e, f) && Admitted(f, maxBody) && |OnWire(e, f)| == maxBody + 14
  {
    e, f := Envelope(0, Long, [0, 0, 0, 0]), Frame(true, OP_TEXT, seq(maxBody, _ => 0));
    assert |ClientHead(e, f)| == 10;
  }

  /** What an engine that goes on leaves in a read buffer of this size never fills it. */
  ghost predicate NeverFills(h: Handler, maxBody: nat, capacity: nat) {
    forall data: seq<Byte> :: Drain(h, maxBody, FRESH, data).open ==> |Drain(h, maxBody, FRESH, data).rest| < capacity
  }

  /** A read buffer is never left full exactly when it is longer than any beginning of a frame. */
  lemma ReadBufferExactly(h: Handler, maxBody: nat, capacity: nat)
    requires maxBody < TWO_64
    ensures NeverFills(h, maxBody, capacity) <==> capacity >= maxBody + 14
  {
    if capacity >= maxBody + 14 {
      forall data: seq<Byte> | Drain(h, maxBody, FRESH, data).open
        ensures |Drain(h, maxBody, FRESH, data).rest| < capacity
      {
        FramesBounded(h, maxBody, FRESH, data);
      }
    } else {
      var e, f := LongestFrame(maxBody);
      var data := OnWire(e, f)[..capacity];
      FrontWaits(e, f, capacity, maxBody);
      assert Drain(h, maxBody, FRESH, data) == Outcome(FRESH, [], [], data, true);
    }
  }

  // ---- client streams ----

  datatype ClientFrame = ClientFrame(frame: Frame, envelope: Envelope)

  /** Frames a client may put on the wire without being refused. */
  predicate Sendable(cs: seq<ClientFrame>, maxBody: nat) {
    forall c :: c in cs ==> Fits(c.envelope, c.frame) && Admitted(c.frame, maxBody)
  }

  function ClientStream(cs: seq<ClientFrame>, maxBody: nat): seq<Byte>
    requires Sendable(cs, maxBody)
  {
    if cs == [] then [] else OnWire(cs[0].envelope, cs[0].frame) + ClientStream(cs[1..], maxBody)
  }

  function Bare(cs: seq<ClientFrame>): (fs: seq<Frame>)
    ensures |fs| == |cs|
  {
    if cs == [] then [] else [cs[0].frame] + Bare(cs[1..])
  }

  /** The envelope `sendFrame`'s own header rule gives: no reserved bits, shortest form. */
  function Plain(f: Frame, key: seq<Byte>): Envelope {
    Envelope(0, if |f.payload| <= 125 then Short else if |f.payload| <= 0xFFFF then Medium else Long, key)
  }

  /** `Plain` is `sendFrame`'s header with the mask bit set. */
  lemma PlainIsSendFrameHeader(f: Frame, key: seq<Byte>)
    requires Expressible(f) && |key| == 4
    ensures Fits(Plain(f, key), f)
    ensures var h := Header(f.fin, f.opcode, |f.payload|);
            h[1] < 128 && OnWire(Plain(f, key), f) == h[1 := h[1] + 0x80] + key + Mask(key, f.payload)
  {
  }

  /** Frames handed to the dispatcher one by one until it asks to close. */
  datatype Dispatched = Dispatched(state: State, sent: seq<Sent>, used: nat, open: bool)

  function DispatchAll(h: Handler, st: State, fs: seq<Frame>): (d: Dispatched)
    ensures d.used <= |fs| && (d.open ==> d.used == |fs|)
    decreases |fs|
  {
    if fs == [] then Dispatched(st, [], 0, true)
    else
      var r := Dispatch(h, st, fs[0]);
      if !r.open then Dispatched(r.state, r.sent, 1, false)
      else
        var d := DispatchAll(h, r.state, fs[1..]);
        Dispatched(d.state, r.sent + d.sent, 1 + d.used, d.open)
  }

  /** One masked frame at the front is dispatched as it was, and exactly its bytes are consumed. */
  lemma DrainOnWire(h: Handler, maxBody: nat, st: State, c: ClientFrame, rest: seq<Byte>)
    requires Fits(c.envelope, c.frame) && Admitted(c.frame, maxBody)
    ensures var r := Dispatch(h, st, c.frame);
            Drain(h, maxBody, st, OnWire(c.envelope, c.frame) + rest) ==
            if r.open then Prepend(r.sent, [c.frame], Drain(h, maxBody, r.state, rest))
            else Outcome(r.state, r.sent, [c.frame], rest, false)
  {
    var first := OnWire(c.envelope, c.frame);
    ParseOnWire(c.envelope, c.frame, rest, maxBody);
    assert (first + rest)[|first|..] == rest;
  }

  lemma StreamCons(cs: seq<ClientFrame>, tail: seq<Byte>, maxBody: nat)
    requires Sendable(cs, maxBody) && cs != []
    ensures ClientStream(cs, maxBody) + tail ==
            OnWire(cs[0].envelope, cs[0].frame) + (ClientStream(cs[1..], maxBody) + tail)
  {
    Assoc(OnWire(cs[0].envelope, cs[0].frame), ClientStream(cs[1..], maxBody), tail);
  }

  /** What `ClientRoundTrip` says the outcome is. */
  function RoundTrip(h: Handler, maxBody: nat, st: State, cs: seq<ClientFrame>, tail: seq<Byte>): Outcome
    requires Sendable(cs, maxBody)
  {
    var d := DispatchAll(h, st, Bare(cs));
    if d.open then Prepend(d.sent, Bare(cs), Drain(h, maxBody, d.state, tail))
    else Outcome(d.state, d.sent, Bare(cs)[..d.used], ClientStream(cs[d.used..], maxBody) + tail, false)
  }

  lemma RoundTripCons(h: Handler, maxBody: nat, st: State, cs: seq<ClientFrame>, tail: seq<Byte>)
    requires Sendable(cs, maxBody) && cs != []
    ensures var f := cs[0].frame;
            var r := Dispatch(h, st, f);
            RoundTrip(h, maxBody, st, cs, tail) ==
            if r.open then Prepend(r.sent, [f], RoundTrip(h, maxBody, r.state, cs[1..], tail))
            else Outcome(r.state, r.sent, [f], ClientStream(cs[1..], maxBody) + tail, false)
  {
    var f := cs[0].frame;
    var r := Dispatch(h, st, f);
    if r.open {
      var d := DispatchAll(h, r.state, Bare(cs[1..]));
      if d.open {
        var o := Drain(h, maxBody, d.state, tail);
        Assoc(r.sent, d.sent, o.sent);
        Assoc([f], Bare(cs[1..]), o.dispatched);
      } else {
        assert cs[1..][d.used..] == cs[1 + d.used..];
        assert Bare(cs)[..1 + d.used] == [f] + Bare(cs[1..])[..d.used];
      }
    } else {
      assert Bare(cs)[..1] == [f];
    }
  }

  /** A client's frames reach the dispatcher as they were, in order, and nothing more is consumed. */
  lemma {:induction false} ClientRoundTrip(h: Handler, maxBody: nat, st: State, cs: seq<ClientFrame>, tail: seq<Byte>)
    requires Sendable(cs, maxBody)
    ensures Drain(h, maxBody, st, ClientStream(cs, maxBody) + tail) == RoundTrip(h, maxBody, st, cs, tail)
    decreases |cs|
  {
    if cs == [] {
      var o := Drain(h, maxBody, st, tail);
      assert ClientStream(cs, maxBody) + tail == tail;
      assert [] + o.sent == o.sent && [] + o.dispatched == o.dispatched;
    } else {
      StreamCons(cs, tail, maxBody);
      RoundTripCons(h, maxBody, st, cs, tail);
      DrainOnWire(h, maxBody, st, cs[0], ClientStream(cs[1..], maxBody) + tail);
      if Dispatch(h, st, cs[0].frame).open {
        ClientRoundTrip(h, maxBody, Dispatch(h, st, cs[0].frame).state, cs[1..], tail);
      }
    }
  }

  /** Final frames of the kinds the dispatcher knows. */
  predicate Known(f: Frame) {
    f.fin && f.opcode in {OP_TEXT, OP_BINARY, OP_PING, OP_PONG, OP_CLOSE}
  }

  function FirstClose(fs: seq<Frame>): (k: nat)
    ensures k <= |fs|
    ensures forall i :: 0 <= i < k ==> fs[i].opcode != OP_CLOSE
    ensures k < |fs| ==> fs[k].opcode == OP_CLOSE
  {
    if fs == [] || fs[0].opcode == OP_CLOSE then 0 else 1 + FirstClose(fs[1..])
  }

  /** Of known frames exactly those up to and including the first Close are dispatched. */
  lemma {:induction false} UpToFirstClose(h: Handler, st: State, fs: seq<Frame>)
    requires forall f :: f in fs ==> Known(f)
    ensures var d := DispatchAll(h, st, fs);
            (d.open <==> FirstClose(fs) == |fs|) && d.used == FirstClose(fs) + if d.open then 0 else 1
    decreases |fs|
  {
    if fs != [] {
      assert Known(fs[0]);
      if fs[0].opcode != OP_CLOSE {
        assert Dispatch(h, st, fs[0]).open;
        UpToFirstClose(h, Dispatch(h, st, fs[0]).state, fs[1..]);
      }
    }
  }

  // ---- what the engine answers ----

  /** The frames the engine sent on its own account. */
  function Own(sent: seq<Sent>): seq<Frame> {
    if sent == [] then [] else (if sent[0].byEngine then [sent[0].frame] else []) + Own(sent[1..])
  }

  lemma {:induction false} OwnAppend(a: seq<Sent>, b: seq<Sent>)
    ensures Own(a + b) == Own(a) + Own(b)
  {
    if a == [] {
      assert a + b == b;
    } else {
      assert (a + b)[0] == a[0] && (a + b)[1..] == a[1..] + b;
      OwnAppend(a[1..], b);
      Assoc(if a[0].byEngine then [a[0].frame] else [], Own(a[1..]), Own(b));
    }
  }

  lemma {:induction false} OwnOfCallback(calls: seq<ContextCall>)
    ensures Own(FromCallback(calls)) == []
  {
    if calls != [] {
      OwnOfCallback(calls[1..]);
      assert FromCallback(calls)[1..] == FromCallback(calls[1..]);
    }
  }

  predicate IsPing(f: Frame) {
    f.fin && f.opcode == OP_PING
  }

  /** One Pong for every Ping, same payload, same order. */
  function Pongs(fs: seq<Frame>): seq<Frame> {
    if fs == [] then [] else (if IsPing(fs[0]) then [Pong(fs[0].payload)] else []) + Pongs(fs[1..])
  }

  /** The Close the last frame calls for: an echo, a protocol error, or none. */
  function Farewell(fs: seq<Frame>): (r: seq<Frame>)
    ensures |r| <= 1 && forall f :: f in r ==> f.opcode == OP_CLOSE
  {
    if fs == [] then []
    else
      var f := fs[|fs| - 1];
      if f.fin && f.opcode in {OP_TEXT, OP_BINARY, OP_PING, OP_PONG} then []
      else if f.fin && f.opcode == OP_CLOSE then [CloseEcho(f.payload)]
      else [PROTOCOL_ERROR]
  }

  lemma AnsweredCons(f: Frame, fs: seq<Frame>)
    requires Farewell([f]) == []
    ensures Farewell([f] + fs) == Farewell(fs)
    ensures Pongs([f] + fs) + Farewell([f] + fs) == Pongs([f]) + (Pongs(fs) + Farewell(fs))
  {
    assert ([f] + fs)[1..] == fs;
    assert Pongs([f]) == if IsPing(f) then [Pong(f.payload)] else [];
    Assoc(Pongs([f]), Pongs(fs), Farewell(fs));
  }

  lemma OwnOfDispatch(h: Handler, st: State, f: Frame)
    requires !st.closeSent
    ensures var r := Dispatch(h, st, f);
            Own(r.sent) == Pongs([f]) + Farewell([f]) && (r.open <==> Farewell([f]) == []) &&
            (r.state.closeSent <==> !r.open)
  {
    var r := Dispatch(h, st, f);
    assert Pongs([f]) == if IsPing(f) then [Pong(f.payload)] else [];
    OwnOfCallback(h.onMessage(st.fired, f.payload));
    OwnOfCallback(h.onClose(st.fired));
    if f.fin && f.opcode == OP_CLOSE {
      OwnAppend([Sent(true, CloseEcho(f.payload))], FromCallback(h.onClose(st.fired)));
    }
  }

  /**
   * Over any stream the engine's own frames are one Pong per Ping taken, in order,
   * then at most one Close; `closeSent` is set exactly when that Close was sent,
   * and then the call that sent it said to close.
   */
  lemma {:induction false} ReplyDiscipline(h: Handler, maxBody: nat, st: State, data: seq<Byte>)
    requires !st.closeSent
    ensures var o := Drain(h, maxBody, st, data);
            Own(o.sent) == Pongs(o.dispatched) + Farewell(o.dispatched) &&
            (o.state.closeSent <==> Farewell(o.dispatched) != []) &&
            (o.state.closeSent ==> !o.open)
    decreases |data|
  {
    match Parse(data, maxBody)
    case Taken(f, n) =>
      OwnOfDispatch(h, st, f);
      var r := Dispatch(h, st, f);
      if r.open {
        ReplyDiscipline(h, maxBody, r.state, data[n..]);
        var o := Drain(h, maxBody, r.state, data[n..]);
        OwnAppend(r.sent, o.sent);
        AnsweredCons(f, o.dispatched);
        assert Own(r.sent) == Pongs([f]);
      }
    case _ =>
  }

  /** An engine that answered with a Close of its own did not go on, and answered something. */
  lemma CloseHasBytes(h: Handler, maxBody: nat, st: State, data: seq<Byte>)
    requires !st.closeSent && Drain(h, maxBody, st, data).state.closeSent
    ensures Output(Drain(h, maxBody, st, data).sent) != [] && !Drain(h, maxBody, st, data).open
  {
    var sent := Drain(h, maxBody, st, data).sent;
    ReplyDiscipline(h, maxBody, st, data);
    assert sent != [];
    assert FramesOf(sent) != [] && |Encode(FramesOf(sent)[0])| >= 2;
  }

  /** The same over a whole run of calls, one for each piece of the stream. */
  lemma RunDiscipline(h: Handler, maxBody: nat, chunks: seq<seq<Byte>>)
    ensures var o := Feed(h, maxBody, Outcome(FRESH, [], [], [], true), chunks);
            Own(o.sent) == Pongs(o.dispatched) + Farewell(o.dispatched) &&
            (o.state.closeSent <==> Farewell(o.dispatched) != []) &&
            (o.state.closeSent ==> !o.open)
  {
    ChunkingIndependence(h, maxBody, FRESH, chunks);
    ReplyDiscipline(h, maxBody, FRESH, Concat(chunks));
  }

  /** The callbacks that frames call for: each message as it is read, and the end. */
  function Calls(fs: seq<Frame>): seq<Callback> {
    if fs == [] then []
    else
      var f := fs[0];
      (if f.fin && f.opcode in {OP_TEXT, OP_BINARY} then [OnMessage(f.payload)]
       else if f.fin && f.opcode == OP_CLOSE then [OnClose]
       else []) + Calls(fs[1..])
  }

  /** The frames a route asks for when these callbacks are fired one after another. */
  function Asked(h: Handler, before: seq<Callback>, calls: seq<Callback>): seq<Frame>
    decreases |calls|
  {
    if calls == [] then []
    else
      var asks := match calls[0]
                  case OnMessage(p) => h.onMessage(before, p)
                  case OnClose => h.onClose(before);
      FramesOf(FromCallback(asks)) + Asked(h, before + [calls[0]], calls[1..])
  }

  /** The frames sent on the route's account. */
  function Routes(sent: seq<Sent>): seq<Frame> {
    if sent == [] then [] else (if sent[0].byEngine then [] else [sent[0].frame]) + Routes(sent[1..])
  }

  lemma {:induction false} RoutesAppend(a: seq<Sent>, b: seq<Sent>)
    ensures Routes(a + b) == Routes(a) + Routes(b)
  {
    if a == [] {
      assert a + b == b;
    } else {
      assert (a + b)[0] == a[0] && (a + b)[1..] == a[1..] + b;
      RoutesAppend(a[1..], b);
      Assoc(if a[0].byEngine then [] else [a[0].frame], Routes(a[1..]), Routes(b));
    }
  }

  lemma {:induction false} RoutesOfCallback(calls: seq<ContextCall>)
    ensures Routes(FromCallback(calls)) == FramesOf(FromCallback(calls))
  {
    if calls != [] {
      RoutesOfCallback(calls[1..]);
      var s := FromCallback(calls);
      assert s[1..] == FromCallback(calls[1..]);
      assert FramesOf(s) == [s[0].frame] + FramesOf(s[1..]);
    }
  }

  lemma AskedOnce(h: Handler, before: seq<Callback>, call: Callback)
    ensures Asked(h, before, [call]) == FramesOf(FromCallback(match call
                                                              case OnMessage(p) => h.onMessage(before, p)
                                                              case OnClose => h.onClose(before)))
  {
    assert [call][1..] == [];
  }

  lemma RoutesOfDispatch(h: Handler, st: State, f: Frame)
    ensures var r := Dispatch(h, st, f);
            r.state.fired == st.fired + Calls([f]) && Routes(r.sent) == Asked(h, st.fired, Calls([f])) &&
            |Calls([f])| <= 1 && (r.open ==> OnClose !in Calls([f]))
  {
    RoutesOfCallback(h.onMessage(st.fired, f.payload));
    RoutesOfCallback(h.onClose(st.fired));
    AskedOnce(h, st.fired, OnMessage(f.payload));
    AskedOnce(h, st.fired, OnClose);
    assert Calls([f]) == if f.fin && f.opcode in {OP_TEXT, OP_BINARY} then [OnMessage(f.payload)]
                         else if f.fin && f.opcode == OP_CLOSE then [OnClose] else [];
    if f.fin && f.opcode == OP_CLOSE {
      RoutesAppend(if st.closeSent then [] else [Sent(true, CloseEcho(f.payload))], FromCallback(h.onClose(st.fired)));
    }
  }

  lemma AskedCons(h: Handler, before: seq<Callback>, calls: seq<Callback>)
    requires calls != []
    ensures Asked(h, before, calls) == Asked(h, before, calls[..1]) + Asked(h, before + calls[..1], calls[1..])
  {
    assert calls[..1] == [calls[0]];
    AskedOnce(h, before, calls[0]);
  }

  /** A frame calls the route at most once; its call comes first. */
  lemma AskedAfter(h: Handler, before: seq<Callback>, first: seq<Callback>, later: seq<Callback>)
    requires |first| <= 1
    ensures Asked(h, before, first + later) == Asked(h, before, first) + Asked(h, before + first, later)
  {
    if first == [] {
      assert first + later == later && before + first == before;
    } else {
      assert (first + later)[..1] == first && (first + later)[1..] == later;
      AskedCons(h, before, first + later);
    }
  }

  lemma CallsCons(f: Frame, fs: seq<Frame>)
    ensures Calls([f] + fs) == Calls([f]) + Calls(fs)
  {
    assert ([f] + fs)[1..] == fs && [f][1..] == [];
  }

  /**
   * Over any stream the route is called for every message taken, with its payload
   * and in order, and for a Close; and what is sent on its account is what it asked
   * for, call by call.
   */
  lemma {:induction false} CallbackDiscipline(h: Handler, maxBody: nat, st: State, data: seq<Byte>)
    ensures var o := Drain(h, maxBody, st, data);
            o.state.fired == st.fired + Calls(o.dispatched) &&
            Routes(o.sent) == Asked(h, st.fired, Calls(o.dispatched))
    decreases |data|
  {
    match Parse(data, maxBody)
    case Taken(f, n) =>
      RoutesOfDispatch(h, st, f);
      var r := Dispatch(h, st, f);
      if r.open {
        CallbackDiscipline(h, maxBody, r.state, data[n..]);
        var o := Drain(h, maxBody, r.state, data[n..]);
        CallsCons(f, o.dispatched);
        RoutesAppend(r.sent, o.sent);
        AskedAfter(h, st.fired, Calls([f]), Calls(o.dispatched));
        Assoc(st.fired, Calls([f]), Calls(o.dispatched));
      }
    case _ =>
  }

  /** A Close is only ever the last call, and then the connection does not stay open. */
  predicate CloseEnds(calls: seq<Callback>, open: bool) {
    forall i :: 0 <= i < |calls| && calls[i] == OnClose ==> i == |calls| - 1 && !open
  }

  lemma CloseEndsCons(first: seq<Callback>, later: seq<Callback>, open: bool)
    requires OnClose !in first && CloseEnds(later, open)
    ensures CloseEnds(first + later, open)
  {
    var calls := first + later;
    forall i | 0 <= i < |calls| && calls[i] == OnClose
      ensures i == |calls| - 1 && !open
    {
      assert i >= |first| && later[i - |first|] == OnClose;
    }
  }

  /** Once told of a Close the route is never called again, and the call that told it said to close. */
  lemma {:induction false} CloseIsLastCall(h: Handler, maxBody: nat, st: State, data: seq<Byte>)
    ensures var o := Drain(h, maxBody, st, data);
            CloseEnds(Calls(o.dispatched), o.open)
    decreases |data|
  {
    match Parse(data, maxBody)
    case Taken(f, n) =>
      RoutesOfDispatch(h, st, f);
      var r := Dispatch(h, st, f);
      if r.open {
        CloseIsLastCall(h, maxBody, r.state, data[n..]);
        var o := Drain(h, maxBody, r.state, data[n..]);
        CallsCons(f, o.dispatched);
        CloseEndsCons(Calls([f]), Calls(o.dispatched), o.open);
      }
    case _ =>
  }

  /** Bytes, keys and chopping matter only through the frames taken: dispatching those is the whole run. */
  lemma {:induction false} OnlyFramesMatter(h: Handler, maxBody: nat, st: State, data: seq<Byte>)
    ensures var o := Drain(h, maxBody, st, data);
            var d := DispatchAll(h, st, o.dispatched);
            d.sent == o.sent && d.state == o.state && d.used == |o.dispatched| && (o.open ==> d.open)
    decreases |data|
  {
    match Parse(data, maxBody)
    case Taken(f, n) =>
      var r := Dispatch(h, st, f);
      if r.open {
        OnlyFramesMatter(h, maxBody, r.state, data[n..]);
        var later := Drain(h, maxBody, r.state, data[n..]).dispatched;
        assert ([f] + later)[1..] == later;
      }
    case _ =>
  }

  // ---- legality ----

  /** A callback's Close is a legal control frame that carries its code and the first 123 bytes of its reason. */
  lemma CallbackCloseLegal(code: nat, reason: View)
    requires code < 0x1_0000
    ensures var f := CallFrame(CloseWith(code, reason));
            LegalControl(f) && |Encode(f)| == 2 + |f.payload| && CloseCode(f.payload) == Some(code) &&
            f.payload[2..] == if |reason| <= 123 then reason else reason[..123]
  {
    var f := CallFrame(CloseWith(code, reason));
    ControlHeader(f);
    assert f.payload[..2] == [code / 256, code % 256];
    NumberOfTwo(code / 256, code % 256);
  }

  lemma {:induction false} CallbackExpressible(calls: seq<ContextCall>)
    ensures forall s :: s in FromCallback(calls) ==> !s.byEngine && Expressible(s.frame)
  {
    if calls != [] {
      CallbackExpressible(calls[1..]);
    }
  }

  lemma DispatchShape(h: Handler, st: State, f: Frame)
    requires f.opcode >= 8 ==> |f.payload| <= CONTROL_MAX_PAYLOAD
    ensures forall s :: s in Dispatch(h, st, f).sent ==> Expressible(s.frame) && (s.byEngine ==> ControlShape(s.frame))
  {
    CallbackExpressible(h.onMessage(st.fired, f.payload));
    CallbackExpressible(h.onClose(st.fired));
  }

  /** Everything sent can be read back by a receiver, and the engine's own frames all have a control frame's shape. */
  lemma {:induction false} OutputShape(h: Handler, maxBody: nat, st: State, data: seq<Byte>)
    ensures forall s :: s in Drain(h, maxBody, st, data).sent ==>
                          Expressible(s.frame) && (s.byEngine ==> ControlShape(s.frame))
    decreases |data|
  {
    match Parse(data, maxBody)
    case Taken(f, n) =>
      DispatchShape(h, st, f);
      if Dispatch(h, st, f).open {
        OutputShape(h, maxBody, Dispatch(h, st, f).state, data[n..]);
      }
    case _ =>
  }

  /** Only admitted frames are dispatched, and their length is one the wire can spell. */
  lemma {:induction false} DispatchedAdmitted(h: Handler, maxBody: nat, st: State, data: seq<Byte>)
    ensures forall f :: f in Drain(h, maxBody, st, data).dispatched ==> Admitted(f, maxBody) && Expressible(f)
    decreases |data|
  {
    match Parse(data, maxBody)
    case Taken(f, n) =>
      TakenWasOnWire(data, maxBody);
      assert Fits(EnvelopeOf(data, maxBody), f);
      assert Expressible(f);
      if Dispatch(h, st, f).open {
        DispatchedAdmitted(h, maxBody, Dispatch(h, st, f).state, data[n..]);
      }
    case _ =>
  }

  lemma {:induction false} PongsLegal(fs: seq<Frame>, maxBody: nat)
    requires forall f :: f in fs ==> Admitted(f, maxBody)
    ensures forall g :: g in Pongs(fs) ==> LegalControl(g) && g.opcode != OP_CLOSE
  {
    if fs != [] {
      PongsLegal(fs[1..], maxBody);
      assert fs[0] in fs;
      assert IsPing(fs[0]) ==> LegalControl(Pong(fs[0].payload));
    }
  }

  /** The last frame is a Close with a body too short for a status code. */
  predicate EndsInOneByteClose(fs: seq<Frame>) {
    fs != [] && fs[|fs| - 1].fin && fs[|fs| - 1].opcode == OP_CLOSE && |fs[|fs| - 1].payload| == 1
  }

  lemma FarewellLegal(fs: seq<Frame>, maxBody: nat)
    requires forall f :: f in fs ==> Admitted(f, maxBody)
    ensures (forall g :: g in Farewell(fs) ==> LegalControl(g)) <==> !EndsInOneByteClose(fs)
  {
    if Farewell(fs) != [] {
      var last := fs[|fs| - 1];
      assert last in fs;
      assert Farewell(fs)[0] in Farewell(fs);
      assert LegalControl(Farewell(fs)[0]) <==> !EndsInOneByteClose(fs);
    }
  }

  /**
   * The engine's own frames are legal control frames, bodies of Closes included,
   * exactly when the client did not end with a Close of one byte; that is echoed.
   */
  lemma OutputLegal(h: Handler, maxBody: nat, st: State, data: seq<Byte>)
    requires !st.closeSent
    ensures var o := Drain(h, maxBody, st, data);
            (forall f :: f in Own(o.sent) ==> LegalControl(f)) <==> !EndsInOneByteClose(o.dispatched)
  {
    var o := Drain(h, maxBody, st, data);
    ReplyDiscipline(h, maxBody, st, data);
    DispatchedAdmitted(h, maxBody, st, data);
    PongsLegal(o.dispatched, maxBody);
    FarewellLegal(o.dispatched, maxBody);
    assert forall f :: f in Own(o.sent) <==> f in Pongs(o.dispatched) || f in Farewell(o.dispatched);
  }

  /** The same of a client's own frames: what counts is the first Close among them. */
  lemma OutputLegalForClient(h: Handler, maxBody: nat, cs: seq<ClientFrame>)
    requires Sendable(cs, maxBody) && forall f :: f in Bare(cs) ==> Known(f)
    ensures var k := FirstClose(Bare(cs));
            (forall f :: f in Own(Drain(h, maxBody, FRESH, ClientStream(cs, maxBody)).sent) ==> LegalControl(f)) <==>
            !(k < |cs| && |Bare(cs)[k].payload| == 1)
  {
    var data, fs := ClientStream(cs, maxBody), Bare(cs);
    var k := FirstClose(fs);
    ClientRoundTrip(h, maxBody, FRESH, cs, []);
    assert data + [] == data;
    UpToFirstClose(h, FRESH, fs);
    OutputLegal(h, maxBody, FRESH, data);
    var dispatched := Drain(h, maxBody, FRESH, data).dispatched;
    if k == |cs| {
      assert fs + [] == fs && dispatched == fs;
      assert fs != [] ==> fs[|fs| - 1].opcode != OP_CLOSE;
    } else {
      assert dispatched == fs[..k + 1] && dispatched[|dispatched| - 1] == fs[k];
      assert fs[k] in fs;
    }
  }

  /** The engine puts a Close of one byte into its answer as it was. */
  lemma OneByteCloseEchoed(h: Handler, maxBody: nat, key: seq<Byte>, x: Byte)
    requires |key| == 4 && maxBody >= 1
    ensures var f := Frame(true, OP_CLOSE, [x]);
            Own(Drain(h, maxBody, FRESH, OnWire(Plain(f, key), f)).sent) == [f] && ControlShape(f) && !LegalControl(f)
  {
    var f := Frame(true, OP_CLOSE, [x]);
    var first := OnWire(Plain(f, key), f);
    assert first + [] == first;
    DrainOnWire(h, maxBody, FRESH, ClientFrame(f, Plain(f, key)), []);
    OwnOfDispatch(h, FRESH, f);
    assert CloseEcho([x]) == f && Pongs([f]) == [] && Farewell([f]) == [f];
  }

  /** What a Close of the engine's own says, after these frames: the client's Close again, or a protocol error. */
  predicate ClosesFor(g: Frame, fs: seq<Frame>) {
    fs != [] &&
    var last := fs[|fs| - 1];
    if last.fin && last.opcode == OP_CLOSE then g.payload == last.payload else CloseCode(g.payload) == Some(1002)
  }

  lemma FarewellReadsBack(fs: seq<Frame>, maxBody: nat)
    requires forall f :: f in fs ==> Admitted(f, maxBody)
    ensures forall g :: g in Farewell(fs) ==> ClosesFor(g, fs)
  {
    NumberOfTwo(0x03, 0xEA);
    assert PROTOCOL_ERROR.payload[..2] == [0x03, 0xEA];
    if fs != [] {
      assert fs[|fs| - 1] in fs;
    }
  }

  /** A Close of the engine's own repeats the client's, code and all, or reports a protocol error. */
  lemma CloseReadsBack(h: Handler, maxBody: nat, st: State, data: seq<Byte>)
    requires !st.closeSent
    ensures var o := Drain(h, maxBody, st, data);
            forall f :: f in Own(o.sent) && f.opcode == OP_CLOSE ==> ClosesFor(f, o.dispatched)
  {
    var o := Drain(h, maxBody, st, data);
    ReplyDiscipline(h, maxBody, st, data);
    DispatchedAdmitted(h, maxBody, st, data);
    PongsLegal(o.dispatched, maxBody);
    FarewellReadsBack(o.dispatched, maxBody);
    assert forall f :: f in Own(o.sent) <==> f in Pongs(o.dispatched) || f in Farewell(o.dispatched);
  }

  /** A receiver decodes from the whole output exactly the frames sent, and from any part of it the first of them. */
  lemma OutputDecodes(h: Handler, maxBody: nat, st: State, data: seq<Byte>, seen: seq<Byte>)
    requires seen <= Output(Drain(h, maxBody, st, data).sent)
    ensures var fs := FramesOf(Drain(h, maxBody, st, data).sent);
            DecodeAll(EncodeAll(fs)) == fs && DecodeAll(seen) <= fs
  {
    var sent := Drain(h, maxBody, st, data).sent;
    var fs := FramesOf(sent);
    OutputShape(h, maxBody, st, data);
    forall f | f in fs
      ensures Expressible(f)
    {
      var i :| 0 <= i < |fs| && fs[i] == f;
      assert sent[i] in sent;
    }
    PrefixDecodes(seen, fs);
    ServerStreamDecodes(fs, []);
    assert EncodeAll(fs) + [] == EncodeAll(fs) && fs + DecodeAll([]) == fs;
  }

  // ---- the echo service ----

  /** The /ws/echo route; a payload handed to a callback is always a `string_view`. */
  const ECHO := Handler((_, p) => if |p| < TWO_64 then [SendText(p)] else [], _ => [])

  predicate Ordinary(f: Frame) {
    f.fin && f.opcode in {OP_TEXT, OP_BINARY, OP_PING, OP_PONG}
  }

  /** One text frame for a data frame, one Pong for a Ping, nothing for a Pong. */
  function EchoedOne(f: Frame): seq<Frame> {
    if f.opcode == OP_PING then [Pong(f.payload)]
    else if f.opcode == OP_PONG then []
    else [Frame(true, OP_TEXT, f.payload)]
  }

  function Echoed(fs: seq<Frame>): seq<Frame> {
    if fs == [] then [] else EchoedOne(fs[0]) + Echoed(fs[1..])
  }

  lemma EchoOne(st: State, f: Frame)
    requires Ordinary(f) && |f.payload| < TWO_64
    ensures Dispatch(ECHO, st, f).open && FramesOf(Dispatch(ECHO, st, f).sent) == EchoedOne(f)
  {
    if f.opcode == OP_TEXT || f.opcode == OP_BINARY {
      assert ECHO.onMessage(st.fired, f.payload) == [SendText(f.payload)];
      assert FromCallback([SendText(f.payload)]) == [Sent(false, Frame(true, OP_TEXT, f.payload))];
    }
  }

  lemma {:induction false} EchoDispatch(st: State, fs: seq<Frame>)
    requires forall f :: f in fs ==> Ordinary(f) && |f.payload| < TWO_64
    ensures DispatchAll(ECHO, st, fs).open && FramesOf(DispatchAll(ECHO, st, fs).sent) == Echoed(fs)
    decreases |fs|
  {
    if fs != [] {
      EchoOne(st, fs[0]);
      var r := Dispatch(ECHO, st, fs[0]);
      EchoDispatch(r.state, fs[1..]);
      var later := DispatchAll(ECHO, r.state, fs[1..]).sent;
      assert FramesOf(r.sent + later) == FramesOf(r.sent) + FramesOf(later);
    }
  }

  lemma {:induction false} BareMembers(cs: seq<ClientFrame>)
    ensures forall f :: f in Bare(cs) ==> exists c :: c in cs && c.frame == f
  {
    if cs != [] {
      BareMembers(cs[1..]);
      assert cs[0] in cs;
    }
  }

  /** The echo service, for any keys, any length forms and any chopping of the stream. */
  lemma EchoCorrect(maxBody: nat, st: State, cs: seq<ClientFrame>, chunks: seq<seq<Byte>>)
    requires Sendable(cs, maxBody) && forall c :: c in cs ==> Ordinary(c.frame)
    requires Concat(chunks) == ClientStream(cs, maxBody)
    ensures var o := Feed(ECHO, maxBody, Outcome(st, [], [], [], true), chunks);
            o.open && o.rest == [] && o.dispatched == Bare(cs) && FramesOf(o.sent) == Echoed(Bare(cs)) &&
            DecodeAll(Output(o.sent)) == Echoed(Bare(cs))
  {
    ChunkingIndependence(ECHO, maxBody, st, chunks);
    ClientRoundTrip(ECHO, maxBody, st, cs, []);
    assert ClientStream(cs, maxBody) + [] == ClientStream(cs, maxBody);
    BareMembers(cs);
    EchoDispatch(st, Bare(cs));
    var d := DispatchAll(ECHO, st, Bare(cs));
    var o := Drain(ECHO, maxBody, st, Concat(chunks));
    assert d.sent + [] == d.sent && Bare(cs) + [] == Bare(cs);
    OutputDecodes(ECHO, maxBody, st, Concat(chunks), []);
  }
}
