/**
 * The WebSocket engine: what one frame does (`ws::dispatchFrame`), what a buffer
 * full of bytes does (`ws::processFrames`), and the methods that do it in place.
 */
module Engine {
  import opened Bytes
  import opened RingBuffers
  import opened Wire

  /** A `std::string_view`. */
  type View = s: seq<Byte> | |s| < TWO_64 witness []

  // ---- callbacks ----

  /** What a callback may ask of its context. */
  datatype ContextCall =
    | SendText(payload: View)
    | SendBinary(payload: View)
    | CloseWith(code: nat, reason: View)

  /** Status code, most significant byte first, then at most 123 bytes of reason. */
  function CloseBody(code: nat, reason: seq<Byte>): seq<Byte> {
    [code / 256 % 256, code % 256] + Clip(reason, 123)
  }

  function CallFrame(c: ContextCall): (f: Frame)
    ensures f.fin && Expressible(f)
  {
    match c
    case SendText(p) => Frame(true, OP_TEXT, p)
    case SendBinary(p) => Frame(true, OP_BINARY, p)
    case CloseWith(code, reason) => Frame(true, OP_CLOSE, CloseBody(code, reason))
  }

  /** A callback the engine fired. */
  datatype Callback = OnMessage(payload: seq<Byte>) | OnClose

  /**
   * A route: the calls its callbacks make on the context, as functions of the
   * callbacks fired before and of the payload. An absent callback makes none.
   */
  datatype Handler = Handler(
    onMessage: (seq<Callback>, seq<Byte>) -> seq<ContextCall>,
    onClose: seq<Callback> -> seq<ContextCall>)

  // ---- one frame ----

  datatype State = State(closeSent: bool, fired: seq<Callback>)

  /** Right after the upgrade. */
  const FRESH := State(false, [])

  /** A frame put on the write side, by the engine itself or by a callback. */
  datatype Sent = Sent(byEngine: bool, frame: Frame)

  datatype Reply = Reply(state: State, sent: seq<Sent>, open: bool)

  const PROTOCOL_ERROR := Frame(true, OP_CLOSE, [0x03, 0xEA])

  function Pong(payload: seq<Byte>): Frame {
    Frame(true, OP_PONG, payload)
  }

  function CloseEcho(payload: seq<Byte>): Frame {
    Frame(true, OP_CLOSE, Clip(payload, CONTROL_MAX_PAYLOAD))
  }

  function FromCallback(calls: seq<ContextCall>): (s: seq<Sent>)
    ensures |s| == |calls|
  {
    if calls == [] then [] else [Sent(false, CallFrame(calls[0]))] + FromCallback(calls[1..])
  }

  /** Call for call, in order. */
  lemma {:induction false} FromCallbackAt(calls: seq<ContextCall>, i: nat)
    requires i < |calls|
    ensures FromCallback(calls)[i] == Sent(false, CallFrame(calls[i]))
  {
    if i > 0 {
      FromCallbackAt(calls[1..], i - 1);
    }
  }

  function Dispatch(h: Handler, st: State, f: Frame): Reply {
    if !f.fin then
      Reply(st.(closeSent := true), [Sent(true, PROTOCOL_ERROR)], false)
    else if f.opcode == OP_TEXT || f.opcode == OP_BINARY then
      Reply(st.(fired := st.fired + [OnMessage(f.payload)]), FromCallback(h.onMessage(st.fired, f.payload)), true)
    else if f.opcode == OP_PING then
      Reply(st, [Sent(true, Pong(f.payload))], true)
    else if f.opcode == OP_PONG then
      Reply(st, [], true)
    else if f.opcode == OP_CLOSE then
      var echo := if st.closeSent then [] else [Sent(true, CloseEcho(f.payload))];
      Reply(State(true, st.fired + [OnClose]), echo + FromCallback(h.onClose(st.fired)), false)
    else
      Reply(st.(closeSent := true), [Sent(true, PROTOCOL_ERROR)], false)
  }

  function FramesOf(sent: seq<Sent>): (fs: seq<Frame>)
    ensures |fs| == |sent|
  {
    seq(|sent|, i requires 0 <= i < |sent| => sent[i].frame)
  }

  /** The bytes a list of sent frames stands for. */
  function Output(sent: seq<Sent>): seq<Byte> {
    EncodeAll(FramesOf(sent))
  }

  lemma OutputAppend(a: seq<Sent>, b: seq<Sent>)
    ensures Output(a + b) == Output(a) + Output(b)
  {
    assert FramesOf(a + b) == FramesOf(a) + FramesOf(b);
    EncodeAllAppend(FramesOf(a), FramesOf(b));
  }

  lemma OutputOne(s: Sent)
    ensures Output([s]) == Encode(s.frame)
  {
    assert FramesOf([s]) == [s.frame];
    assert EncodeAll([s.frame]) == Encode(s.frame) + EncodeAll([]);
  }

  // ---- the front of the read buffer ----

  datatype Parsed = NeedMore | Rejected | Taken(frame: Frame, size: nat)

  /** `payload[i] = data[i] ^ mask[i % 4]`. */
  function Mask(key: seq<Byte>, data: seq<Byte>): (r: seq<Byte>)
    requires |key| == 4
    ensures |r| == |data|
  {
    seq(|data|, i requires 0 <= i < |data| => Xor(data[i], key[i % 4]))
  }

  function Parse(data: seq<Byte>, maxBody: nat): (p: Parsed)
    ensures p.Taken? ==> 6 <= p.size <= |data|
  {
    if |data| < 2 then NeedMore
    else if data[1] < 128 then Rejected
    else if data[1] % 128 == 126 then
      if |data| < 4 then NeedMore else ParseBody(data, maxBody, 4, Number(data[2..4]))
    else if data[1] % 128 == 127 then
      if |data| < 10 then NeedMore else ParseBody(data, maxBody, 10, Number(data[2..10]))
    else ParseBody(data, maxBody, 2, data[1] % 128)
  }

  function ParseBody(data: seq<Byte>, maxBody: nat, at: nat, len: nat): (p: Parsed)
    requires 2 <= at <= |data|
    ensures p.Taken? ==> 6 <= p.size <= |data|
  {
    var fin, opcode := data[0] >= 128, data[0] % 16;
    if opcode >= 8 && len > CONTROL_MAX_PAYLOAD then Rejected
    else if len > maxBody then Rejected
    else if |data| < at + 4 + len then NeedMore
    else Taken(Frame(fin, opcode, Mask(data[at..at + 4], data[at + 4..at + 4 + len])), at + 4 + len)
  }

  // ---- draining ----

  /** `open` is what `processFrames` returns; `rest` is what it leaves in the read buffer. */
  datatype Outcome = Outcome(state: State, sent: seq<Sent>, dispatched: seq<Frame>, rest: seq<Byte>, open: bool)

  function Prepend(sent: seq<Sent>, dispatched: seq<Frame>, o: Outcome): Outcome {
    o.(sent := sent + o.sent, dispatched := dispatched + o.dispatched)
  }

  function Drain(h: Handler, maxBody: nat, st: State, data: seq<Byte>): Outcome
    decreases |data|
  {
    match Parse(data, maxBody)
    case NeedMore => Outcome(st, [], [], data, true)
    case Rejected => Outcome(st, [], [], data, false)
    case Taken(f, n) =>
      var r := Dispatch(h, st, f);
      if r.open then Prepend(r.sent, [f], Drain(h, maxBody, r.state, data[n..]))
      else Outcome(r.state, r.sent, [f], data[n..], false)
  }

  /** One turn of the drain loop, seen from behind everything sent and dispatched so far. */
  lemma DrainTurn(h: Handler, maxBody: nat, st: State, data: seq<Byte>, sent: seq<Sent>, dispatched: seq<Frame>)
    requires Parse(data, maxBody).Taken?
    ensures var f, n := Parse(data, maxBody).frame, Parse(data, maxBody).size;
            var r := Dispatch(h, st, f);
            Prepend(sent, dispatched, Drain(h, maxBody, st, data)) ==
            if r.open then Prepend(sent + r.sent, dispatched + [f], Drain(h, maxBody, r.state, data[n..]))
            else Outcome(r.state, sent + r.sent, dispatched + [f], data[n..], false)
  {
    var f, n := Parse(data, maxBody).frame, Parse(data, maxBody).size;
    var r := Dispatch(h, st, f);
    if r.open {
      var o := Drain(h, maxBody, r.state, data[n..]);
      Assoc(sent, r.sent, o.sent);
      Assoc(dispatched, [f], o.dispatched);
    }
  }

  /** A frame that is not all there, or is refused, changes nothing. */
  lemma DrainStops(h: Handler, maxBody: nat, st: State, data: seq<Byte>, sent: seq<Sent>, dispatched: seq<Frame>)
    requires !Parse(data, maxBody).Taken?
    ensures Prepend(sent, dispatched, Drain(h, maxBody, st, data)) ==
            Outcome(st, sent, dispatched, data, Parse(data, maxBody).NeedMore?)
  {
    assert sent + [] == sent && dispatched + [] == dispatched;
  }

  // ---- the methods ----

  /** `WebSocketContext`: the only thing callbacks see of a session. */
  class WebSocketContext {
    const writeBuf: RingBuffer

    constructor (writeBuf: RingBuffer)
      ensures this.writeBuf == writeBuf
    {
      this.writeBuf := writeBuf;
    }

    method SendText(payload: View)
      requires writeBuf.Valid()
      modifies writeBuf
      ensures writeBuf.Valid()
      ensures writeBuf.contents ==
              old(writeBuf.contents) + Clip(Encode(Frame(true, OP_TEXT, payload)), old(writeBuf.Room()))
    {
      SendFrame(writeBuf, OP_TEXT, payload, true);
    }

    method SendBinary(payload: View)
      requires writeBuf.Valid()
      modifies writeBuf
      ensures writeBuf.Valid()
      ensures writeBuf.contents ==
              old(writeBuf.contents) + Clip(Encode(Frame(true, OP_BINARY, payload)), old(writeBuf.Room()))
    {
      SendFrame(writeBuf, OP_BINARY, payload, true);
    }

    /** Fills a 127-byte scratch array with code and reason and sends what it filled. */
    method Close(code: nat, reason: View)
      requires writeBuf.Valid()
      modifies writeBuf
      ensures writeBuf.Valid()
      ensures writeBuf.contents ==
              old(writeBuf.contents) +
              Clip(Encode(Frame(true, OP_CLOSE, CloseBody(code, reason))), old(writeBuf.Room()))
    {
      var buf := new Byte[127];
      buf[0] := code / 256 % 256;
      buf[1] := code % 256;
      var reasonLen := if |reason| > 123 then 123 else |reason|;
      forall i | 0 <= i < reasonLen {
        buf[2 + i] := reason[i];
      }
      assert buf[..2 + reasonLen] == CloseBody(code, reason);
      SendFrame(writeBuf, OP_CLOSE, buf[..2 + reasonLen], true);
    }

    /** Runs the calls a callback makes, in order. */
    method Run(calls: seq<ContextCall>)
      requires writeBuf.Valid()
      modifies writeBuf
      ensures writeBuf.Valid()
      ensures writeBuf.contents == old(writeBuf.contents) + Clip(Output(FromCallback(calls)), old(writeBuf.Room()))
    {
      if calls == [] {
        return;
      }
      ghost var before, room := writeBuf.contents, writeBuf.Room();
      ghost var head := [Sent(false, CallFrame(calls[0]))];
      OutputOne(head[0]);
      match calls[0] {
        case SendText(p) => SendText(p);
        case SendBinary(p) => SendBinary(p);
        case CloseWith(code, reason) => Close(code, reason);
      }
      assert writeBuf.contents == before + Clip(Output(head), room);
      AppendTwo(before, head, FromCallback(calls[1..]), room);
      Run(calls[1..]);
    }
  }

  /** `WsState` inside a session; `fired` stands for whatever the callbacks remember. */
  class WsState {
    const route: Handler
    var closeSent: bool
    var fired: seq<Callback>

    constructor (route: Handler)
      ensures this.route == route && View() == FRESH
    {
      this.route := route;
      closeSent := false;
      fired := [];
    }

    function View(): State
      reads this
    {
      State(closeSent, fired)
    }
  }

  /** Sends one frame of the engine's own. */
  method Answer(writeBuf: RingBuffer, f: Frame)
    requires writeBuf.Valid() && Expressible(f)
    modifies writeBuf
    ensures writeBuf.Valid()
    ensures writeBuf.contents == old(writeBuf.contents) + Clip(Output([Sent(true, f)]), old(writeBuf.Room()))
  {
    OutputOne(Sent(true, f));
    SendFrame(writeBuf, f.opcode, f.payload, f.fin);
  }

  method DispatchFrame(state: WsState, writeBuf: RingBuffer, opcode: Byte, fin: bool, payload: View)
    returns (open: bool)
    requires writeBuf.Valid()
    modifies state, writeBuf
    ensures writeBuf.Valid()
    ensures var r := Dispatch(state.route, old(state.View()), Frame(fin, opcode, payload));
            open == r.open && state.View() == r.state &&
            writeBuf.contents == old(writeBuf.contents) + Clip(Output(r.sent), old(writeBuf.Room()))
  {
    if !fin {
      Answer(writeBuf, PROTOCOL_ERROR);
      state.closeSent := true;
      return false;
    }
    var ctx := new WebSocketContext(writeBuf);
    if opcode == OP_TEXT || opcode == OP_BINARY {
      var calls := state.route.onMessage(state.fired, payload);
      state.fired := state.fired + [OnMessage(payload)];
      ctx.Run(calls);
      return true;
    } else if opcode == OP_PING {
      Answer(writeBuf, Pong(payload));
      return true;
    } else if opcode == OP_PONG {
      assert writeBuf.contents + [] == writeBuf.contents;
      return true;
    } else if opcode == OP_CLOSE {
      ghost var before, room := writeBuf.contents, writeBuf.Room();
      ghost var echo := if state.closeSent then [] else [Sent(true, CloseEcho(payload))];
      if !state.closeSent {
        var echoLen := if |payload| > CONTROL_MAX_PAYLOAD then CONTROL_MAX_PAYLOAD else |payload|;
        assert payload[..echoLen] == Clip(payload, CONTROL_MAX_PAYLOAD);
        Answer(writeBuf, Frame(true, OP_CLOSE, payload[..echoLen]));
        state.closeSent := true;
      }
      assert writeBuf.contents == before + Clip(Output(echo), room);
      var calls := state.route.onClose(state.fired);
      state.fired := state.fired + [OnClose];
      ctx.Run(calls);
      AppendTwo(before, echo, FromCallback(calls), room);
      return false;
    } else {
      Answer(writeBuf, PROTOCOL_ERROR);
      state.closeSent := true;
      return false;
    }
  }

  /** Two clipped appends in a row are one clipped append of both outputs. */
  lemma AppendTwo(before: seq<Byte>, a: seq<Sent>, b: seq<Sent>, room: nat)
    ensures |Clip(Output(a), room)| <= room
    ensures before + Clip(Output(a), room) + Clip(Output(b), room - |Clip(Output(a), room)|)
            == before + Clip(Output(a + b), room)
  {
    ClipAppend(Output(a), Output(b), room);
    OutputAppend(a, b);
    Assoc(before, Clip(Output(a), room), Clip(Output(b), room - |Clip(Output(a), room)|));
  }

  /** The extended length: `n = (n << 8) | byte`, on a `u64`. */
  method ReadLength(data: seq<Byte>, at: nat, width: nat) returns (n: nat)
    requires width <= 8 && at + width <= |data|
    ensures n == Number(data[at..at + width]) && n < TWO_64
  {
    n := 0;
    var i := 0;
    WordSizes();
    while i < width
      invariant 0 <= i <= width
      invariant n == Number(data[at..at + i])
      invariant n < Pow256(i)
    {
      Pow256Monotone(i + 1, 8);
      NumberOfMore(data, at, i);
      n := (n * 256) % TWO_64 + data[at + i];
      i := i + 1;
    }
    Pow256Monotone(width, 8);
  }

  lemma NumberOfMore(data: seq<Byte>, at: nat, i: nat)
    requires at + i + 1 <= |data|
    ensures Number(data[at..at + i + 1]) == Number(data[at..at + i]) * 256 + data[at + i]
  {
    SliceJoins(data, at, at + i, at + i + 1);
  }

  lemma Pow256Monotone(i: nat, k: nat)
    requires i <= k
    ensures Pow256(i) <= Pow256(k)
  {
  }

  /** `payload` is `data[at..]` with the key before it taken off, bit by bit. */
  predicate Clear(payload: seq<Byte>, data: seq<Byte>, at: nat) {
    4 <= at && at + |payload| <= |data| &&
    forall k :: 0 <= k < |payload| ==> IsXor(payload[k], data[at + k], data[at - 4 + k % 4])
  }

  lemma MaskClears(data: seq<Byte>, at: nat, len: nat)
    requires 4 <= at && at + len <= |data|
    ensures Clear(Mask(data[at - 4..at], data[at..at + len]), data, at)
  {
    var key, masked := data[at - 4..at], data[at..at + len];
    forall k | 0 <= k < len
      ensures IsXor(Mask(key, masked)[k], data[at + k], data[at - 4 + k % 4])
    {
      XorIsBitwise(data[at + k], data[at - 4 + k % 4], Mask(key, masked)[k]);
    }
  }

  /** Unmasks into a buffer of its own, byte by byte. */
  method Unmask(data: seq<Byte>, at: nat, len: nat) returns (payload: seq<Byte>)
    requires 4 <= at && at + len <= |data|
    ensures payload == Mask(data[at - 4..at], data[at..at + len])
    ensures |payload| == len && Clear(payload, data, at)
  {
    MaskClears(data, at, len);
    var buf := new Byte[len];
    var i := 0;
    while i < len
      invariant 0 <= i <= len
      invariant forall k :: 0 <= k < i ==> buf[k] == Xor(data[at + k], data[at - 4 + k % 4])
    {
      buf[i] := Xor(data[at + i], data[at - 4 + i % 4]);
      i := i + 1;
    }
    payload := buf[..];
  }

  /** The limits, then mask key and payload, if they are all there. No sum leaves the range of `size_t`. */
  method ReadBody(data: seq<Byte>, maxBody: nat, at: nat, payloadLen: nat) returns (p: Parsed)
    requires 2 <= at <= 10 && at <= |data| < TWO_64 && maxBody <= TWO_64 - 15
    ensures p == ParseBody(data, maxBody, at, payloadLen)
  {
    var fin, opcode := data[0] >= 128, data[0] % 16;
    if opcode >= 8 && payloadLen > CONTROL_MAX_PAYLOAD {
      return Rejected;
    }
    if payloadLen > maxBody {
      return Rejected;
    }
    if |data| < at + 4 {
      return NeedMore;
    }
    var offset := at + 4;
    var need := Add64(offset, payloadLen);
    if |data| < need {
      return NeedMore;
    }
    var payload := Unmask(data, offset, payloadLen);
    return Taken(Frame(fin, opcode, payload), need);
  }

  /** The payload of a frame taken is the end of its bytes, cleared of the key before it. */
  lemma TakenIsClear(data: seq<Byte>, maxBody: nat)
    ensures var p := Parse(data, maxBody);
            p.Taken? ==> p.size >= |p.frame.payload| && Clear(p.frame.payload, data, p.size - |p.frame.payload|)
  {
    if Parse(data, maxBody).Taken? {
      var p := Parse(data, maxBody);
      MaskClears(data, p.size - |p.frame.payload|, |p.frame.payload|);
    }
  }

  /** Reads the frame at the front of `data`, if it is all there. */
  method ReadFront(data: seq<Byte>, maxBody: nat) returns (p: Parsed)
    requires |data| < TWO_64 && maxBody <= TWO_64 - 15
    ensures p == Parse(data, maxBody)
    ensures p.Taken? ==> p.size >= |p.frame.payload| && Clear(p.frame.payload, data, p.size - |p.frame.payload|)
  {
    TakenIsClear(data, maxBody);
    if |data| < 2 {
      return NeedMore;
    }
    if data[1] < 128 {
      return Rejected;
    }
    var payloadLen := data[1] % 128;
    var offset := 2;
    if payloadLen == 126 {
      if |data| < offset + 2 {
        return NeedMore;
      }
      payloadLen := ReadLength(data, offset, 2);
      offset := offset + 2;
    } else if payloadLen == 127 {
      if |data| < offset + 8 {
        return NeedMore;
      }
      payloadLen := ReadLength(data, offset, 8);
      offset := offset + 8;
    }
    p := ReadBody(data, maxBody, offset, payloadLen);
  }

  /** Takes the frame at the front off the buffer and dispatches it, behind the output of earlier frames. */
  method TakeFrame(state: WsState, readBuf: RingBuffer, writeBuf: RingBuffer, f: Frame, n: nat,
                   ghost before: seq<Byte>, ghost room: nat, ghost sent: seq<Sent>)
    returns (open: bool)
    requires readBuf.Valid() && writeBuf.Valid() && readBuf != writeBuf
    requires n <= |readBuf.contents| && f.opcode < 256 && |f.payload| < TWO_64
    requires writeBuf.contents == before + Clip(Output(sent), room) && |before| + room == writeBuf.capacity
    modifies state, readBuf, writeBuf
    ensures readBuf.Valid() && writeBuf.Valid()
    ensures var r := Dispatch(state.route, old(state.View()), f);
            open == r.open && state.View() == r.state && readBuf.contents == old(readBuf.contents)[n..] &&
            writeBuf.contents == before + Clip(Output(sent + r.sent), room)
  {
    ghost var r := Dispatch(state.route, state.View(), f);
    readBuf.AdvanceReadPos(n);
    AppendTwo(before, sent, r.sent, room);
    open := DispatchFrame(state, writeBuf, f.opcode, f.fin, f.payload);
  }

  /** Handles every complete frame in `readBuf`; false means the connection must be closed. */
  method ProcessFrames(state: WsState, readBuf: RingBuffer, writeBuf: RingBuffer, maxBody: nat) returns (open: bool)
    requires readBuf.Valid() && writeBuf.Valid() && readBuf != writeBuf
    requires maxBody <= TWO_64 - 15
    modifies state, readBuf, writeBuf
    ensures readBuf.Valid() && writeBuf.Valid()
    ensures var o := Drain(state.route, maxBody, old(state.View()), old(readBuf.contents));
            open == o.open && state.View() == o.state && readBuf.contents == o.rest &&
            writeBuf.contents == old(writeBuf.contents) + Clip(Output(o.sent), old(writeBuf.Room()))
  {
    ghost var whole := Drain(state.route, maxBody, state.View(), readBuf.contents);
    ghost var sent: seq<Sent>, dispatched: seq<Frame> := [], [];
    assert [] + whole.sent == whole.sent && [] + whole.dispatched == whole.dispatched;
    ghost var before, room := writeBuf.contents, writeBuf.Room();
    assert before + Clip(Output([]), room) == before;
    while true
      invariant readBuf.Valid() && writeBuf.Valid()
      invariant whole == Prepend(sent, dispatched, Drain(state.route, maxBody, state.View(), readBuf.contents))
      invariant writeBuf.contents == before + Clip(Output(sent), room)
      decreases |readBuf.contents|
    {
      var p := ReadFront(readBuf.contents, maxBody);
      match p {
        case NeedMore =>
          DrainStops(state.route, maxBody, state.View(), readBuf.contents, sent, dispatched);
          return true;
        case Rejected =>
          DrainStops(state.route, maxBody, state.View(), readBuf.contents, sent, dispatched);
          return false;
        case Taken(f, n) =>
          DrainTurn(state.route, maxBody, state.View(), readBuf.contents, sent, dispatched);
          ghost var answers := Dispatch(state.route, state.View(), f).sent;
          var more := TakeFrame(state, readBuf, writeBuf, f, n, before, room, sent);
          sent, dispatched := sent + answers, dispatched + [f];
          if !more {
            return false;
          }
      }
    }
  }
}
