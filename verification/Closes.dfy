/**
 * How many Closes the engine and a route put into the answer to a stream. The engine
 * remembers only its own, so it is the route that decides whether there can be two.
 */
module Closes {
  import opened Bytes
  import opened Wire
  import opened Engine
  import opened Streams

  function CloseCount(fs: seq<Frame>): nat {
    if fs == [] then 0 else (if fs[0].opcode == OP_CLOSE then 1 else 0) + CloseCount(fs[1..])
  }

  lemma {:induction false} CloseCountAppend(a: seq<Frame>, b: seq<Frame>)
    ensures CloseCount(a + b) == CloseCount(a) + CloseCount(b)
  {
    if a == [] {
      assert a + b == b;
    } else {
      assert (a + b)[0] == a[0] && (a + b)[1..] == a[1..] + b;
      CloseCountAppend(a[1..], b);
    }
  }

  /** Every Close is either the engine's or the route's. */
  lemma {:induction false} CloseCountSplits(sent: seq<Sent>)
    ensures CloseCount(FramesOf(sent)) == CloseCount(Own(sent)) + CloseCount(Routes(sent))
  {
    if sent != [] {
      var f := sent[0].frame;
      CloseCountSplits(sent[1..]);
      assert FramesOf(sent) == [f] + FramesOf(sent[1..]);
      CloseCountAppend([f], FramesOf(sent[1..]));
      assert [f][1..] == [];
      CloseCountAppend(if sent[0].byEngine then [f] else [], Own(sent[1..]));
      CloseCountAppend(if sent[0].byEngine then [] else [f], Routes(sent[1..]));
    }
  }

  lemma {:induction false} PongsCount(fs: seq<Frame>)
    ensures CloseCount(Pongs(fs)) == 0
  {
    if fs != [] {
      PongsCount(fs[1..]);
      CloseCountAppend(if IsPing(fs[0]) then [Pong(fs[0].payload)] else [], Pongs(fs[1..]));
    }
  }

  /** Over any stream: the engine's Close, if it answered with one, and what the route asked for. */
  lemma ClosesAnswered(h: Handler, maxBody: nat, st: State, data: seq<Byte>)
    requires !st.closeSent
    ensures var o := Drain(h, maxBody, st, data);
            CloseCount(FramesOf(o.sent)) ==
            (if o.state.closeSent then 1 else 0) + CloseCount(Asked(h, st.fired, Calls(o.dispatched)))
  {
    var o := Drain(h, maxBody, st, data);
    ReplyDiscipline(h, maxBody, st, data);
    CallbackDiscipline(h, maxBody, st, data);
    CloseCountSplits(o.sent);
    PongsCount(o.dispatched);
    CloseCountAppend(Pongs(o.dispatched), Farewell(o.dispatched));
    var farewell := Farewell(o.dispatched);
    if farewell != [] {
      assert farewell[1..] == [] && farewell[0] in farewell;
    }
  }

  // ---- what a route hears ----

  function Messages(ms: seq<seq<Byte>>): seq<Callback> {
    if ms == [] then [] else [OnMessage(ms[0])] + Messages(ms[1..])
  }

  /** The callbacks of a connection on which the client sends these messages and then closes. */
  function Told(ms: seq<seq<Byte>>): seq<Callback> {
    Messages(ms) + [OnClose]
  }

  function Heard(calls: seq<Callback>): seq<seq<Byte>> {
    if calls == [] then [] else (if calls[0].OnMessage? then [calls[0].payload] else []) + Heard(calls[1..])
  }

  /** Messages a client can get through to the route. */
  predicate Admissible(ms: seq<seq<Byte>>, maxBody: nat) {
    forall m :: m in ms ==> |m| <= maxBody && |m| < TWO_64
  }

  lemma {:induction false} HeardInOrder(calls: seq<Callback>)
    requires CloseEnds(calls, false)
    ensures calls == Messages(Heard(calls)) || calls == Told(Heard(calls))
  {
    if calls != [] {
      var rest := calls[1..];
      assert forall i :: 0 <= i < |rest| ==> rest[i] == calls[i + 1];
      HeardInOrder(rest);
      if calls[0].OnMessage? {
        assert calls == [calls[0]] + rest;
        var ms := Heard(calls);
        assert ms[0] == calls[0].payload && ms[1..] == Heard(rest);
        assert [calls[0]] + (Messages(Heard(rest)) + [OnClose]) == [calls[0]] + Messages(Heard(rest)) + [OnClose];
      } else {
        assert rest == [] && calls == [OnClose];
      }
    }
  }

  lemma {:induction false} HeardAdmissible(fs: seq<Frame>, maxBody: nat)
    requires forall f :: f in fs ==> Admitted(f, maxBody) && Expressible(f)
    ensures Admissible(Heard(Calls(fs)), maxBody)
  {
    if fs != [] {
      HeardAdmissible(fs[1..], maxBody);
      assert Admitted(fs[0], maxBody) && Expressible(fs[0]);
      var rest := Calls(fs[1..]);
      assert Calls(fs) == Calls(fs)[..|Calls(fs)| - |rest|] + rest;
      if |Calls(fs)| > |rest| {
        assert Calls(fs)[1..] == rest;
      }
    }
  }

  // ---- what a route asks for ----

  /** How many Closes a route asks for when these callbacks are fired one after another. */
  function ClosesAsked(h: Handler, before: seq<Callback>, calls: seq<Callback>): nat
    decreases |calls|
  {
    if calls == [] then 0
    else CloseCount(Asked(h, before, [calls[0]])) + ClosesAsked(h, before + [calls[0]], calls[1..])
  }

  lemma {:induction false} ClosesAreAsked(h: Handler, before: seq<Callback>, calls: seq<Callback>)
    ensures CloseCount(Asked(h, before, calls)) == ClosesAsked(h, before, calls)
    decreases |calls|
  {
    if calls != [] {
      assert calls[..1] == [calls[0]];
      AskedCons(h, before, calls);
      CloseCountAppend(Asked(h, before, calls[..1]), Asked(h, before + calls[..1], calls[1..]));
      ClosesAreAsked(h, before + [calls[0]], calls[1..]);
    }
  }

  /** Hearing more never takes a request back. */
  lemma {:induction false} ClosesAskedMore(h: Handler, before: seq<Callback>, a: seq<Callback>, b: seq<Callback>)
    ensures ClosesAsked(h, before, a) <= ClosesAsked(h, before, a + b)
    decreases |a|
  {
    if a != [] {
      assert (a + b)[0] == a[0] && (a + b)[1..] == a[1..] + b;
      ClosesAskedMore(h, before + [a[0]], a[1..], b);
    }
  }

  /** A route that never closes a connection itself. */
  ghost predicate NeverCloses(h: Handler) {
    (forall past, p, c :: c in h.onMessage(past, p) ==> !c.CloseWith?) &&
    (forall past, c :: c in h.onClose(past) ==> !c.CloseWith?)
  }

  lemma {:induction false} NoCloseAsked(calls: seq<ContextCall>)
    requires forall c :: c in calls ==> !c.CloseWith?
    ensures CloseCount(FramesOf(FromCallback(calls))) == 0
  {
    if calls != [] {
      NoCloseAsked(calls[1..]);
      assert !calls[0].CloseWith?;
      var s := FromCallback(calls);
      assert FramesOf(s) == [s[0].frame] + FramesOf(FromCallback(calls[1..]));
    }
  }

  lemma {:induction false} NeverAsked(h: Handler, before: seq<Callback>, calls: seq<Callback>)
    requires NeverCloses(h)
    ensures ClosesAsked(h, before, calls) == 0
    decreases |calls|
  {
    if calls != [] {
      AskedOnce(h, before, calls[0]);
      NoCloseAsked(match calls[0] case OnMessage(p) => h.onMessage(before, p) case OnClose => h.onClose(before));
      NeverAsked(h, before + [calls[0]], calls[1..]);
    }
  }

  // ---- a stream that says this to a route ----

  /** One text frame for each message, then an empty Close. */
  function Spoken(ms: seq<seq<Byte>>): (fs: seq<Frame>)
    ensures |fs| == |ms| + 1
  {
    if ms == [] then [Frame(true, OP_CLOSE, [])] else [Frame(true, OP_TEXT, ms[0])] + Spoken(ms[1..])
  }

  /** Frames with a mask key of zeros and the shortest length. */
  function Masked(fs: seq<Frame>): seq<ClientFrame> {
    if fs == [] then [] else [ClientFrame(fs[0], Plain(fs[0], [0, 0, 0, 0]))] + Masked(fs[1..])
  }

  lemma PlainFits(f: Frame, key: seq<Byte>)
    requires Expressible(f) && |key| == 4
    ensures Fits(Plain(f, key), f)
  {
  }

  lemma {:induction false} MaskedIs(fs: seq<Frame>, maxBody: nat)
    requires forall f :: f in fs ==> Expressible(f) && Admitted(f, maxBody)
    ensures Sendable(Masked(fs), maxBody) && Bare(Masked(fs)) == fs
  {
    if fs != [] {
      assert fs[0] in fs;
      PlainFits(fs[0], [0, 0, 0, 0]);
      MaskedIs(fs[1..], maxBody);
      var first := ClientFrame(fs[0], Plain(fs[0], [0, 0, 0, 0]));
      assert Masked(fs)[0] == first && Masked(fs)[1..] == Masked(fs[1..]);
    }
  }

  lemma {:induction false} SpokenAdmitted(ms: seq<seq<Byte>>, maxBody: nat)
    requires Admissible(ms, maxBody)
    ensures forall f :: f in Spoken(ms) ==> Known(f) && Expressible(f) && Admitted(f, maxBody)
  {
    if ms != [] {
      assert ms[0] in ms;
      SpokenAdmitted(ms[1..], maxBody);
    }
  }

  lemma {:induction false} SpokenEndsInClose(ms: seq<seq<Byte>>)
    ensures FirstClose(Spoken(ms)) == |ms| && Farewell(Spoken(ms)) != []
  {
    if ms != [] {
      SpokenEndsInClose(ms[1..]);
      assert Spoken(ms)[1..] == Spoken(ms[1..]);
    }
  }

  lemma {:induction false} SpokenIsTold(ms: seq<seq<Byte>>)
    ensures Calls(Spoken(ms)) == Told(ms)
  {
    if ms == [] {
      assert Calls(Spoken(ms)) == [OnClose] + Calls([]);
    } else {
      var f := Frame(true, OP_TEXT, ms[0]);
      SpokenIsTold(ms[1..]);
      CallsCons(f, Spoken(ms[1..]));
      assert Calls([f]) == [OnMessage(ms[0])] + Calls([]);
      Assoc([OnMessage(ms[0])], Messages(ms[1..]), [OnClose]);
    }
  }

  /** All of it is dispatched, and its answer ends with a Close of the engine's. */
  lemma SpokenIsDispatched(h: Handler, maxBody: nat, ms: seq<seq<Byte>>)
    requires Admissible(ms, maxBody)
    ensures var cs := Masked(Spoken(ms));
            Sendable(cs, maxBody) &&
            var o := Drain(h, maxBody, FRESH, ClientStream(cs, maxBody));
            o.dispatched == Spoken(ms) && o.state.closeSent
  {
    var fs := Spoken(ms);
    var cs := Masked(fs);
    SpokenAdmitted(ms, maxBody);
    MaskedIs(fs, maxBody);
    SpokenEndsInClose(ms);
    ClientRoundTrip(h, maxBody, FRESH, cs, []);
    assert ClientStream(cs, maxBody) + [] == ClientStream(cs, maxBody);
    UpToFirstClose(h, FRESH, fs);
    assert fs[..|fs|] == fs;
    ReplyDiscipline(h, maxBody, FRESH, ClientStream(cs, maxBody));
  }

  // ---- when there can be two ----

  function ClosesInAnswer(h: Handler, maxBody: nat, data: seq<Byte>): nat {
    CloseCount(FramesOf(Drain(h, maxBody, FRESH, data).sent))
  }

  /** The route asks for a Close when the client sends these messages and then closes. */
  predicate AsksToClose(h: Handler, maxBody: nat, ms: seq<seq<Byte>>) {
    Admissible(ms, maxBody) && CloseCount(Asked(h, [], Told(ms))) > 0
  }

  /**
   * A Close sent by a callback is not remembered: if the route asks for one after
   * some messages, those messages and a Close of the client's are answered with two.
   */
  lemma CallbackCloseForgotten(h: Handler, maxBody: nat, ms: seq<seq<Byte>>)
    requires AsksToClose(h, maxBody, ms)
    ensures Sendable(Masked(Spoken(ms)), maxBody)
    ensures ClosesInAnswer(h, maxBody, ClientStream(Masked(Spoken(ms)), maxBody)) >= 2
  {
    SpokenIsDispatched(h, maxBody, ms);
    SpokenIsTold(ms);
    ClosesAnswered(h, maxBody, FRESH, ClientStream(Masked(Spoken(ms)), maxBody));
  }

  /** Whatever the stream, two Closes mean that the route asked for one after messages a client can send. */
  lemma TwoClosesWereAsked(h: Handler, maxBody: nat, data: seq<Byte>) returns (ms: seq<seq<Byte>>)
    requires ClosesInAnswer(h, maxBody, data) >= 2
    ensures AsksToClose(h, maxBody, ms)
  {
    var fs := Drain(h, maxBody, FRESH, data).dispatched;
    ms := Heard(Calls(fs));
    ClosesAnswered(h, maxBody, FRESH, data);
    DispatchedAdmitted(h, maxBody, FRESH, data);
    HeardAdmissible(fs, maxBody);
    CloseIsLastCall(h, maxBody, FRESH, data);
    HeardInOrder(Calls(fs));
    ClosesAreAsked(h, [], Messages(ms));
    ClosesAreAsked(h, [], Told(ms));
    ClosesAskedMore(h, [], Messages(ms), [OnClose]);
  }

  /** Some stream has two Closes in its answer exactly when the route asks for one after some messages. */
  lemma AtMostOneCloseExactly(h: Handler, maxBody: nat)
    ensures (forall data: seq<Byte> :: ClosesInAnswer(h, maxBody, data) <= 1) <==>
            (forall ms: seq<seq<Byte>> :: !AsksToClose(h, maxBody, ms))
  {
    if ms: seq<seq<Byte>> :| AsksToClose(h, maxBody, ms) {
      CallbackCloseForgotten(h, maxBody, ms);
    } else if data: seq<Byte> :| ClosesInAnswer(h, maxBody, data) > 1 {
      var ms := TwoClosesWereAsked(h, maxBody, data);
      assert false;
    }
  }

  /** In particular a route that makes no such call is safe. */
  lemma NeverClosesSafe(h: Handler, maxBody: nat, data: seq<Byte>)
    requires NeverCloses(h)
    ensures ClosesInAnswer(h, maxBody, data) <= 1
  {
    var calls := Calls(Drain(h, maxBody, FRESH, data).dispatched);
    ClosesAnswered(h, maxBody, FRESH, data);
    ClosesAreAsked(h, [], calls);
    NeverAsked(h, [], calls);
  }

  /** A route that answers every message with a Close of its own. */
  const CLOSER := Handler((_, _) => [CloseWith(1000, [])], _ => [])

  /** Any message makes it ask for one, so a message and a Close are answered with two. */
  lemma CloserAsks(p: seq<Byte>, maxBody: nat)
    requires |p| <= maxBody && |p| < TWO_64
    ensures AsksToClose(CLOSER, maxBody, [p])
    ensures Sendable(Masked(Spoken([p])), maxBody)
    ensures ClosesInAnswer(CLOSER, maxBody, ClientStream(Masked(Spoken([p])), maxBody)) >= 2
  {
    assert [p][1..] == [] && Messages([p][1..]) == [];
    assert Told([p]) == [OnMessage(p)] + [] + [OnClose];
    assert Told([p])[0] == OnMessage(p);
    ClosesAreAsked(CLOSER, [], Told([p]));
    AskedOnce(CLOSER, [], OnMessage(p));
    assert CLOSER.onMessage([], p) == [CloseWith(1000, [])];
    assert FromCallback([CloseWith(1000, [])]) == [Sent(false, CallFrame(CloseWith(1000, [])))];
    CallbackCloseForgotten(CLOSER, maxBody, [p]);
  }
}
