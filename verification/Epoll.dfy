/**
 * The epoll session after the upgrade to WebSocket: partial receives, partial
 * sends and "would block" outcomes interleaved over two bounded buffers.
 */
module Epoll {
  import opened Bytes
  import opened RingBuffers
  import opened Wire
  import opened Engine
  import opened Streams
  import opened Closes

  datatype RecvResult = Received(bytes: seq<Byte>) | PeerClosed | RecvWouldBlock | RecvFailed
  datatype SendResult = Accepted(n: nat) | SendWouldBlock | SendFailed

  /**
   * The kernel's side of a connection. Which outcome a call has, and how much it
   * moves, is the kernel's choice; the ghost fields remember what happened.
   */
  class Socket {
    var open: bool
    /** What the peer will write and has not been received yet. */
    var toCome: seq<Byte>
    ghost var received: seq<Byte>
    ghost var sent: seq<Byte>
    ghost var recvBlocks: nat
    ghost var sendBlocks: nat
    /** The peer closed, or a call failed. */
    ghost var ended: bool

    constructor (toCome: seq<Byte>)
      ensures open && this.toCome == toCome && received == [] && sent == [] && !ended
    {
      this.open := true;
      this.toCome := toCome;
      received, sent := [], [];
      recvBlocks, sendBlocks := 0, 0;
      ended := false;
    }

    method Recv(space: nat) returns (r: RecvResult)
      requires space > 0
      modifies this`toCome, this`received, this`recvBlocks, this`ended
      ensures !open ==> r.RecvFailed?
      ensures r.Received? ==>
                0 < |r.bytes| <= space && old(toCome) == r.bytes + toCome && received == old(received) + r.bytes
      ensures !r.Received? ==> toCome == old(toCome) && received == old(received)
      ensures recvBlocks == old(recvBlocks) + if r.RecvWouldBlock? then 1 else 0
      ensures ended == (old(ended) || r.PeerClosed? || r.RecvFailed?)
    {
      var choice: nat := *;
      if !open || choice == 0 {
        r := RecvFailed;
        ended := true;
      } else if choice == 1 {
        r := PeerClosed;
        ended := true;
      } else if choice == 2 || toCome == [] {
        r := RecvWouldBlock;
        recvBlocks := recvBlocks + 1;
      } else {
        assert 0 < 1 <= |toCome| && 1 <= space;
        var n :| 0 < n <= |toCome| && n <= space;
        r := Received(toCome[..n]);
        received := received + toCome[..n];
        toCome := toCome[n..];
      }
    }

    method Send(bytes: seq<Byte>) returns (r: SendResult)
      requires bytes != []
      modifies this`sent, this`sendBlocks, this`ended
      ensures !open ==> r.SendFailed?
      ensures r.Accepted? ==> 0 < r.n <= |bytes| && sent == old(sent) + bytes[..r.n]
      ensures !r.Accepted? ==> sent == old(sent)
      ensures sendBlocks == old(sendBlocks) + if r.SendWouldBlock? then 1 else 0
      ensures ended == (old(ended) || r.SendFailed?)
    {
      var choice: nat := *;
      if !open || choice == 0 {
        r := SendFailed;
        ended := true;
      } else if choice == 1 {
        r := SendWouldBlock;
        sendBlocks := sendBlocks + 1;
      } else {
        assert 0 < 1 <= |bytes|;
        var n :| 0 < n <= |bytes|;
        r := Accepted(n);
        sent := sent + bytes[..n];
      }
    }
  }

  /** How one turn of the receive loop ends. */
  datatype Step = Next | Break | ReturnTrue

  class Session {
    const socket: Socket
    const ws: WsState
    const readBuf: RingBuffer
    const writeBuf: RingBuffer
    const maxBody: nat
    var keepAlive: bool
    /** What the write buffer held when the session was upgraded: handshake and greeting. */
    ghost const prelude: seq<Byte>
    /** Some output did not fit in the write buffer and its end was lost; `kept` bytes came before that. */
    ghost var overflowed: bool
    ghost var kept: nat
    /** What was received before the receive, if there was one, in which the engine refused to go on. */
    ghost var heard: seq<Byte>

    constructor (route: Handler, toCome: seq<Byte>, prelude: seq<Byte>, readSize: nat, writeSize: nat, maxBody: nat)
      requires readSize < TWO_64 && |prelude| <= writeSize < TWO_64 && maxBody <= TWO_64 - 15
      ensures Consistent() && socket.open && !overflowed
      ensures ws.route == route && this.prelude == prelude && this.maxBody == maxBody
      ensures socket.toCome == toCome && socket.received == [] && socket.sent == []
      ensures fresh(socket) && fresh(ws) && fresh(readBuf) && fresh(writeBuf)
    {
      this.socket := new Socket(toCome);
      this.ws := new WsState(route);
      this.readBuf := new RingBuffer(readSize);
      this.writeBuf := new RingBuffer.Holding(writeSize, prelude);
      this.maxBody := maxBody;
      this.keepAlive := true;
      this.prelude := prelude;
      this.overflowed, this.kept, this.heard := false, 0, [];
      new;
      assert Drain(route, maxBody, FRESH, []) == Outcome(FRESH, [], [], [], true);
      assert prelude + Output([]) == prelude;
    }

    /** What one run of the engine over everything received comes to. */
    ghost function OneShot(): Outcome
      reads ws, socket
    {
      Drain(ws.route, maxBody, FRESH, socket.received)
    }

    /** The same of what was received while the engine still went on. */
    ghost function Before(): Outcome
      reads this, ws
    {
      Drain(ws.route, maxBody, FRESH, heard)
    }

    /** Everything the engine has answered so far, after the prelude. */
    ghost function Answer(): seq<Byte>
      reads ws, socket
    {
      prelude + Output(OneShot().sent)
    }

    ghost predicate Valid()
      reads this, readBuf, writeBuf
    {
      readBuf != writeBuf && readBuf.Valid() && writeBuf.Valid() && maxBody <= TWO_64 - 15
    }

    /**
     * Sent and still buffered bytes are `answer`, unless something overflowed: then they
     * fall short of it, but up to the first byte lost, a write buffer's worth at least,
     * they are still its beginning.
     */
    ghost predicate Holds(answer: seq<Byte>)
      reads this`overflowed, this`kept, socket, writeBuf
    {
      KeepsUp(socket.sent + writeBuf.contents, answer, overflowed, kept) && (overflowed ==> writeBuf.capacity <= kept)
    }

    ghost predicate Conserved()
      reads this, ws, socket, readBuf, writeBuf
    {
      Holds(Answer())
    }

    /** What the peer can see: up to the first byte lost, if one was. */
    ghost function Seen(): seq<Byte>
      reads this`overflowed, this`kept, socket
    {
      if overflowed then Clip(socket.sent, kept) else socket.sent
    }

    /** Only what the engine answered before it refused has been sent; the socket is closed before the rest could be. */
    ghost predicate Delivered()
      reads this, ws, socket
    {
      heard <= socket.received && Before().open &&
      if OneShot().open then heard == socket.received else |Seen()| <= |prelude + Output(Before().sent)|
    }

    ghost predicate Consistent()
      reads this, ws, socket, readBuf, writeBuf
    {
      Valid() && Conserved() && Delivered() &&
      (socket.open ==>
         keepAlive && OneShot().open && ws.View() == OneShot().state && readBuf.contents == OneShot().rest)
    }

    method Close()
      requires Consistent()
      modifies socket`open
      ensures Consistent() && !socket.open
    {
      socket.open := false;
    }

    /** Puts `bytes` behind what was left over and runs the engine once. */
    method HandleReceived(ghost seen: seq<Byte>, bytes: seq<Byte>) returns (more: bool)
      requires Valid() && socket.received == seen + bytes && |bytes| <= readBuf.Room()
      requires var o := Drain(ws.route, maxBody, FRESH, seen);
               heard == seen && o.open && ws.View() == o.state && readBuf.contents == o.rest &&
               Holds(prelude + Output(o.sent))
      modifies this`overflowed, this`kept, this`heard, ws, readBuf, writeBuf
      ensures Valid() && Conserved() && Delivered() && (old(overflowed) ==> overflowed && kept == old(kept))
      ensures heard == if more then socket.received else seen
      ensures more == OneShot().open && ws.View() == OneShot().state && readBuf.contents == OneShot().rest
    {
      ghost var o := Drain(ws.route, maxBody, FRESH, seen);
      ghost var next := Drain(ws.route, maxBody, o.state, o.rest + bytes);
      ghost var room := writeBuf.Room();
      DrainSplit(ws.route, maxBody, FRESH, seen, bytes);
      HeldIsSeen(prelude + Output(o.sent));
      HeldGrows(o.sent, next.sent);
      readBuf.AdvanceWritePos(bytes);
      more := ProcessFrames(ws, readBuf, writeBuf, maxBody);
      kept := if overflowed then kept else |socket.sent + writeBuf.contents|;
      overflowed := overflowed || |Output(next.sent)| > room;
      if more {
        heard := socket.received;
      }
    }

    /** What is held once more output has been appended, as far as there was room. */
    lemma HeldGrows(sent: seq<Sent>, more: seq<Sent>)
      requires Valid() && Holds(prelude + Output(sent))
      ensures var held := socket.sent + (writeBuf.contents + Clip(Output(more), writeBuf.Room()));
              KeepsUp(held, prelude + Output(sent + more), overflowed || |Output(more)| > writeBuf.Room(),
                      if overflowed then kept else |held|)
    {
      var room := writeBuf.Room();
      OutputAppend(sent, more);
      Assoc(socket.sent, writeBuf.contents, Clip(Output(more), room));
      Assoc(prelude, Output(sent), Output(more));
      ClipOutcome(socket.sent + writeBuf.contents, prelude + Output(sent), Output(more), room, overflowed, kept);
    }

    /** What is sent is the front of what is held. */
    lemma HeldIsSeen(answer: seq<Byte>)
      requires Holds(answer)
      ensures Seen() <= answer
    {
      assert socket.sent <= socket.sent + writeBuf.contents;
      if overflowed {
        assert Clip(socket.sent, kept) <= (socket.sent + writeBuf.contents)[..kept];
      }
    }

    /** What was sent is a prefix of the answer to what was received before the engine refused to go on. */
    lemma SentIsAnswered()
      requires Consistent()
      ensures Seen() <= prelude + Output(Before().sent) <= Answer()
    {
      HeldIsSeen(Answer());
      AnswersGrow(ws.route, maxBody, FRESH, heard, socket.received[|heard|..]);
      assert heard + socket.received[|heard|..] == socket.received;
    }

    /** A read buffer with room for any beginning of a frame is never full while the session is open. */
    lemma FullIsSmall()
      requires Consistent()
      ensures socket.open && readBuf.Room() == 0 ==> readBuf.capacity < maxBody + 14
    {
      FramesBounded(ws.route, maxBody, FRESH, socket.received);
    }

    /** Offers the front of the write buffer to the kernel and drops what it took. */
    method SendOnce(available: nat) returns (r: SendResult)
      requires Consistent() && 0 < available <= |writeBuf.contents|
      modifies socket`sent, socket`sendBlocks, socket`ended, writeBuf
      ensures Consistent()
      ensures r.Accepted? ==>
                0 < r.n <= available && socket.sent == old(socket.sent + writeBuf.contents[..r.n]) &&
                writeBuf.contents == old(writeBuf.contents)[r.n..]
      ensures !r.Accepted? ==> socket.sent == old(socket.sent) && writeBuf.contents == old(writeBuf.contents)
      ensures !socket.open ==> r.SendFailed?
      ensures socket.sendBlocks == old(socket.sendBlocks) + if r.SendWouldBlock? then 1 else 0
      ensures socket.ended == (old(socket.ended) || r.SendFailed?)
    {
      ghost var front := writeBuf.contents;
      r := socket.Send(writeBuf.contents[..available]);
      if r.Accepted? {
        writeBuf.AdvanceReadPos(r.n);
        assert front[..available][..r.n] == front[..r.n] && front[..r.n] + front[r.n..] == front;
        Assoc(old(socket.sent), front[..r.n], front[r.n..]);
      }
    }

    /** Sends until the buffer is empty, the kernel takes no more, or a send fails and the connection is closed. */
    method OnWriteReady() returns (wrote: bool)
      requires Consistent()
      modifies this, socket`open, socket`sent, socket`sendBlocks, socket`ended, writeBuf
      ensures Consistent() && overflowed == old(overflowed) && kept == old(kept) && keepAlive == old(keepAlive)
      ensures old(socket.sent) <= socket.sent && (old(socket.ended) ==> socket.ended)
      ensures socket.open ==> writeBuf.contents == [] || socket.sendBlocks > old(socket.sendBlocks)
      ensures !socket.open && old(socket.open) ==> socket.ended
      ensures socket.open ==> old(socket.open)
      ensures wrote <==> socket.sent != old(socket.sent) || (old(writeBuf.contents) != [] && !socket.open)
      ensures old(socket.sendBlocks) <= socket.sendBlocks
    {
      if writeBuf.contents == [] {
        return false;
      }
      wrote := false;
      while true
        invariant Consistent() && overflowed == old(overflowed) && kept == old(kept) && keepAlive == old(keepAlive)
        invariant old(socket.sent) <= socket.sent && socket.open == old(socket.open)
        invariant wrote <==> socket.sent != old(socket.sent)
        invariant !wrote ==> writeBuf.contents == old(writeBuf.contents)
        invariant !socket.open ==> !wrote
        invariant socket.ended == old(socket.ended) && socket.sendBlocks == old(socket.sendBlocks)
        decreases |writeBuf.contents|
      {
        var available := writeBuf.ReadRegion();
        if available == 0 {
          break;
        }
        var r := SendOnce(available);
        match r {
          case Accepted(_) =>
            wrote := true;
          case SendWouldBlock =>
            break;
          case SendFailed =>
            Close();
            return true;
        }
      }
      if writeBuf.contents == [] {
        OnWriteComplete();
      }
    }

    /** In WebSocket mode there is nothing to reset; without keep-alive the connection ends. */
    method OnWriteComplete()
      requires Consistent()
      modifies this, socket`open
      ensures Consistent() && overflowed == old(overflowed) && kept == old(kept) && keepAlive == old(keepAlive)
      ensures socket.open <==> old(socket.open) && keepAlive
    {
      if !keepAlive {
        Close();
      }
    }

    /** After a successful receive: run the engine; close if it says so, else flush what it wrote. */
    method Absorb(ghost seen: seq<Byte>, bytes: seq<Byte>) returns (step: Step)
      requires Valid() && socket.open && keepAlive && socket.received == seen + bytes && |bytes| <= readBuf.Room()
      requires var o := Drain(ws.route, maxBody, FRESH, seen);
               heard == seen && o.open && ws.View() == o.state && readBuf.contents == o.rest &&
               Holds(prelude + Output(o.sent))
      modifies this, socket`open, socket`sent, socket`sendBlocks, socket`ended, ws, readBuf, writeBuf
      ensures Consistent() && (old(overflowed) ==> overflowed && kept == old(kept))
      ensures old(socket.sent) <= socket.sent && (old(socket.ended) ==> socket.ended)
      ensures step.ReturnTrue? <==> !OneShot().open
      ensures step.ReturnTrue? ==> !socket.open
      ensures step.Break? && socket.open ==> writeBuf.contents != [] && socket.sendBlocks > old(socket.sendBlocks)
      ensures old(socket.sendBlocks) <= socket.sendBlocks
      ensures !socket.open ==> socket.ended || !OneShot().open
      ensures step.ReturnTrue? ==> socket.sent == old(socket.sent) && heard == seen && !keepAlive
      ensures step.Next? ==> writeBuf.contents == []
    {
      var more := HandleReceived(seen, bytes);
      if !more {
        keepAlive := false;
        socket.open := false;
        return ReturnTrue;
      }
      if writeBuf.contents != [] {
        var _ := OnWriteReady();
        if writeBuf.contents != [] {
          return Break;
        }
      }
      return Next;
    }

    /** One turn of the receive loop; `got` says whether it received anything. */
    method ReadOnce(space: nat) returns (step: Step, got: bool)
      requires Consistent() && 0 < space <= readBuf.Room()
      modifies this, socket, ws, readBuf, writeBuf
      ensures Consistent() && (old(overflowed) ==> overflowed && kept == old(kept))
      ensures old(socket.received + socket.toCome) == socket.received + socket.toCome
      ensures old(socket.received) <= socket.received && old(socket.sent) <= socket.sent
      ensures old(socket.sendBlocks) <= socket.sendBlocks && (old(socket.ended) ==> socket.ended)
      ensures got <==> |old(socket.received)| < |socket.received|
      ensures step.Next? ==> got && socket.recvBlocks == old(socket.recvBlocks) && writeBuf.contents == []
      ensures step.Break? && socket.open ==>
                if got then writeBuf.contents != [] && socket.sendBlocks > old(socket.sendBlocks)
                else socket.recvBlocks > old(socket.recvBlocks)
      ensures step.Break? && !got ==> socket.open
      ensures !got ==> writeBuf.contents == old(writeBuf.contents) && socket.sent == old(socket.sent)
      ensures step.ReturnTrue? ==> !socket.open
      ensures !socket.open ==> socket.ended || !OneShot().open
      ensures !step.ReturnTrue? ==> old(socket.open)
    {
      ghost var seen := socket.received;
      got := false;
      var r := socket.Recv(space);
      match r {
        case Received(bytes) =>
          got := true;
          Assoc(seen, bytes, socket.toCome);
          step := Absorb(seen, bytes);
        case PeerClosed =>
          Close();
          step := ReturnTrue;
        case RecvWouldBlock =>
          step := Break;
        case RecvFailed =>
          Close();
          step := ReturnTrue;
      }
    }

    /** The same, with the read buffer's room looked at first: full, the connection is closed. */
    method ReadTurn() returns (step: Step, got: bool)
      requires Consistent()
      modifies this, socket, ws, readBuf, writeBuf
      ensures Consistent() && (old(overflowed) ==> overflowed && kept == old(kept))
      ensures old(socket.received + socket.toCome) == socket.received + socket.toCome
      ensures old(socket.received) <= socket.received && old(socket.sent) <= socket.sent
      ensures old(socket.sendBlocks) <= socket.sendBlocks
      ensures got <==> |old(socket.received)| < |socket.received|
      ensures step.Next? ==> got && socket.recvBlocks == old(socket.recvBlocks) && writeBuf.contents == []
      ensures step.Break? && socket.open ==>
                if got then writeBuf.contents != [] && socket.sendBlocks > old(socket.sendBlocks)
                else socket.recvBlocks > old(socket.recvBlocks)
      ensures step.Break? && !got ==> socket.open
      ensures !got ==> writeBuf.contents == old(writeBuf.contents) && socket.sent == old(socket.sent)
      ensures step.ReturnTrue? ==> !socket.open
      ensures !socket.open && (old(socket.open) || old(Cause())) ==> Cause()
      ensures step.Next? ==> old(socket.open)
    {
      var availableSpace := readBuf.WriteRegion();
      if availableSpace == 0 {
        FullIsSmall();
        Close();
        return ReturnTrue, false;
      }
      step, got := ReadOnce(availableSpace);
    }

    /** Why a connection was closed. */
    ghost predicate Cause()
      requires Valid()
      reads this, socket, ws, readBuf, writeBuf
    {
      socket.ended || !OneShot().open || (readBuf.Room() == 0 && readBuf.capacity < maxBody + 14)
    }

    /**
     * Receives and handles until the kernel has nothing more or the write side
     * backs up. The connection is closed only when the peer or the kernel ended it,
     * the engine refused the stream, or the read buffer is full.
     */
    method OnReadReady() returns (activity: bool)
      requires Consistent()
      modifies this, socket, ws, readBuf, writeBuf
      ensures Consistent() && (old(overflowed) ==> overflowed && kept == old(kept))
      ensures old(socket.received + socket.toCome) == socket.received + socket.toCome
      ensures old(socket.received) <= socket.received && old(socket.sent) <= socket.sent
      ensures activity <==> socket.received != old(socket.received) || !socket.open
      ensures socket.open ==> socket.recvBlocks > old(socket.recvBlocks) ||
                              (writeBuf.contents != [] && socket.sendBlocks > old(socket.sendBlocks))
      ensures socket.open ==> writeBuf.contents == [] || socket.sendBlocks > old(socket.sendBlocks) ||
                              (socket.received == old(socket.received) && writeBuf.contents == old(writeBuf.contents))
      ensures old(socket.sendBlocks) <= socket.sendBlocks
      ensures !socket.open && old(socket.open) ==> Cause()
    {
      activity := false;
      while true
        invariant Consistent() && (old(overflowed) ==> overflowed && kept == old(kept))
        invariant old(socket.received + socket.toCome) == socket.received + socket.toCome
        invariant old(socket.received) <= socket.received && old(socket.sent) <= socket.sent
        invariant activity <==> |old(socket.received)| < |socket.received|
        invariant socket.recvBlocks == old(socket.recvBlocks) && old(socket.sendBlocks) <= socket.sendBlocks
        invariant !socket.open && old(socket.open) ==> Cause()
        invariant writeBuf.contents == [] || (!activity && writeBuf.contents == old(writeBuf.contents))
        decreases |socket.toCome|
      {
        ghost var total, received, sent := |socket.received + socket.toCome|, socket.received, socket.sent;
        var step, got := ReadTurn();
        assert |socket.received + socket.toCome| == total;
        PrefixTrans(old(socket.received), received, socket.received);
        PrefixTrans(old(socket.sent), sent, socket.sent);
        activity := activity || got;
        match step {
          case ReturnTrue => return true;
          case Break => break;
          case Next =>
        }
      }
    }
  }

  /** One report of `epoll_wait` for a session. */
  datatype Report = Report(readable: bool, writable: bool, hangup: bool)

  /** What can be seen of a session from outside, and why it was closed. */
  datatype Snap = Snap(
    open: bool, cause: bool, received: seq<Byte>, sent: seq<Byte>, unsent: seq<Byte>, recvBlocks: nat, sendBlocks: nat)

  ghost function SnapOf(s: Session): Snap
    requires s.Valid()
    reads s, s.socket, s.ws, s.readBuf, s.writeBuf
  {
    Snap(s.socket.open, s.Cause(), s.socket.received, s.socket.sent, s.writeBuf.contents,
         s.socket.recvBlocks, s.socket.sendBlocks)
  }

  /**
   * What a report does: told that it can read, an open session reads until the kernel
   * has no more or takes no more; told that it can write, it writes until nothing is
   * left or the kernel takes no more; it is closed by a hangup or for a cause only.
   */
  predicate Handled(e: Report, before: Snap, after: Snap) {
    (e.hangup ==> !after.open) &&
    (before.open && !after.open ==> e.hangup || after.cause) &&
    (e.readable && after.open ==> after.recvBlocks > before.recvBlocks || after.sendBlocks > before.sendBlocks) &&
    (e.writable && after.open ==> after.unsent == [] || after.sendBlocks > before.sendBlocks) &&
    (after.open && after.received != before.received ==>
       after.unsent == [] || after.sendBlocks > before.sendBlocks) &&
    (!e.readable ==> after.received == before.received) &&
    (!e.readable && !e.writable ==> after.sent == before.sent && after.unsent == before.unsent)
  }

  method HandleReport(s: Session, e: Report)
    requires s.Consistent()
    modifies s, s.socket, s.ws, s.readBuf, s.writeBuf
    ensures s.Consistent()
    ensures s.socket.received + s.socket.toCome == old(s.socket.received + s.socket.toCome)
    ensures Handled(e, old(SnapOf(s)), SnapOf(s))
  {
    if e.readable {
      var _ := s.OnReadReady();
    }
    if s.socket.open && e.writable {
      var _ := s.OnWriteReady();
    }
    if e.hangup {
      s.Close();
    }
  }

  /** No hangup among the first `k`. */
  predicate Quiet(reports: seq<Report>, k: nat) {
    k <= |reports| && forall j :: 0 <= j < k ==> !reports[j].hangup
  }

  /** `k` reports are all there are up to the first hangup. */
  predicate UpToHangup(reports: seq<Report>, k: nat) {
    (k == |reports| && Quiet(reports, k)) || (0 < k <= |reports| && reports[k - 1].hangup && Quiet(reports, k - 1))
  }

  predicate HandledAt(reports: seq<Report>, trace: seq<Snap>, j: nat) {
    j < |reports| && j + 1 < |trace| && Handled(reports[j], trace[j], trace[j + 1])
  }

  /** What was seen before, between and after the first `k` reports. */
  predicate Traced(reports: seq<Report>, trace: seq<Snap>, k: nat, first: Snap, last: Snap) {
    k <= |reports| && |trace| == k + 1 && trace[0] == first && trace[k] == last &&
    forall j :: 0 <= j < k ==> HandledAt(reports, trace, j)
  }

  lemma TracedNext(reports: seq<Report>, trace: seq<Snap>, k: nat, first: Snap, last: Snap, after: Snap)
    requires Traced(reports, trace, k, first, last) && k < |reports| && Handled(reports[k], last, after)
    ensures Traced(reports, trace + [after], k + 1, first, after)
  {
    var next := trace + [after];
    forall j | 0 <= j < k + 1
      ensures HandledAt(reports, next, j)
    {
      assert j < k ==> HandledAt(reports, trace, j);
      assert next[j] == trace[j] && next[j + 1] == if j < k then trace[j + 1] else after;
    }
  }

  /** After `k` reports, of all that the peer writes. */
  ghost predicate Along(s: Session, all: seq<Byte>, reports: seq<Report>, k: nat, trace: seq<Snap>, first: Snap)
    reads s, s.socket, s.ws, s.readBuf, s.writeBuf
  {
    s.Consistent() && s.socket.received + s.socket.toCome == all && Traced(reports, trace, k, first, SnapOf(s))
  }

  /** Report number `k`, after those before it. */
  method HandleNext(
    s: Session, ghost all: seq<Byte>, reports: seq<Report>, k: nat, ghost trace: seq<Snap>, ghost first: Snap)
    returns (ghost next: seq<Snap>)
    requires k < |reports| && Along(s, all, reports, k, trace, first)
    modifies s, s.socket, s.ws, s.readBuf, s.writeBuf
    ensures Along(s, all, reports, k + 1, next, first)
  {
    ghost var last := SnapOf(s);
    HandleReport(s, reports[k]);
    TracedNext(reports, trace, k, first, last, SnapOf(s));
    next := trace + [SnapOf(s)];
  }

  /** The reports one after the other, up to the first hangup. */
  method HandleReports(s: Session, reports: seq<Report>) returns (ghost trace: seq<Snap>, handled: nat)
    requires s.Consistent()
    modifies s, s.socket, s.ws, s.readBuf, s.writeBuf
    ensures UpToHangup(reports, handled)
    ensures Along(s, old(s.socket.received + s.socket.toCome), reports, handled, trace, old(SnapOf(s)))
  {
    ghost var first, all := SnapOf(s), s.socket.received + s.socket.toCome;
    trace, handled := [first], 0;
    while handled < |reports|
      invariant Quiet(reports, handled) && Along(s, all, reports, handled, trace, first)
    {
      trace := HandleNext(s, all, reports, handled, trace, first);
      handled := handled + 1;
      if reports[handled - 1].hangup {
        return;
      }
    }
  }

  /** After a last report that it can write, an open session has nothing left to send, or the kernel took no more. */
  lemma FlushedOrBlocked(reports: seq<Report>, trace: seq<Snap>, k: nat, first: Snap, last: Snap)
    requires Traced(reports, trace, k, first, last) && k > 0 && reports[k - 1].writable && last.open
    ensures last.unsent == [] || last.sendBlocks > trace[k - 1].sendBlocks
  {
    assert HandledAt(reports, trace, k - 1);
  }

  /**
   * A session's life under any sequence of reports. Whatever the sizes and outcomes,
   * what the peer can have seen, up to the first byte lost if something overflowed the
   * write buffer, is a prefix of the one-shot answer to all it will ever write; and only
   * of the answer to what was received before the engine refused to go on, if it did.
   */
  method Serve(s: Session, reports: seq<Report>) returns (ghost trace: seq<Snap>, handled: nat)
    requires s.Consistent()
    modifies s, s.socket, s.ws, s.readBuf, s.writeBuf
    ensures s.Consistent()
    ensures s.socket.received + s.socket.toCome == old(s.socket.received + s.socket.toCome)
    ensures s.Seen() <= s.prelude + Output(s.Before().sent) && s.heard <= s.socket.received && s.Before().open
    ensures var whole := Drain(s.ws.route, s.maxBody, FRESH, old(s.socket.received + s.socket.toCome));
            s.Seen() <= s.prelude + Output(whole.sent) && (s.overflowed ==> s.writeBuf.capacity <= s.kept)
    ensures var whole := Drain(s.ws.route, s.maxBody, FRESH, old(s.socket.received + s.socket.toCome));
            !s.overflowed && s.socket.toCome == [] ==>
              (s.socket.sent == s.prelude + Output(whole.sent) <==> s.writeBuf.contents == []) &&
              (whole.state.closeSent ==> s.writeBuf.contents != [])
    ensures UpToHangup(reports, handled) && Traced(reports, trace, handled, old(SnapOf(s)), SnapOf(s))
  {
    ghost var all := s.socket.received + s.socket.toCome;
    trace, handled := HandleReports(s, reports);
    s.SentIsAnswered();
    SeenSoFar(s, all);
  }

  /** What the peer can have seen so far, against the answer to all it will ever write. */
  lemma SeenSoFar(s: Session, all: seq<Byte>)
    requires s.Consistent() && s.socket.received + s.socket.toCome == all
    ensures var answer := s.prelude + Output(Drain(s.ws.route, s.maxBody, FRESH, all).sent);
            s.Seen() <= answer && (s.overflowed ==> s.writeBuf.capacity <= s.kept) &&
            (!s.overflowed && s.socket.toCome == [] ==>
               (s.socket.sent == answer <==> s.writeBuf.contents == []) &&
               (Drain(s.ws.route, s.maxBody, FRESH, all).state.closeSent ==> s.writeBuf.contents != []))
  {
    AnswersGrow(s.ws.route, s.maxBody, FRESH, s.socket.received, s.socket.toCome);
    var part, whole := s.OneShot().sent, Drain(s.ws.route, s.maxBody, FRESH, all).sent;
    s.HeldIsSeen(s.Answer());
    assert s.prelude + Output(part) <= s.prelude + Output(whole);
    if !s.overflowed && s.socket.toCome == [] {
      assert s.socket.received + [] == s.socket.received;
      assert |s.socket.sent + s.writeBuf.contents| == |s.socket.sent| + |s.writeBuf.contents|;
      assert s.writeBuf.contents == [] ==> s.socket.sent + s.writeBuf.contents == s.socket.sent;
      if s.OneShot().state.closeSent {
        EngineCloseNeverSent(s);
      }
    }
  }

  /**
   * A Close of the engine's never leaves the write buffer: the call that wrote it closes
   * the socket before anything is flushed. The same goes for whatever else the engine
   * answered in that call.
   */
  lemma EngineCloseNeverSent(s: Session)
    requires s.Consistent() && !s.overflowed && s.OneShot().state.closeSent
    ensures !s.socket.open && s.socket.sent <= s.prelude + Output(s.Before().sent)
    ensures |s.socket.sent| < |s.Answer()| && s.writeBuf.contents != []
  {
    var before, late := s.Before(), s.socket.received[|s.heard|..];
    s.SentIsAnswered();
    assert s.heard + late == s.socket.received;
    DrainSplit(s.ws.route, s.maxBody, FRESH, s.heard, late);
    ReplyDiscipline(s.ws.route, s.maxBody, FRESH, s.heard);
    CloseHasBytes(s.ws.route, s.maxBody, before.state, before.rest + late);
    OutputAppend(before.sent, Drain(s.ws.route, s.maxBody, before.state, before.rest + late).sent);
  }

  lemma CountOfFront(front: seq<Frame>, all: seq<Frame>)
    requires front <= all
    ensures CloseCount(front) <= CloseCount(all)
  {
    assert front + all[|front|..] == all;
    CloseCountAppend(front, all[|front|..]);
  }

  /**
   * What the peer can decode: frames answered before the engine refused to go on. The
   * engine's own among them are Pongs, and every Close is one the route asked for in the
   * calls made by then.
   */
  lemma ClosesSeenByPeer(s: Session)
    requires s.Consistent() && !s.overflowed && s.prelude <= s.socket.sent
    ensures var frames, before := DecodeAll(s.socket.sent[|s.prelude|..]), s.Before();
            frames <= FramesOf(before.sent) && Own(before.sent) == Pongs(before.dispatched) &&
            CloseCount(frames) <= CloseCount(Asked(s.ws.route, [], Calls(before.dispatched))) &&
            (s.socket.sent == s.prelude + Output(before.sent) ==>
               CloseCount(frames) == CloseCount(Asked(s.ws.route, [], Calls(before.dispatched))))
  {
    var before, seen := s.Before(), s.socket.sent[|s.prelude|..];
    s.SentIsAnswered();
    assert s.socket.sent == s.prelude + seen;
    assert (s.prelude + Output(before.sent))[|s.prelude|..] == Output(before.sent);
    assert seen <= Output(before.sent);
    OutputDecodes(s.ws.route, s.maxBody, FRESH, s.heard, seen);
    ReplyDiscipline(s.ws.route, s.maxBody, FRESH, s.heard);
    assert Pongs(before.dispatched) + [] == Pongs(before.dispatched);
    ClosesAnswered(s.ws.route, s.maxBody, FRESH, s.heard);
    CountOfFront(DecodeAll(seen), FramesOf(before.sent));
  }

  /** What a client of the echo service has decoded at any moment: the first of its own messages, sent back. */
  lemma EchoSeenByPeer(maxBody: nat, cs: seq<ClientFrame>, seen: seq<Byte>)
    requires Sendable(cs, maxBody) && forall c :: c in cs ==> Ordinary(c.frame)
    ensures var answer := Output(Drain(ECHO, maxBody, FRESH, ClientStream(cs, maxBody)).sent);
            (seen <= answer ==> DecodeAll(seen) <= Echoed(Bare(cs))) &&
            (seen == answer ==> DecodeAll(seen) == Echoed(Bare(cs)))
  {
    var bytes := ClientStream(cs, maxBody);
    assert Concat([bytes]) == bytes + Concat([]) == bytes;
    EchoCorrect(maxBody, FRESH, cs, [bytes]);
    ChunkingIndependence(ECHO, maxBody, FRESH, [bytes]);
    if seen <= Output(Drain(ECHO, maxBody, FRESH, bytes).sent) {
      OutputDecodes(ECHO, maxBody, FRESH, bytes, seen);
    }
  }

  lemma BehindPrelude(prelude: seq<Byte>, sent: seq<Byte>, answer: seq<Byte>)
    requires prelude <= sent <= prelude + answer
    ensures var seen := sent[|prelude|..];
            seen <= answer && (sent == prelude + answer ==> seen == answer)
  {
    var seen := sent[|prelude|..];
    assert (prelude + answer)[|prelude|..] == answer;
    assert sent == prelude + seen;
  }

  /** The same of a session: while the client's own messages arrive, it has decoded the first of their echoes. */
  lemma EchoSession(s: Session, cs: seq<ClientFrame>)
    requires s.Consistent() && s.ws.route == ECHO && !s.overflowed
    requires Sendable(cs, s.maxBody) && forall c :: c in cs ==> Ordinary(c.frame)
    requires s.socket.received + s.socket.toCome == ClientStream(cs, s.maxBody) && s.prelude <= s.socket.sent
    ensures var seen := s.socket.sent[|s.prelude|..];
            DecodeAll(seen) <= Echoed(Bare(cs)) &&
            (s.socket.toCome == [] && s.writeBuf.contents == [] ==> DecodeAll(seen) == Echoed(Bare(cs)))
  {
    var seen := s.socket.sent[|s.prelude|..];
    var answer := Output(Drain(ECHO, s.maxBody, FRESH, ClientStream(cs, s.maxBody)).sent);
    SeenSoFar(s, ClientStream(cs, s.maxBody));
    EchoSeenByPeer(s.maxBody, cs, seen);
    BehindPrelude(s.prelude, s.socket.sent, answer);
  }
}
