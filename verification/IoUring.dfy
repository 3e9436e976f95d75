/**
 * The io_uring session and the part of the worker loop that serves it, after the
 * upgrade to WebSocket. Every turn of the loop is a step of the machine in `ZeroCopy`.
 */
module IoUring {
  import opened Bytes
  import opened RingBuffers
  import opened Wire
  import opened Engine
  import opened Streams
  import Z = ZeroCopy
  import A = Aftermath
  import P = Progress

  const READING: bv8 := 1
  const WRITING: bv8 := 2
  const WAITING_ZC: bv8 := 4

  /** The three low bits of `_ioFlags`. */
  function FlagsOf(bits: bv8): Z.Flags {
    Z.Flags(bits & 1 != 0, bits & 2 != 0, bits & 4 != 0)
  }

  function Named(bit: bv8): Z.Flag
    requires bit in {READING, WRITING, WAITING_ZC}
  {
    if bit == READING then Z.IO_READING else if bit == WRITING then Z.IO_WRITING else Z.IO_WAITING_ZC
  }

  /** Setting and clearing one bit touches that flag only, and no bit outside the three ever appears. */
  lemma BitUpdates(bits: bv8, bit: bv8)
    requires bits < 8 && bit in {READING, WRITING, WAITING_ZC}
    ensures bits | bit < 8 && FlagsOf(bits | bit) == FlagsOf(bits).With(Named(bit), true)
    ensures bits & !bit < 8 && FlagsOf(bits & !bit) == FlagsOf(bits).With(Named(bit), false)
  {
  }

  /** `hasPendingIo` compares the whole byte with zero. */
  lemma PendingBits(bits: bv8)
    requires bits < 8
    ensures bits != 0 <==> FlagsOf(bits).Pending()
  {
  }

  /** The flags of a session that is sending its handshake and waiting to receive. */
  const STARTED: bv8 := 3

  lemma StartedFlags()
    ensures FlagsOf(STARTED) == Z.Flags(true, true, false)
  {
  }

  datatype OpType = Read | Write

  /** What the worker wakes up for: a timeout, an expiry, or the completion of an operation. */
  datatype Wake = Nothing | Expiry | Receive | Send(which: nat)

  /** Whether there is anything to it. */
  predicate Ready(w: Z.World, wake: Wake) {
    match wake
    case Nothing => false
    case Expiry => w.linked
    case Receive => w.recvs > 0
    case Send(i) => i < |w.sends|
  }

  /** The step it leads to. */
  predicate Answers(wake: Wake, e: Z.Event) {
    match wake
    case Nothing => false
    case Expiry => e.Expired?
    case Receive => e.RecvDone?
    case Send(i) => (e.SendDone? || e.Noticed?) && e.which == i
  }

  /** A completion: for a receive, with the bytes the kernel stored. */
  datatype Cqe = Cqe(optype: OpType, which: nat, res: int, isNotif: bool, hasMore: bool, bytes: seq<Byte>)

  /** The ring and what the kernel holds for the session; what completes next is its own choice. */
  class Kernel {
    var recvs: nat
    var sends: seq<Z.SendOp>
    /** What the peer will write and has not been received yet. */
    var toCome: seq<Byte>
    /** Empty operations queued with no request behind them. */
    var nops: nat
    ghost var accepted: seq<Byte>
    /** How often there was no submission queue entry. */
    ghost var refusals: nat

    /** With a receive armed and `bytes` being sent. */
    constructor (toCome: seq<Byte>, bytes: seq<Byte>)
      ensures recvs == 1 && sends == [Z.Submitted(bytes)] && accepted == [] && this.toCome == toCome && nops == 0
    {
      recvs, sends, this.toCome, nops := 1, [Z.Submitted(bytes)], toCome, 0;
      accepted, refusals := [], 0;
    }

    /** False when the submission queue is full. */
    method GetSqe() returns (ok: bool)
      modifies this`refusals
      ensures refusals == old(refusals) + if ok then 0 else 1
    {
      ok := *;
      if !ok {
        refusals := refusals + 1;
      }
    }

    method PrepRecv()
      modifies this`recvs
      ensures recvs == old(recvs) + 1
    {
      recvs := recvs + 1;
    }

    method PrepSendZc(bytes: seq<Byte>)
      modifies this`sends
      ensures sends == old(sends) + [Z.Submitted(bytes)]
    {
      sends := sends + [Z.Submitted(bytes)];
    }

    method PrepNop()
      modifies this`nops
      ensures nops == old(nops) + 1
    {
      nops := nops + 1;
    }

    /** What a completion means for the kernel's books. */
    twostate predicate Completed(cqe: Cqe, space: nat)
      reads this
    {
      nops == old(nops) && refusals == old(refusals) &&
      match cqe.optype
      case Read =>
        old(recvs) > 0 && recvs == old(recvs) - 1 && sends == old(sends) && accepted == old(accepted) &&
        old(toCome) == cqe.bytes + toCome && |cqe.bytes| <= space &&
        (if cqe.res > 0 then cqe.res == |cqe.bytes| else cqe.bytes == [])
      case Write =>
        recvs == old(recvs) && toCome == old(toCome) && cqe.bytes == [] && cqe.which < |old(sends)| &&
        var op := old(sends)[cqe.which];
        var others := old(sends)[..cqe.which] + old(sends)[cqe.which + 1..];
        if cqe.isNotif then
          op.AwaitsNotice? && !cqe.hasMore && sends == others && accepted == old(accepted)
        else
          op.Submitted? && cqe.res <= |op.pinned| && (cqe.res >= 0 ==> cqe.hasMore) &&
          var taken := if cqe.res < 0 then 0 else cqe.res;
          sends == (if cqe.hasMore then old(sends)[cqe.which := Z.AwaitsNotice(op.pinned, taken)] else others) &&
          accepted == old(accepted) + op.pinned[..taken]
    }

    method CompleteRecv(space: nat) returns (cqe: Cqe)
      requires recvs > 0
      modifies this
      ensures cqe.optype == Read && Completed(cqe, space)
    {
      var n: nat := *;
      recvs := recvs - 1;
      if 0 < n <= |toCome| && n <= space {
        cqe := Cqe(Read, 0, n, false, false, toCome[..n]);
        toCome := toCome[n..];
      } else {
        var res: int := *;
        cqe := Cqe(Read, 0, if res > 0 then 0 else res, false, false, []);
      }
    }

    method CompleteSend(i: nat) returns (cqe: Cqe)
      requires i < |sends|
      modifies this
      ensures cqe.optype == Write && cqe.which == i && Completed(cqe, 0)
    {
      match sends[i] {
        case AwaitsNotice(_, _) =>
          cqe := Cqe(Write, i, 0, true, false, []);
          sends := sends[..i] + sends[i + 1..];
        case Submitted(pinned) =>
          var res: int := *;
          if res > |pinned| {
            res := |pinned|;
          }
          var more: bool := *;
          if res >= 0 {
            more := true;
          }
          var taken := if res < 0 then 0 else res;
          cqe := Cqe(Write, i, res, false, more, []);
          sends := if more then sends[i := Z.AwaitsNotice(pinned, taken)] else sends[..i] + sends[i + 1..];
          accepted := accepted + pinned[..taken];
      }
    }

    /** The operation the wait is over for completes, if the kernel holds it. */
    method Complete(space: nat, wake: Wake) returns (cqe: Option<Cqe>)
      modifies this
      ensures cqe.Some? <==> (wake.Receive? && old(recvs) > 0) || (wake.Send? && wake.which < |old(sends)|)
      ensures cqe.Some? ==> Completed(cqe.value, space) && (cqe.value.optype == Read <==> wake.Receive?)
      ensures cqe.Some? && wake.Send? ==> cqe.value.which == wake.which
      ensures cqe.None? ==>
                recvs == old(recvs) && sends == old(sends) && toCome == old(toCome) && accepted == old(accepted) &&
                nops == old(nops) && refusals == old(refusals)
    {
      if wake.Receive? && recvs > 0 {
        var c := CompleteRecv(space);
        cqe := Some(c);
      } else if wake.Send? && wake.which < |sends| {
        var c := CompleteSend(wake.which);
        cqe := Some(c);
      } else {
        cqe := None;
      }
    }
  }

  class Session {
    const kernel: Kernel
    const ws: WsState
    const readBuf: RingBuffer
    const writeBuf: RingBuffer
    const maxBody: nat
    var open: bool
    var keepAlive: bool
    var status: Z.Status
    /** In the timer wheel. */
    var linked: bool
    /** `::shutdown` was called on the socket while it was open. */
    var shut: bool
    var ioFlags: bv8
    var lockedZcBytes: nat
    ghost const prelude: seq<Byte>
    ghost var received: seq<Byte>
    ghost var appended: seq<Byte>
    /** Some output did not fit in the write buffer; the first `kept` bytes of `appended` are before that. */
    ghost var overflowed: bool
    ghost var kept: nat
    ghost var frees: nat

    /** An upgraded session: the handshake is being sent and a receive is armed. */
    constructor (route: Handler, toCome: seq<Byte>, prelude: seq<Byte>, readSize: nat, writeSize: nat, maxBody: nat)
      requires 0 < readSize < TWO_64 && 0 < |prelude| <= writeSize < TWO_64 && maxBody <= TWO_64 - 15
      ensures Valid() && EngineInv() && Z.Inv(View()) && !overflowed && frees == 0
      ensures ws.route == route && this.prelude == prelude && this.maxBody == maxBody
      ensures kernel.toCome == toCome && received == [] && kernel.nops == 0 && P.Attentive(View())
    {
      this.kernel := new Kernel(toCome, prelude);
      this.ws := new WsState(route);
      this.readBuf := new RingBuffer(readSize);
      this.writeBuf := new RingBuffer.Holding(writeSize, prelude);
      this.maxBody := maxBody;
      open, keepAlive, status, linked, shut, ioFlags, lockedZcBytes := true, true, Z.Active, true, false, STARTED, 0;
      this.prelude := prelude;
      received, appended, overflowed, kept, frees := [], prelude, false, 0, 0;
      new;
      StartedFlags();
      assert Valid();
      StartsWell();
    }

    /** The handshake is the whole write buffer and nothing of it is accepted yet. */
    lemma StartsWell()
      requires prelude != [] && received == [] && appended == prelude && !overflowed && status == Z.Active && frees == 0
      requires ws.View() == FRESH && readBuf.contents == []
      requires View() == Z.World(true, true, Z.Active, true, Z.Flags(true, true, false), 0, [], prelude,
                                 1, [Z.Submitted(prelude)], [], prelude, 0)
      ensures EngineInv() && Z.Inv(View()) && P.Attentive(View())
    {
      assert OneShot() == Outcome(FRESH, [], [], [], true);
      assert prelude + Output([]) == prelude;
      assert Z.Retired(View()) == [];
    }

    ghost predicate Valid()
      reads this, readBuf, writeBuf
    {
      readBuf != writeBuf && readBuf.Valid() && writeBuf.Valid() && maxBody <= TWO_64 - 15 && ioFlags < 8
    }

    /** The session and its kernel as a state of the machine. */
    ghost function View(): Z.World
      reads this, kernel, readBuf, writeBuf
    {
      Z.World(
        open, keepAlive, status, linked, FlagsOf(ioFlags), lockedZcBytes, readBuf.contents, writeBuf.contents,
        kernel.recvs, kernel.sends, kernel.accepted, appended, frees)
    }

    ghost function OneShot(): Outcome
      reads this`received, ws
    {
      Drain(ws.route, maxBody, FRESH, received)
    }

    /** While active, the session is where one run over everything received would be; it appended that run's output. */
    ghost predicate EngineInv()
      reads this`status, this`received, this`appended, this`overflowed, this`kept, ws, readBuf
    {
      (status == Z.Active ==>
         OneShot().open && ws.View() == OneShot().state && readBuf.contents == OneShot().rest) &&
      KeepsUp(appended, prelude + Output(OneShot().sent), overflowed, kept)
    }

    /** The read buffer holds the longest beginning of a frame there is, and one byte more. */
    ghost predicate Roomy() {
      readBuf.capacity >= maxBody + 14
    }

    /** Then it is never full while the session is active. */
    lemma RoomLeft()
      requires Valid() && EngineInv() && status == Z.Active && Roomy()
      ensures readBuf.Room() > 0
    {
      FramesBounded(ws.route, maxBody, FRESH, received);
    }

    method UpdateIoState(flag: bv8, active: bool)
      requires Valid() && flag in {READING, WRITING, WAITING_ZC}
      modifies this`ioFlags
      ensures Valid() && View() == Z.SetFlag(old(View()), Named(flag), active)
    {
      BitUpdates(ioFlags, flag);
      ioFlags := if active then ioFlags | flag else ioFlags & !flag;
    }

    method Close()
      modifies this`open
      ensures View() == Z.CloseSocket(old(View()))
    {
      open := false;
    }

    method SetStatus(s: Z.Status)
      modifies this`status
      ensures View() == Z.SetStatus(old(View()), s)
    {
      status := s;
    }

    method OnReadReady()
      requires Valid()
      modifies this`open, this`ioFlags, kernel
      ensures Valid() && kernel.toCome == old(kernel.toCome)
      ensures View() == if old(readBuf.Room()) == 0 then Z.CloseSocket(old(View())) else Z.ArmRecv(old(View()))
      ensures kernel.nops == old(kernel.nops) + if old(readBuf.Room()) == 0 then 1 else 0
      ensures kernel.refusals == old(kernel.refusals)
    {
      var availableSpace := readBuf.WriteRegion();
      if availableSpace == 0 {
        Close();
        kernel.PrepNop();
        return;
      }
      kernel.PrepRecv();
      UpdateIoState(READING, true);
    }

    method OnWriteReady() returns (ghost region: nat)
      requires Valid()
      modifies this`open, this`ioFlags, kernel
      ensures Valid() && kernel.toCome == old(kernel.toCome)
      ensures View() ==
              if old(writeBuf.contents) == [] then Z.CloseSocket(old(View())) else Z.ArmSend(old(View()), region)
      ensures kernel.nops == old(kernel.nops) + if old(writeBuf.contents) == [] then 1 else 0
      ensures kernel.refusals == old(kernel.refusals)
    {
      var available := writeBuf.ReadRegion();
      region := 0;
      if available == 0 {
        Close();
        kernel.PrepNop();
        return;
      }
      region := available - 1;
      assert writeBuf.contents[..available] == Clip(writeBuf.contents, region + 1);
      kernel.PrepSendZc(writeBuf.contents[..available]);
      UpdateIoState(WRITING, true);
    }

    /** What the engine makes of `bytes` arriving now. */
    ghost function EngineApp(bytes: seq<Byte>): Z.App
      requires Valid()
      reads this, ws, readBuf, writeBuf
    {
      var o := Drain(ws.route, maxBody, ws.View(), readBuf.contents + bytes);
      Z.App(o.rest, Clip(Output(o.sent), writeBuf.Room()), !o.open, o.open && keepAlive)
    }

    /** What the engine adds to the one-shot answer when `bytes` come in. */
    lemma AnswerGrows(o: Outcome, next: Outcome, bytes: seq<Byte>)
      requires o == OneShot() && o.open && next == Drain(ws.route, maxBody, o.state, o.rest + bytes)
      ensures Drain(ws.route, maxBody, FRESH, received + bytes) == Prepend(o.sent, o.dispatched, next)
      ensures prelude + Output(o.sent + next.sent) == prelude + Output(o.sent) + Output(next.sent)
    {
      DrainSplit(ws.route, maxBody, FRESH, received, bytes);
      OutputAppend(o.sent, next.sent);
      Assoc(prelude, Output(o.sent), Output(next.sent));
    }

    method RunEngine(bytes: seq<Byte>) returns (more: bool)
      requires Valid() && |bytes| <= readBuf.Room()
      modifies ws, readBuf, writeBuf
      ensures Valid()
      ensures var o := Drain(ws.route, maxBody, old(ws.View()), old(readBuf.contents) + bytes);
              more == o.open && ws.View() == o.state && readBuf.contents == o.rest &&
              writeBuf.contents == old(writeBuf.contents) + Clip(Output(o.sent), old(writeBuf.Room()))
    {
      readBuf.AdvanceWritePos(bytes);
      more := ProcessFrames(ws, readBuf, writeBuf, maxBody);
    }

    /** Runs the engine over what is unread and `bytes`, and keeps the books. */
    method RunAndRecord(bytes: seq<Byte>) returns (more: bool)
      requires Valid() && EngineInv() && status == Z.Active && |bytes| <= readBuf.Room()
      modifies this`received, this`appended, this`overflowed, this`kept, ws, readBuf, writeBuf
      ensures Valid() && received == old(received) + bytes && (old(overflowed) ==> overflowed && kept == old(kept))
      ensures more == OneShot().open && ws.View() == OneShot().state && readBuf.contents == OneShot().rest
      ensures KeepsUp(appended, prelude + Output(OneShot().sent), overflowed, kept)
      ensures var app := old(EngineApp(bytes));
              more == !app.closing &&
              readBuf.contents == app.unread && writeBuf.contents == old(writeBuf.contents) + app.output &&
              appended == old(appended) + app.output
    {
      ghost var o := OneShot();
      ghost var next := Drain(ws.route, maxBody, o.state, o.rest + bytes);
      ghost var room := writeBuf.Room();
      AnswerGrows(o, next, bytes);
      ClipOutcome(appended, prelude + Output(o.sent), Output(next.sent), room, overflowed, kept);
      more := RunEngine(bytes);
      received := received + bytes;
      appended := appended + Clip(Output(next.sent), room);
      kept := if overflowed then kept else |appended|;
      overflowed := overflowed || |Output(next.sent)| > room;
      assert OneShot() == Prepend(o.sent, o.dispatched, next);
    }

    /** The protocol layer's part of a receive: a refused stream starts closing the session. */
    method Absorb(bytes: seq<Byte>)
      requires Valid() && EngineInv() && status == Z.Active && |bytes| <= readBuf.Room()
      modifies this`received, this`appended, this`overflowed, this`kept, this`status, this`keepAlive
      modifies ws, readBuf, writeBuf
      ensures Valid() && EngineInv() && received == old(received) + bytes
      ensures old(overflowed) ==> overflowed && kept == old(kept)
      ensures View() == Z.Absorbed(old(View()), old(EngineApp(bytes)))
    {
      var more := RunAndRecord(bytes);
      if !more {
        status := Z.Closing;
        keepAlive := false;
      }
    }

    method TryArmSend() returns (ghost sqe: Option<nat>)
      requires Valid()
      modifies this`open, this`ioFlags, kernel
      ensures Valid() && kernel.toCome == old(kernel.toCome)
      ensures View() == Z.TryArmSend(old(View()), sqe) && kernel.nops == old(kernel.nops)
      ensures kernel.refusals >= old(kernel.refusals)
      ensures old(writeBuf.contents) != [] && !old(View()).flags.writing && sqe.None? ==>
                kernel.refusals > old(kernel.refusals)
    {
      sqe := None;
      if writeBuf.contents != [] && ioFlags & WRITING == 0 {
        var ok := kernel.GetSqe();
        if ok {
          ghost var region := OnWriteReady();
          sqe := Some(region);
        }
      }
    }

    method TryArmRecv() returns (ghost readSqe: Z.ReadSqe)
      requires Valid()
      modifies this`open, this`ioFlags, kernel
      ensures Valid() && kernel.toCome == old(kernel.toCome)
      ensures View() == Z.TryArmRecv(old(View()), readSqe)
      ensures kernel.nops == old(kernel.nops) + if readSqe.BufferFull? then 1 else 0
      ensures readSqe.BufferFull? ==> old(readBuf.Room()) == 0 && status == Z.Active
      ensures readSqe.Space? ==> old(readBuf.Room()) > 0
      ensures kernel.refusals >= old(kernel.refusals)
      ensures status == Z.Active && !old(View()).flags.reading && readSqe.NoEntry? ==>
                kernel.refusals > old(kernel.refusals)
    {
      readSqe := Z.NoEntry;
      if ioFlags & READING == 0 && status == Z.Active {
        var ok := kernel.GetSqe();
        if ok {
          readSqe := if readBuf.Room() == 0 then Z.BufferFull else Z.Space;
          OnReadReady();
        }
      }
    }

    method ArmBoth() returns (ghost sqe: Option<nat>, ghost readSqe: Z.ReadSqe)
      requires Valid() && EngineInv()
      modifies this`open, this`ioFlags, kernel
      ensures Valid() && kernel.toCome == old(kernel.toCome)
      ensures View() == Z.TryArmRecv(Z.TryArmSend(old(View()), sqe), readSqe)
      ensures Roomy() ==> kernel.nops == old(kernel.nops)
      ensures kernel.refusals >= old(kernel.refusals)
      ensures Roomy() && P.ArmRefused(old(View()), sqe, readSqe) ==> kernel.refusals > old(kernel.refusals)
    {
      if status == Z.Active && Roomy() {
        RoomLeft();
      }
      sqe := TryArmSend();
      readSqe := TryArmRecv();
    }

    /** A receive that brought nothing: the connection is ending. */
    method ProcessEnd() returns (alive: bool)
      requires Valid()
      modifies this`open, this`keepAlive, this`status
      ensures Valid()
      ensures (if alive then View() else Z.SetStatus(View(), Z.Closing)) ==
              if writeBuf.contents == [] then Z.SetStatus(Z.CloseSocket(old(View())), Z.Closing)
              else Z.SetStatus(old(View()).(keepAlive := false), Z.Closing)
    {
      if writeBuf.contents == [] {
        Close();
        return false;
      }
      keepAlive := false;
      SetStatus(Z.Closing);
      return true;
    }

    /** A receive that brought something, with IO_READING already cleared. */
    method ProcessData(bytes: seq<Byte>) returns (ghost sqe: Option<nat>, ghost readSqe: Z.ReadSqe)
      requires Valid() && EngineInv() && status == Z.Active && |bytes| <= readBuf.Room()
      modifies this, kernel, ws, readBuf, writeBuf
      ensures Valid() && EngineInv() && (old(overflowed) ==> overflowed && kept == old(kept))
      ensures received == old(received) + bytes && kernel.toCome == old(kernel.toCome)
      ensures View() == Z.TryArmRecv(Z.TryArmSend(Z.Absorbed(old(View()), old(EngineApp(bytes))), sqe), readSqe)
      ensures Roomy() ==> kernel.nops == old(kernel.nops)
      ensures kernel.refusals >= old(kernel.refusals)
      ensures Roomy() && P.ArmRefused(Z.Absorbed(old(View()), old(EngineApp(bytes))), sqe, readSqe) ==>
                kernel.refusals > old(kernel.refusals)
    {
      Absorb(bytes);
      sqe, readSqe := ArmBoth();
    }

    /** False asks the worker to set the status to `Closing`. */
    method ProcessRead(res: int, bytes: seq<Byte>)
      returns (alive: bool, ghost app: Z.App, ghost sqe: Option<nat>, ghost readSqe: Z.ReadSqe)
      requires Valid() && EngineInv() && status == Z.Active && |bytes| <= readBuf.Room()
      requires if res > 0 then res == |bytes| else bytes == []
      modifies this, kernel, ws, readBuf, writeBuf
      ensures Valid() && EngineInv() && (old(overflowed) ==> overflowed && kept == old(kept))
      ensures received == old(received) + bytes && kernel.toCome == old(kernel.toCome)
      ensures app == old(EngineApp(bytes))
      ensures (if alive then View() else Z.SetStatus(View(), Z.Closing)) ==
              Z.ProcessRead(old(View()), res, app, sqe, readSqe)
      ensures Roomy() ==> kernel.nops == old(kernel.nops)
      ensures kernel.refusals >= old(kernel.refusals)
      ensures var w := Z.Absorbed(Z.SetFlag(old(View()), Z.IO_READING, false), app);
              res > 0 && Roomy() && P.ArmRefused(w, sqe, readSqe) ==> kernel.refusals > old(kernel.refusals)
    {
      app, sqe, readSqe := EngineApp(bytes), None, Z.NoEntry;
      alive := true;
      UpdateIoState(READING, false);
      assert EngineApp(bytes) == app;
      if res <= 0 {
        assert received + bytes == received;
        alive := ProcessEnd();
      } else {
        sqe, readSqe := ProcessData(bytes);
      }
    }

    method Unpin()
      requires Valid()
      modifies this`ioFlags, this`lockedZcBytes, writeBuf
      ensures Valid() && View() == Z.Unpinned(old(View()))
    {
      UpdateIoState(WAITING_ZC, false);
      DropLocked();
    }

    method DropLocked()
      requires Valid()
      modifies this`lockedZcBytes, writeBuf
      ensures Valid()
      ensures View() == old(View()).(buffered := Drop(old(writeBuf.contents), old(lockedZcBytes)), locked := 0)
    {
      writeBuf.AdvanceReadPos(lockedZcBytes);
      lockedZcBytes := 0;
    }

    /** The second completion of a send. False asks the worker to set the status to `Closing`. */
    method ProcessNotification() returns (alive: bool, ghost sqe: Option<nat>)
      requires Valid()
      modifies this`open, this`ioFlags, this`lockedZcBytes, kernel, writeBuf
      ensures Valid() && kernel.toCome == old(kernel.toCome)
      ensures (if alive then View() else Z.SetStatus(View(), Z.Closing)) == Z.ProcessNotice(old(View()), sqe)
      ensures kernel.nops == old(kernel.nops) && kernel.refusals >= old(kernel.refusals)
      ensures |old(writeBuf.contents)| > old(lockedZcBytes) && sqe.None? ==> kernel.refusals > old(kernel.refusals)
    {
      sqe := None;
      Unpin();
      if writeBuf.contents != [] {
        var ok := kernel.GetSqe();
        if ok {
          ghost var region := OnWriteReady();
          sqe := Some(region);
        }
        return true, sqe;
      }
      if !keepAlive {
        Close();
        return false, sqe;
      }
      return true, sqe;
    }

    /** The first completion of a send. False asks the worker to set the status to `Closing`. */
    method ProcessSendResult(bytesSent: int) returns (alive: bool)
      requires Valid()
      modifies this`open, this`ioFlags, this`lockedZcBytes
      ensures Valid()
      ensures (if alive then View() else Z.SetStatus(View(), Z.Closing)) == Z.ProcessResult(old(View()), bytesSent)
    {
      UpdateIoState(WRITING, false);
      if bytesSent < 0 {
        Close();
        return false;
      }
      lockedZcBytes := bytesSent;
      return true;
    }

    /** A send completes twice. */
    method ProcessWrite(bytesSent: int, isNotif: bool) returns (alive: bool, ghost sqe: Option<nat>)
      requires Valid()
      modifies this`open, this`ioFlags, this`lockedZcBytes, kernel, writeBuf
      ensures Valid() && kernel.toCome == old(kernel.toCome)
      ensures (if alive then View() else Z.SetStatus(View(), Z.Closing)) ==
              if isNotif then Z.ProcessNotice(old(View()), sqe) else Z.ProcessResult(old(View()), bytesSent)
      ensures kernel.nops == old(kernel.nops) && kernel.refusals >= old(kernel.refusals)
      ensures isNotif && |old(writeBuf.contents)| > old(lockedZcBytes) && sqe.None? ==>
                kernel.refusals > old(kernel.refusals)
    {
      sqe := None;
      if isNotif {
        alive, sqe := ProcessNotification();
      } else {
        alive := ProcessSendResult(bytesSent);
      }
    }

    // ---- the worker loop's part ----

    method ReleaseSession()
      requires status == Z.Closing
      modifies this`status, this`linked, this`shut
      ensures View() == Z.Release(old(View())) && shut == (old(shut) || open)
    {
      status := Z.Closed;
      if open {
        shut := true;
      }
      linked := false;
    }

    /** Runs the destructor, which closes the socket, and gives the session back to the pool. */
    method TryFreeSession()
      requires status == Z.Closed
      modifies this`open, this`frees
      ensures View() == Z.CloseSocket(old(View())).(frees := old(frees) + 1)
    {
      open := false;
      frees := frees + 1;
    }

    /** What the worker does with a closing session nothing is in flight for. */
    method ReleaseAndFree()
      requires Valid() && EngineInv() && status == Z.Closing
      modifies this`open, this`status, this`linked, this`shut, this`frees
      ensures Valid() && EngineInv() && View() == Z.Free(old(View()))
    {
      ReleaseSession();
      TryFreeSession();
    }

    method HasPendingIo() returns (pending: bool)
      requires Valid()
      ensures pending <==> View().flags.Pending()
    {
      PendingBits(ioFlags);
      return ioFlags != 0;
    }

    /** The event a completion is, once the ghost choices of its handler are known. */
    static ghost function EventOf(cqe: Cqe, app: Z.App, sqe: Option<nat>, readSqe: Z.ReadSqe): Z.Event {
      if cqe.optype == Read then Z.RecvDone(cqe.res, app, sqe, readSqe)
      else if cqe.isNotif then Z.Noticed(cqe.which, sqe)
      else Z.SendDone(cqe.which, cqe.res, cqe.hasMore)
    }

    /** A receive's data fits and is what its result says. */
    ghost predicate Deliverable(cqe: Cqe)
      requires Valid()
      reads this, readBuf, writeBuf
    {
      match cqe.optype
      case Read => |cqe.bytes| <= readBuf.Room() && if cqe.res > 0 then cqe.res == |cqe.bytes| else cqe.bytes == []
      case Write =>
        cqe.bytes == [] && (cqe.isNotif ==> !cqe.hasMore)
    }

    /** A receive completion of an active session. */
    method DispatchRead(cqe: Cqe) returns (ghost e: Z.Event)
      requires Valid() && EngineInv() && Deliverable(cqe) && cqe.optype == Read && status == Z.Active
      modifies this, kernel, ws, readBuf, writeBuf
      ensures Valid() && EngineInv() && (old(overflowed) ==> overflowed && kept == old(kept))
      ensures kernel.toCome == old(kernel.toCome)
      ensures received == old(received) + cqe.bytes
      ensures e.RecvDone? && e == EventOf(cqe, old(EngineApp(cqe.bytes)), e.sqe, e.readSqe)
      ensures View() == Z.ProcessRead(old(View()), e.res, e.app, e.sqe, e.readSqe)
      ensures Roomy() ==> kernel.nops == old(kernel.nops)
      ensures kernel.refusals >= old(kernel.refusals)
      ensures Roomy() && P.Starved(old(View()), e) ==> kernel.refusals > old(kernel.refusals)
    {
      var alive, app, sqe, readSqe := ProcessRead(cqe.res, cqe.bytes);
      if !alive {
        SetStatus(Z.Closing);
      }
      e := Z.RecvDone(cqe.res, app, sqe, readSqe);
    }

    /** A send completion of an active session; `hasMore` announces the notification. */
    method DispatchWrite(cqe: Cqe) returns (ghost sqe: Option<nat>)
      requires Valid() && EngineInv() && Deliverable(cqe) && cqe.optype == Write && status == Z.Active
      modifies this`open, this`ioFlags, this`lockedZcBytes, this`status, kernel, writeBuf
      ensures Valid() && EngineInv() && kernel.toCome == old(kernel.toCome) && kernel.nops == old(kernel.nops)
      ensures kernel.refusals >= old(kernel.refusals)
      ensures cqe.isNotif && |old(writeBuf.contents)| > old(lockedZcBytes) && sqe.None? ==>
                kernel.refusals > old(kernel.refusals)
      ensures View() ==
              if cqe.isNotif then Z.ProcessNotice(old(View()), sqe)
              else
                Z.ProcessResult(
                  if cqe.hasMore then Z.SetFlag(old(View()), Z.IO_WAITING_ZC, true) else old(View()), cqe.res)
    {
      if cqe.hasMore {
        UpdateIoState(WAITING_ZC, true);
      }
      var alive;
      alive, sqe := ProcessWrite(cqe.res, cqe.isNotif);
      if !alive {
        SetStatus(Z.Closing);
      }
    }

    /** A completion of an active session. */
    method DispatchActive(cqe: Cqe) returns (ghost e: Z.Event)
      requires Valid() && EngineInv() && Deliverable(cqe) && status == Z.Active
      modifies this, kernel, ws, readBuf, writeBuf
      ensures Valid() && EngineInv() && (old(overflowed) ==> overflowed && kept == old(kept))
      ensures kernel.toCome == old(kernel.toCome)
      ensures received == old(received) + cqe.bytes
      ensures exists app, sqe, readSqe :: e == EventOf(cqe, app, sqe, readSqe)
      ensures e.RecvDone? ==> e.app == old(EngineApp(cqe.bytes))
      ensures View() == Z.Dispatched(old(View()), e)
      ensures Roomy() ==> kernel.nops == old(kernel.nops)
      ensures kernel.refusals >= old(kernel.refusals)
      ensures Roomy() && P.Starved(old(View()), e) ==> kernel.refusals > old(kernel.refusals)
    {
      if cqe.optype == Read {
        e := DispatchRead(cqe);
      } else {
        assert received + cqe.bytes == received;
        ghost var sqe := DispatchWrite(cqe);
        e := EventOf(cqe, Z.App([], [], false, false), sqe, Z.NoEntry);
      }
    }

    /** One completion of this session, dispatched. */
    method HandleCompletion(cqe: Cqe) returns (ghost e: Z.Event)
      requires Valid() && EngineInv() && Deliverable(cqe)
      modifies this, kernel, ws, readBuf, writeBuf
      ensures Valid() && EngineInv() && (old(overflowed) ==> overflowed && kept == old(kept))
      ensures kernel.toCome == old(kernel.toCome)
      ensures received == if old(status) == Z.Active then old(received) + cqe.bytes else old(received)
      ensures exists app, sqe, readSqe :: e == EventOf(cqe, app, sqe, readSqe)
      ensures e.RecvDone? ==> e.app == old(EngineApp(cqe.bytes))
      ensures View() == Z.Dispatched(old(View()), e)
      ensures Roomy() ==> kernel.nops == old(kernel.nops)
      ensures kernel.refusals >= old(kernel.refusals)
      ensures Roomy() && P.Starved(old(View()), e) ==> kernel.refusals > old(kernel.refusals)
    {
      e := EventOf(cqe, EngineApp(cqe.bytes), None, Z.NoEntry);
      var pending := HasPendingIo();
      if status == Z.Closing && !pending {
        ReleaseAndFree();
      } else if status == Z.Active {
        e := DispatchActive(cqe);
      }
    }

    /** The timer wheel says the session has been idle too long. */
    method HandleExpiry()
      requires Valid() && EngineInv()
      modifies this`open, this`status, this`linked, this`shut, this`frees
      ensures Valid() && EngineInv()
      ensures View() == Z.Dispatched(old(View()), Z.Expired)
    {
      SetStatus(Z.Closing);
      Close();
      var pending := HasPendingIo();
      if !pending {
        ReleaseAndFree();
      }
    }

    /** Waits for a completion: the kernel lets go of what it reports on. */
    method Reap(wake: Wake) returns (cqe: Option<Cqe>)
      requires Valid()
      modifies kernel
      ensures kernel.nops == old(kernel.nops) && kernel.refusals == old(kernel.refusals)
      ensures cqe.Some? <==> !wake.Expiry? && Ready(old(View()), wake)
      ensures cqe.None? ==> View() == old(View()) && kernel.toCome == old(kernel.toCome)
      ensures cqe.Some? ==>
                Deliverable(cqe.value) && old(kernel.toCome) == cqe.value.bytes + kernel.toCome &&
                forall app, sqe, readSqe ::
                  Answers(wake, EventOf(cqe.value, app, sqe, readSqe)) &&
                  Z.Possible(old(View()), EventOf(cqe.value, app, sqe, readSqe)) &&
                  View() == Z.Reported(old(View()), EventOf(cqe.value, app, sqe, readSqe))
    {
      cqe := kernel.Complete(readBuf.Room(), wake);
      if cqe.Some? {
        assert cqe.value.bytes == [] ==> cqe.value.bytes + kernel.toCome == kernel.toCome;
      }
    }

    /** Waits for a completion and dispatches it. */
    method TakeCompletion(wake: Wake) returns (ghost e: Option<Z.Event>, ghost bytes: seq<Byte>)
      requires Valid() && EngineInv()
      modifies this, kernel, ws, readBuf, writeBuf
      ensures Valid() && EngineInv() && (old(overflowed) ==> overflowed && kept == old(kept))
      ensures e.Some? <==> !wake.Expiry? && Ready(old(View()), wake)
      ensures e.None? ==> View() == old(View())
      ensures e.Some? ==>
                Answers(wake, e.value) && Z.Possible(old(View()), e.value) && View() == Z.Next(old(View()), e.value)
      ensures kernel.refusals >= old(kernel.refusals)
      ensures e.Some? && Roomy() && P.Starved(Z.Reported(old(View()), e.value), e.value) ==>
                kernel.refusals > old(kernel.refusals)
      ensures e.Some? && e.value.RecvDone? ==> e.value.app == old(EngineApp(bytes))
      ensures received == if old(status) == Z.Active then old(received) + bytes else old(received)
      ensures old(status) == Z.Active ==> received + kernel.toCome == old(received + kernel.toCome)
      ensures Roomy() ==> kernel.nops == old(kernel.nops)
    {
      bytes := [];
      var cqe := Reap(wake);
      if cqe.None? {
        assert received + [] == received;
        return None, bytes;
      }
      bytes := cqe.value.bytes;
      Assoc(received, bytes, kernel.toCome);
      ghost var done := HandleCompletion(cqe.value);
      e := Some(done);
    }

    /**
     * One turn of the worker loop for this session is one step of the machine, the one
     * it wakes up for, or nothing happens; a receive brings `bytes` to the engine.
     */
    method Turn(wake: Wake) returns (ghost e: Option<Z.Event>, ghost bytes: seq<Byte>)
      requires Valid() && EngineInv()
      modifies this, kernel, ws, readBuf, writeBuf
      ensures Valid() && EngineInv() && (old(overflowed) ==> overflowed && kept == old(kept))
      ensures e.Some? <==> Ready(old(View()), wake)
      ensures e.None? ==> View() == old(View())
      ensures e.Some? ==>
                Answers(wake, e.value) && Z.Possible(old(View()), e.value) && View() == Z.Next(old(View()), e.value)
      ensures kernel.refusals >= old(kernel.refusals)
      ensures e.Some? && Roomy() && P.Starved(Z.Reported(old(View()), e.value), e.value) ==>
                kernel.refusals > old(kernel.refusals)
      ensures e.Some? && e.value.RecvDone? ==> e.value.app == old(EngineApp(bytes))
      ensures received == if old(status) == Z.Active then old(received) + bytes else old(received)
      ensures old(status) == Z.Active ==> received + kernel.toCome == old(received + kernel.toCome)
      ensures Roomy() ==> kernel.nops == old(kernel.nops)
    {
      bytes := [];
      if wake.Expiry? && linked {
        assert received + [] == received;
        HandleExpiry();
        e := Some(Z.Expired);
      } else {
        e, bytes := TakeCompletion(wake);
      }
    }

    /**
     * What becomes of this session when a receive brings `bytes` and the engine then
     * sends its Close.
     */
    lemma CloseFate(bytes: seq<Byte>, e: Z.Event)
      requires Valid() && EngineInv() && Z.Inv(View()) && status == Z.Active && writeBuf.Room() > 0
      requires Z.Possible(View(), e) && e.RecvDone? && e.res > 0 && e.app == EngineApp(bytes)
      requires Drain(ws.route, maxBody, ws.View(), readBuf.contents + bytes).state.closeSent
      ensures var w := View();
              A.Releasable(Z.Next(w, e)) <==> !w.flags.writing && !w.flags.waiting && e.sqe.None?
      ensures var w := View();
              !Z.Overlap(w, e) ==>
                (A.DeliversAll(Z.Next(w, e)) <==>
                 w.sends == [] && e.sqe.Some? && |w.buffered + e.app.output| <= e.sqe.value + 1)
    {
      ReplyDiscipline(ws.route, maxBody, FRESH, received);
      var data := readBuf.contents + bytes;
      CloseHasBytes(ws.route, maxBody, ws.View(), data);
      WebSocketCloseLeaks(ws.route, maxBody, ws.View(), data, writeBuf.Room(), View(), e);
    }
  }

  // ---- every ordinary close ----

  /**
   * A WebSocket connection that ends with a Close of the engine, be it the answer to
   * the client's or a protocol error: unless no send is outstanding and there is no
   * queue entry to start one, the session is never released. And that Close can reach
   * the peer exactly if no send is outstanding, there is an entry, and the whole write
   * buffer lies in the region it offers.
   */
  lemma WebSocketCloseLeaks(h: Handler, maxBody: nat, st: State, data: seq<Byte>, room: nat, w: Z.World, e: Z.Event)
    requires !st.closeSent && Drain(h, maxBody, st, data).state.closeSent && room > 0
    requires Z.Inv(w) && Z.Possible(w, e) && w.status == Z.Active && e.RecvDone? && e.res > 0
    requires var o := Drain(h, maxBody, st, data);
             e.app == Z.App(o.rest, Clip(Output(o.sent), room), !o.open, false)
    ensures A.Releasable(Z.Next(w, e)) <==> !w.flags.writing && !w.flags.waiting && e.sqe.None?
    ensures !Z.Overlap(w, e) ==>
              (A.DeliversAll(Z.Next(w, e)) <==>
               w.sends == [] && e.sqe.Some? && |w.buffered + e.app.output| <= e.sqe.value + 1)
  {
    CloseHasBytes(h, maxBody, st, data);
    A.EngineCloseFate(w, e);
    if !Z.Overlap(w, e) {
      A.EngineCloseDelivery(w, e);
    }
  }

  /** A session just accepted whose first receive is a masked empty Close: it is answered, and never released. */
  lemma EmptyCloseLeaks(h: Handler, maxBody: nat, key: seq<Byte>, room: nat, region: nat, readSqe: Z.ReadSqe)
    requires |key| == 4 && room > 0
    ensures var f := Frame(true, OP_CLOSE, []);
            var data := OnWire(Plain(f, key), f);
            var o := Drain(h, maxBody, FRESH, data);
            var app := Z.App(o.rest, Clip(Output(o.sent), room), !o.open, false);
            var e := Z.RecvDone(|data|, app, Some(region), readSqe);
            Z.Possible(Z.ACCEPTED, e) && !A.Releasable(Z.Next(Z.ACCEPTED, e)) &&
            (A.DeliversAll(Z.Next(Z.ACCEPTED, e)) <==> |e.app.output| <= region + 1)
  {
    var f := Frame(true, OP_CLOSE, []);
    var data := OnWire(Plain(f, key), f);
    var o := Drain(h, maxBody, FRESH, data);
    var e := Z.RecvDone(|data|, Z.App(o.rest, Clip(Output(o.sent), room), !o.open, false), Some(region), readSqe);
    assert data + [] == data;
    DrainOnWire(h, maxBody, FRESH, ClientFrame(f, Plain(f, key)), []);
    Z.BothStart();
    WebSocketCloseLeaks(h, maxBody, FRESH, data, room, Z.ACCEPTED, e);
    assert Z.ACCEPTED.buffered + e.app.output == e.app.output;
  }

  // ---- the worker loop ----

  /** `s` is at the end of a run of the machine, and `all` is what the peer writes in total. */
  ghost predicate OnTrack(s: Session, all: seq<Byte>, ws: seq<Z.World>, es: seq<Z.Event>)
    reads s, s.kernel, s.ws, s.readBuf, s.writeBuf
  {
    s.Valid() && s.EngineInv() &&
    s.received <= all && (s.status == Z.Active ==> s.received + s.kernel.toCome == all) &&
    Z.IsRun(ws, es) && ws[|es|] == s.View()
  }

  /** From state `i` of a run, waking up leads to state `j`: one step on if there was anything to it. */
  predicate Woke(ws: seq<Z.World>, es: seq<Z.Event>, wake: Wake, i: nat, j: nat) {
    i < |ws| && i <= |es| &&
    if Ready(ws[i], wake) then j == i + 1 && i < |es| && Answers(wake, es[i]) else j == i
  }

  predicate WokeAt(ws: seq<Z.World>, es: seq<Z.Event>, wakes: seq<Wake>, at: seq<nat>, k: nat) {
    k < |wakes| && k + 1 < |at| && Woke(ws, es, wakes[k], at[k], at[k + 1])
  }

  /** The first `n` wakes have led through the whole run; `at` says how far each did. */
  predicate Followed(ws: seq<Z.World>, es: seq<Z.Event>, wakes: seq<Wake>, at: seq<nat>, n: nat) {
    n <= |wakes| && |at| == n + 1 && at[0] == 0 && at[n] == |es| &&
    forall k :: 0 <= k < n ==> WokeAt(ws, es, wakes, at, k)
  }

  lemma FollowedNext(
    ws: seq<Z.World>, es: seq<Z.Event>, wakes: seq<Wake>, at: seq<nat>, n: nat, ws': seq<Z.World>, es': seq<Z.Event>)
    requires Followed(ws, es, wakes, at, n) && n < |wakes| && ws <= ws' && es <= es'
    requires Woke(ws', es', wakes[n], |es|, |es'|)
    ensures Followed(ws', es', wakes, at + [|es'|], n + 1)
  {
    var at' := at + [|es'|];
    forall k | 0 <= k < n + 1
      ensures WokeAt(ws', es', wakes, at', k)
    {
      if k < n {
        assert WokeAt(ws, es, wakes, at, k);
        assert at'[k] == at[k] && at'[k + 1] == at[k + 1] && ws'[at[k]] == ws[at[k]];
      }
    }
  }

  method TrackedTurn(s: Session, wake: Wake, ghost all: seq<Byte>, ghost ws: seq<Z.World>, ghost es: seq<Z.Event>)
    returns (ghost ws': seq<Z.World>, ghost es': seq<Z.Event>)
    requires OnTrack(s, all, ws, es) && Z.RecvInv(ws[0])
    modifies s, s.kernel, s.ws, s.readBuf, s.writeBuf
    ensures OnTrack(s, all, ws', es') && ws <= ws' && es <= es'
    ensures Woke(ws', es', wake, |es|, |es'|)
    ensures s.Roomy() ==> s.kernel.nops == old(s.kernel.nops)
    ensures s.kernel.refusals >= old(s.kernel.refusals)
    ensures s.Roomy() && s.kernel.refusals == old(s.kernel.refusals) && P.Attentive(old(s.View())) ==>
              P.Attentive(s.View())
  {
    ghost var w, active := s.View(), s.status == Z.Active;
    Z.ReceiveSafety(ws, es, |es|);
    ws', es' := ws, es;
    ghost var refusals := s.kernel.refusals;
    ghost var e, bytes := s.Turn(wake);
    if e.Some? {
      ws', es' := Z.Extend(ws, es, e.value);
      Z.ActiveBefore(w, e.value);
      assert s.status == Z.Active ==> active;
      if s.Roomy() && s.kernel.refusals == refusals && P.Attentive(w) {
        P.AttentiveKept(w, e.value);
      }
    }
  }

  /**
   * The worker loop on one session is a run of the machine. If no step of it overlaps,
   * what the kernel has accepted, up to the first byte that overflowed the write buffer
   * if one did, is a prefix of the one-shot answer to all the peer will ever write. And
   * a read buffer with room for any beginning of a frame queues no empty operation; if,
   * besides, the submission queue was never full, an active session is waiting for more
   * and sending what is buffered.
   */
  method Serve(s: Session, wakes: seq<Wake>)
    returns (ghost ws: seq<Z.World>, ghost es: seq<Z.Event>, ghost at: seq<nat>)
    requires s.Valid() && s.EngineInv() && Z.Inv(s.View()) && s.status == Z.Active
    modifies s, s.kernel, s.ws, s.readBuf, s.writeBuf
    ensures OnTrack(s, old(s.received + s.kernel.toCome), ws, es) && ws[0] == old(s.View())
    ensures Followed(ws, es, wakes, at, |wakes|)
    ensures var whole := Drain(s.ws.route, s.maxBody, FRESH, old(s.received + s.kernel.toCome));
            Z.NoOverlap(ws, es) ==>
              (if s.overflowed then Clip(s.kernel.accepted, s.kept) else s.kernel.accepted) <=
              s.prelude + Output(whole.sent)
    ensures s.Roomy() ==> s.kernel.nops == old(s.kernel.nops)
    ensures s.Roomy() && s.kernel.refusals == old(s.kernel.refusals) && P.Attentive(old(s.View())) ==>
              P.Attentive(s.View())
  {
    ghost var all := s.received + s.kernel.toCome;
    ws, es, at := [s.View()], [], [0];
    for i := 0 to |wakes|
      invariant OnTrack(s, all, ws, es) && ws[0] == old(s.View())
      invariant Followed(ws, es, wakes, at, i)
      invariant s.Roomy() ==> s.kernel.nops == old(s.kernel.nops)
      invariant s.kernel.refusals >= old(s.kernel.refusals)
      invariant s.Roomy() && s.kernel.refusals == old(s.kernel.refusals) && P.Attentive(old(s.View())) ==>
                  P.Attentive(s.View())
    {
      ghost var ws', es' := TrackedTurn(s, wakes[i], all, ws, es);
      FollowedNext(ws, es, wakes, at, i, ws', es');
      ws, es, at := ws', es', at + [|es'|];
    }
    if Z.NoOverlap(ws, es) {
      Z.RunInv(ws, es, |es|);
      AcceptedSoFar(s, all);
    }
  }

  lemma AcceptedSoFar(s: Session, all: seq<Byte>)
    requires s.Valid() && s.EngineInv() && Z.Inv(s.View()) && s.received <= all
    ensures (if s.overflowed then Clip(s.kernel.accepted, s.kept) else s.kernel.accepted) <=
            s.prelude + Output(Drain(s.ws.route, s.maxBody, FRESH, all).sent)
  {
    Z.InvImpliesConserved(s.View());
    AnswersGrow(s.ws.route, s.maxBody, FRESH, s.received, all[|s.received|..]);
    assert s.received + all[|s.received|..] == all;
    var part, whole := s.OneShot().sent, Drain(s.ws.route, s.maxBody, FRESH, all).sent;
    assert s.prelude + Output(part) <= s.prelude + Output(whole);
    if s.overflowed {
      assert Clip(s.kernel.accepted, s.kept) <= s.appended[..s.kept] <= s.prelude + Output(part);
    }
  }
}
