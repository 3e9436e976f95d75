/**
 * The io_uring backend as a state machine over one session and what the kernel
 * holds for it: a zero-copy send completes twice (result, then notification), and
 * its bytes stay pinned in the write buffer until the second completion.
 */
module ZeroCopy {
  import opened Bytes

  // ---- io flags ----

  /** The operations a session believes are in flight. */
  datatype Flag = IO_READING | IO_WRITING | IO_WAITING_ZC

  datatype Flags = Flags(reading: bool, writing: bool, waiting: bool) {
    function With(f: Flag, active: bool): Flags {
      match f
      case IO_READING => this.(reading := active)
      case IO_WRITING => this.(writing := active)
      case IO_WAITING_ZC => this.(waiting := active)
    }

    predicate Pending() {
      reading || writing || waiting
    }
  }

  const IO_NONE := Flags(false, false, false)

  // ---- states ----

  datatype Status = Active | Closing | Closed

  function Rank(s: Status): nat {
    match s
    case Active => 0
    case Closing => 1
    case Closed => 2
  }

  /** A zero-copy send the kernel holds, with the bytes it was armed with. */
  datatype SendOp = Submitted(pinned: seq<Byte>) | AwaitsNotice(pinned: seq<Byte>, taken: nat)

  /**
   * The fields of a session the event loop works on, and whether the timer wheel
   * holds it; then the kernel's side: receives in the ring, sends not finished, the
   * byte stream accepted; then everything ever appended to the write buffer, and
   * how often the session was given back to the pool.
   */
  datatype World = World(
    open: bool, keepAlive: bool, status: Status, linked: bool, flags: Flags, locked: nat,
    unread: seq<Byte>, buffered: seq<Byte>,
    recvs: nat, sends: seq<SendOp>, accepted: seq<Byte>,
    appended: seq<Byte>, frees: nat)

  /** What the protocol layer does with a positive-length receive. */
  datatype App = App(unread: seq<Byte>, output: seq<Byte>, closing: bool, keepAlive: bool)

  /** Re-arming the receive: no queue entry, a full read buffer, or space to receive into. */
  datatype ReadSqe = NoEntry | BufferFull | Space

  /**
   * What can happen next. `sqe` is `None` when the submission queue is full, else
   * one less than the length of the contiguous region offered for sending.
   */
  datatype Event =
    | RecvDone(res: int, app: App, sqe: Option<nat>, readSqe: ReadSqe)
    | SendDone(which: nat, res: int, more: bool)
    | Noticed(which: nat, sqe: Option<nat>)
    | Expired

  /**
   * What may happen: the kernel reports only on operations it holds, whether or not
   * the session is still there; a send that succeeded says that a notification will
   * follow; and the timer wheel expires only what is linked into it.
   */
  predicate Possible(w: World, e: Event) {
    match e
    case RecvDone(_, _, _, _) => w.recvs > 0
    case SendDone(i, res, more) =>
      i < |w.sends| && w.sends[i].Submitted? && res <= |w.sends[i].pinned| && (res >= 0 ==> more)
    case Noticed(i, _) => i < |w.sends| && w.sends[i].AwaitsNotice?
    case Expired => w.linked
  }

  // ---- steps of the session ----

  function SetFlag(w: World, flag: Flag, active: bool): World {
    w.(flags := w.flags.With(flag, active))
  }

  function ArmRecv(w: World): World {
    SetFlag(w, IO_READING, true).(recvs := w.recvs + 1)
  }

  /** `onWriteReady`: pins a nonempty prefix of the write buffer. */
  function ArmSend(w: World, region: nat): World {
    SetFlag(w, IO_WRITING, true).(sends := w.sends + [Submitted(Clip(w.buffered, region + 1))])
  }

  function CloseSocket(w: World): World {
    w.(open := false)
  }

  function SetStatus(w: World, s: Status): World {
    w.(status := s)
  }

  /** The protocol layer has handled what came in. */
  function Absorbed(w: World, app: App): World {
    w.(unread := app.unread, buffered := w.buffered + app.output, keepAlive := app.keepAlive,
       status := if app.closing then Closing else w.status, appended := w.appended + app.output)
  }

  /** Starts a send if there is something to send and no result is outstanding. */
  function TryArmSend(w: World, sqe: Option<nat>): World {
    if w.buffered != [] && !w.flags.writing && sqe.Some? then ArmSend(w, sqe.value) else w
  }

  function TryArmRecv(w: World, readSqe: ReadSqe): World {
    if w.flags.reading || w.status != Active || readSqe == NoEntry then w
    else if readSqe == BufferFull then CloseSocket(w)
    else ArmRecv(w)
  }

  /** `processRead`; when it returns false the caller sets `Closing`. */
  function ProcessRead(w: World, res: int, app: App, sqe: Option<nat>, readSqe: ReadSqe): World {
    var w1 := SetFlag(w, IO_READING, false);
    if res <= 0 then
      if w.buffered == [] then SetStatus(CloseSocket(w1), Closing)
      else SetStatus(w1.(keepAlive := false), Closing)
    else TryArmRecv(TryArmSend(Absorbed(w1, app), sqe), readSqe)
  }

  /** `processWrite` for a send result. */
  function ProcessResult(w: World, res: int): World {
    var w1 := SetFlag(w, IO_WRITING, false);
    if res < 0 then SetStatus(CloseSocket(w1), Closing)
    else w1.(locked := res)
  }

  /** The network card is done with the accepted bytes: they leave the write buffer. */
  function Unpinned(w: World): World {
    SetFlag(w, IO_WAITING_ZC, false).(buffered := Drop(w.buffered, w.locked), locked := 0)
  }

  /** `processWrite` for a notification. */
  function ProcessNotice(w: World, sqe: Option<nat>): World {
    var w1 := Unpinned(w);
    if w1.buffered != [] then
      if sqe.Some? then ArmSend(w1, sqe.value) else w1
    else if !w1.keepAlive then SetStatus(CloseSocket(w1), Closing)
    else w1
  }

  /** `releaseSession`: the timer wheel lets go of the session. */
  function Release(w: World): World {
    SetStatus(w, Closed).(linked := false)
  }

  /** `releaseSession` then `tryFreeSession`. */
  function Free(w: World): World {
    CloseSocket(Release(w)).(frees := w.frees + 1)
  }

  /** The kernel's half of a completion: it lets go of what it reports on. */
  function Reported(w: World, e: Event): World
    requires Possible(w, e)
  {
    match e
    case RecvDone(_, _, _, _) => w.(recvs := w.recvs - 1)
    case SendDone(i, res, more) =>
      var taken := if res < 0 then 0 else res;
      var p := w.sends[i].pinned;
      w.(sends := if more then w.sends[i := AwaitsNotice(p, taken)] else w.sends[..i] + w.sends[i + 1..],
         accepted := w.accepted + p[..taken])
    case Noticed(i, _) => w.(sends := w.sends[..i] + w.sends[i + 1..])
    case Expired => w
  }

  /** `runWorker`'s half: a completion dispatched, or a timer expiry. */
  function Dispatched(w: World, e: Event): World {
    if e.Expired? then
      var w1 := SetStatus(CloseSocket(w), Closing);
      if !w1.flags.Pending() then Free(w1) else w1
    else if w.status == Closing && !w.flags.Pending() then Free(w)
    else if w.status == Active then
      match e
      case RecvDone(res, app, sqe, readSqe) => ProcessRead(w, res, app, sqe, readSqe)
      case SendDone(_, res, more) => ProcessResult(if more then SetFlag(w, IO_WAITING_ZC, true) else w, res)
      case Noticed(_, sqe) => ProcessNotice(w, sqe)
    else w
  }

  function Next(w: World, e: Event): World
    requires Possible(w, e)
  {
    Dispatched(Reported(w, e), e)
  }

  /** A session just accepted, with its first receive armed. */
  const ACCEPTED := World(true, false, Active, true, IO_NONE.With(IO_READING, true), 0, [], [], 1, [], [], [], 0)

  /** A session accepted while the submission queue was full: dropped at once. */
  const DROPPED := World(false, false, Closed, false, IO_NONE, 0, [], [], 0, [], [], [], 1)

  // ---- the receive half: no restriction ----

  predicate RecvInv(w: World) {
    w.recvs <= 1 && (w.recvs == 1 ==> w.flags.reading) &&
    w.frees <= 1 && (w.frees == 1 <==> w.status == Closed) && (w.linked <==> w.frees == 0) &&
    (w.frees == 1 ==> w.recvs == 0 && !w.open)
  }

  lemma RecvInvAfterRead(w: World, res: int, app: App, sqe: Option<nat>, readSqe: ReadSqe)
    requires RecvInv(w) && w.recvs == 0 && w.status == Active
    ensures RecvInv(ProcessRead(w, res, app, sqe, readSqe))
  {
    var w1 := SetFlag(w, IO_READING, false);
    if res > 0 {
      var w2 := Absorbed(w1, app);
      var w3 := TryArmSend(w2, sqe);
      assert RecvInv(w2) && RecvInv(w3) && w3.recvs == 0;
      assert RecvInv(TryArmRecv(w3, readSqe));
    }
  }

  /** The kernel's half of a step touches nothing of the session. */
  lemma ReportedOnly(w: World, e: Event)
    requires Possible(w, e)
    ensures var w1 := Reported(w, e);
            w1 == w.(recvs := w1.recvs, sends := w1.sends, accepted := w1.accepted) &&
            w1.recvs == w.recvs - if e.RecvDone? then 1 else 0
  {
  }

  /** What a step other than a receive does to the fields the receive half looks at. */
  predicate LeavesRecv(w: World, w1: World) {
    w1.recvs == w.recvs && w1.flags.reading == w.flags.reading && Rank(w.status) <= Rank(w1.status) &&
    if w1.frees == w.frees then w1.status != Closed && w1.linked == w.linked
    else w1.frees == w.frees + 1 && w1.status == Closed && !w1.linked && !w1.open && !w.flags.Pending()
  }

  lemma ResultLeavesRecv(w: World, res: int, more: bool)
    requires w.status == Active
    ensures LeavesRecv(w, ProcessResult(if more then SetFlag(w, IO_WAITING_ZC, true) else w, res))
  {
  }

  lemma NoticeLeavesRecv(w: World, sqe: Option<nat>)
    requires w.status == Active
    ensures LeavesRecv(w, ProcessNotice(w, sqe))
  {
    var w1 := Unpinned(w);
    assert w1.recvs == w.recvs && w1.flags.reading == w.flags.reading && w1.status == w.status && w1.frees == w.frees;
  }

  lemma OtherStepsLeaveRecv(w: World, e: Event)
    requires Possible(w, e) && !e.RecvDone? && w.status != Closed
    ensures LeavesRecv(w, Next(w, e))
  {
    ReportedOnly(w, e);
    var w1 := Reported(w, e);
    if w.status == Active {
      match e
      case SendDone(_, res, more) => ResultLeavesRecv(w1, res, more);
      case Noticed(_, sqe) => NoticeLeavesRecv(w1, sqe);
      case Expired =>
    }
  }

  /** A completion that comes too late finds the session closed and is ignored. */
  lemma LateCompletion(w: World, e: Event)
    requires Possible(w, e) && !e.Expired? && w.status == Closed
    ensures Next(w, e) == Reported(w, e)
  {
  }

  /** No step goes back. */
  lemma StepRank(w: World, e: Event)
    requires RecvInv(w) && Possible(w, e)
    ensures Rank(w.status) <= Rank(Next(w, e).status) && w.frees <= Next(w, e).frees
  {
    if w.status == Closed {
      LateCompletion(w, e);
    } else if !e.RecvDone? {
      OtherStepsLeaveRecv(w, e);
    }
  }

  lemma ActiveBefore(w: World, e: Event)
    requires RecvInv(w) && Possible(w, e)
    ensures Next(w, e).status == Active ==> w.status == Active
  {
    StepRank(w, e);
  }

  lemma RecvInvKept(w: World, e: Event)
    requires RecvInv(w) && Possible(w, e)
    ensures RecvInv(Next(w, e))
  {
    if e.RecvDone? {
      assert Reported(w, e) == w.(recvs := 0);
      if w.status == Active {
        RecvInvAfterRead(w.(recvs := 0), e.res, e.app, e.sqe, e.readSqe);
      }
    } else if w.status == Closed {
      LateCompletion(w, e);
    } else {
      OtherStepsLeaveRecv(w, e);
    }
  }

  // ---- the send half: one send at a time ----

  /** A positive-length receive handled, with a queue entry at hand, between a send's result and its notification. */
  predicate Overlap(w: World, e: Event) {
    e.RecvDone? && e.res > 0 && e.sqe.Some? && w.status == Active && w.flags.waiting
  }

  /** What has left the write buffer. */
  function Retired(w: World): seq<Byte>
    requires |w.buffered| <= |w.appended|
  {
    w.appended[..|w.appended| - |w.buffered|]
  }

  /** The pinned bytes are the front of the write buffer, and the kernel's stream is the front of what was appended. */
  predicate Stream(w: World) {
    |w.buffered| <= |w.appended| && Retired(w) + w.buffered == w.appended &&
    Retired(w) <= w.accepted <= w.appended &&
    (w.sends != [] ==>
       var op := w.sends[0];
       op.pinned != [] && op.pinned <= w.buffered &&
       (op.Submitted? ==> w.accepted == Retired(w)) &&
       (op.AwaitsNotice? ==> op.taken <= |op.pinned| && w.accepted == Retired(w) + op.pinned[..op.taken]))
  }

  /** The flags say exactly how far the one outstanding send has got. */
  predicate Exact(w: World) {
    (w.flags.writing <==> w.sends != [] && w.sends[0].Submitted?) &&
    (w.flags.waiting <==> w.sends != [] && w.sends[0].AwaitsNotice?) &&
    w.locked == (if w.sends != [] && w.sends[0].AwaitsNotice? then w.sends[0].taken else 0)
  }

  /** At most one send, covered by a flag; exactly mirrored while the session is active. */
  predicate Inv(w: World) {
    RecvInv(w) && Stream(w) && |w.sends| <= 1 &&
    (w.sends != [] ==> w.frees == 0 && (w.flags.writing || w.flags.waiting)) &&
    (w.status == Active ==> Live(w))
  }

  /** What holds of an active session, and still does when a step has only just decided to close it. */
  predicate Live(w: World) {
    RecvInv(w) && Stream(w) && |w.sends| <= 1 && w.frees == 0 && Exact(w) &&
    (w.sends == [] ==> w.accepted == Retired(w))
  }

  lemma InvImpliesConserved(w: World)
    requires Inv(w)
    ensures w.accepted <= w.appended
  {
  }

  lemma LiveIsInv(w: World)
    requires Live(w)
    ensures Inv(w)
  {
  }

  // One lemma for each piece of a step.

  lemma ClearReadKeeps(w: World)
    requires Live(w) && w.recvs == 1
    ensures Live(SetFlag(w.(recvs := 0), IO_READING, false))
  {
    var w1 := SetFlag(w.(recvs := 0), IO_READING, false);
    assert Retired(w1) == Retired(w);
  }

  /** Output goes behind what is buffered; nothing already retired, pinned or accepted moves. */
  lemma AbsorbedKeeps(w: World, app: App)
    requires Live(w)
    ensures Live(Absorbed(w, app))
  {
    var w1 := Absorbed(w, app);
    assert Retired(w1) == Retired(w);
    Assoc(Retired(w), w.buffered, app.output);
  }

  lemma ArmSendKeeps(w: World, region: nat)
    requires Live(w) && w.sends == [] && w.buffered != []
    ensures Live(ArmSend(w, region))
  {
    assert Retired(ArmSend(w, region)) == Retired(w);
  }

  lemma ArmRecvKeeps(w: World, readSqe: ReadSqe)
    requires Live(w) && w.recvs == 0
    ensures Live(TryArmRecv(w, readSqe))
  {
    assert Retired(TryArmRecv(w, readSqe)) == Retired(w);
  }

  lemma StatusKeeps(w: World, open: bool, keepAlive: bool)
    requires Live(w)
    ensures Live(w.(status := Closing, open := open, keepAlive := keepAlive))
  {
    assert Retired(w.(status := Closing, open := open, keepAlive := keepAlive)) == Retired(w);
  }

  lemma ReadEndKeeps(w: World)
    requires Live(w)
    ensures Live(SetStatus(CloseSocket(w), Closing)) && Live(SetStatus(w.(keepAlive := false), Closing))
  {
    StatusKeeps(w, false, w.keepAlive);
    StatusKeeps(w, w.open, false);
  }

  lemma TryArmSendKeeps(w: World, sqe: Option<nat>)
    requires Live(w) && (sqe.Some? ==> !w.flags.waiting)
    ensures Live(TryArmSend(w, sqe)) && TryArmSend(w, sqe).recvs == w.recvs
  {
    if w.buffered != [] && !w.flags.writing && sqe.Some? {
      ArmSendKeeps(w, sqe.value);
    }
  }

  lemma ProcessReadKeeps(w: World, res: int, app: App, sqe: Option<nat>, readSqe: ReadSqe)
    requires Live(w) && w.recvs == 1 && (res > 0 && sqe.Some? ==> !w.flags.waiting)
    ensures Live(ProcessRead(w.(recvs := 0), res, app, sqe, readSqe))
  {
    ClearReadKeeps(w);
    var w1 := SetFlag(w.(recvs := 0), IO_READING, false);
    if res <= 0 {
      ReadEndKeeps(w1);
    } else {
      AbsorbedKeeps(w1, app);
      TryArmSendKeeps(Absorbed(w1, app), sqe);
      ArmRecvKeeps(TryArmSend(Absorbed(w1, app), sqe), readSqe);
    }
  }

  /** The send's result: its bytes are accepted and stay pinned. */
  lemma ResultKeeps(w: World, e: Event)
    requires Live(w) && Possible(w, e) && e.SendDone? && w.status == Active
    ensures Live(Next(w, e))
  {
    var op, taken := w.sends[0], if e.res < 0 then 0 else e.res;
    PinnedPrefix(w, op.pinned, taken);
    if e.res < 0 {
      assert op.pinned[..0] == [] && w.accepted + [] == w.accepted;
    }
    assert Retired(Next(w, e)) == Retired(w);
  }

  lemma PinnedPrefix(w: World, pinned: seq<Byte>, taken: nat)
    requires |w.buffered| <= |w.appended| && Retired(w) + w.buffered == w.appended
    requires pinned <= w.buffered && taken <= |pinned|
    ensures Retired(w) <= Retired(w) + pinned[..taken] <= w.appended
  {
    assert pinned[..taken] + w.buffered[taken..] == w.buffered;
    Assoc(Retired(w), pinned[..taken], w.buffered[taken..]);
  }

  lemma NoticeReleases(w: World, gone: seq<Byte>, left: seq<Byte>)
    requires |w.buffered| <= |w.appended| && Retired(w) + w.buffered == w.appended && RecvInv(w) && w.frees == 0
    requires w.sends == [] && w.buffered == gone + left && w.locked == |gone|
    requires w.accepted == Retired(w) + gone && !w.flags.writing
    ensures Live(Unpinned(w)) && Unpinned(w).buffered == left
  {
    var w1 := Unpinned(w);
    assert w1.buffered == left;
    Assoc(Retired(w), gone, left);
    assert Retired(w1) == Retired(w) + gone;
  }

  lemma ProcessNoticeKeeps(w: World, sqe: Option<nat>)
    requires Live(Unpinned(w)) && Unpinned(w).sends == []
    ensures Live(ProcessNotice(w, sqe))
  {
    var w1 := Unpinned(w);
    if w1.buffered != [] {
      if sqe.Some? {
        ArmSendKeeps(w1, sqe.value);
      }
    } else if !w1.keepAlive {
      StatusKeeps(w1, false, w1.keepAlive);
    }
  }

  lemma OnlySendLeaves(w: World, e: Event)
    requires Possible(w, e) && e.Noticed? && |w.sends| <= 1
    ensures Reported(w, e) == w.(sends := [])
  {
  }

  lemma FrontSplits(front: seq<Byte>, all: seq<Byte>, n: nat)
    requires front <= all && n <= |front|
    ensures front[..n] == all[..n] && all[..n] + all[n..] == all
  {
  }

  lemma NoticeArrives(w: World, e: Event)
    requires Live(w) && Possible(w, e) && e.Noticed? && w.status == Active
    ensures Reported(w, e).sends == [] && Live(Unpinned(Reported(w, e)))
  {
    var op := w.sends[0];
    OnlySendLeaves(w, e);
    FrontSplits(op.pinned, w.buffered, op.taken);
    NoticeReleases(Reported(w, e), w.buffered[..op.taken], w.buffered[op.taken..]);
  }

  /** The notification: exactly the accepted bytes leave the write buffer. */
  lemma NoticeKeeps(w: World, e: Event)
    requires Live(w) && Possible(w, e) && e.Noticed? && w.status == Active
    ensures Live(Next(w, e))
  {
    NoticeArrives(w, e);
    ProcessNoticeKeeps(Reported(w, e), e.sqe);
  }

  /** A closing session ignores completions; the kernel finishes what it holds. */
  lemma ClosingKeeps(w: World, e: Event)
    requires Inv(w) && Possible(w, e) && w.status == Closing && !e.Expired?
    ensures Inv(Next(w, e)) && Next(w, e) == Reported(w, e)
  {
    var w1 := Reported(w, e);
    assert Retired(w1) == Retired(w);
    if e.SendDone? {
      PinnedPrefix(w, w.sends[0].pinned, if e.res < 0 then 0 else e.res);
      assert w.sends[0].pinned[..0] == [] && Retired(w) + [] == Retired(w);
    }
  }

  lemma ExpiredKeeps(w: World)
    requires Inv(w) && w.linked
    ensures Inv(Next(w, Expired))
  {
    assert Retired(Next(w, Expired)) == Retired(w);
  }

  lemma ActiveKeeps(w: World, e: Event)
    requires Live(w) && w.status == Active && Possible(w, e) && !e.Expired? && !Overlap(w, e)
    ensures Live(Next(w, e))
  {
    match e
    case RecvDone(res, app, sqe, readSqe) =>
      assert Reported(w, e) == w.(recvs := 0);
      ProcessReadKeeps(w, res, app, sqe, readSqe);
    case SendDone(_, _, _) => ResultKeeps(w, e);
    case Noticed(_, _) => NoticeKeeps(w, e);
  }

  /** Every step but an overlapping one keeps everything. */
  lemma InvKept(w: World, e: Event)
    requires Inv(w) && Possible(w, e) && !Overlap(w, e)
    ensures Inv(Next(w, e))
  {
    if e.Expired? {
      ExpiredKeeps(w);
    } else if w.status == Closing {
      ClosingKeeps(w, e);
    } else {
      ActiveKeeps(w, e);
      LiveIsInv(Next(w, e));
    }
  }

  /** A second send joins an outstanding one in exactly the overlapping steps. */
  lemma OverlapExactly(w: World, e: Event)
    requires Inv(w) && Possible(w, e)
    ensures |Next(w, e).sends| <= 1 <==> !Overlap(w, e)
  {
    if !Overlap(w, e) {
      InvKept(w, e);
    }
  }

  /** Bytes pinned at the front stay there when more is appended behind them. */
  lemma PinnedUnderOutput(w: World, app: App)
    requires w.sends != [] && w.sends[0].pinned <= w.buffered
    ensures var w1 := Absorbed(w, app);
            w1.sends == w.sends && w.sends[0].pinned <= w1.buffered
  {
    assert w.buffered <= w.buffered + app.output;
  }

  lemma ArmingKeepsFirst(w: World, sqe: Option<nat>, readSqe: ReadSqe)
    requires w.sends != []
    ensures var w1 := TryArmRecv(TryArmSend(w, sqe), readSqe);
            w1.sends != [] && w1.sends[0] == w.sends[0] && w1.buffered == w.buffered
  {
  }

  lemma PinnedWhileReading(w: World, res: int, app: App, sqe: Option<nat>, readSqe: ReadSqe)
    requires w.sends != [] && w.sends[0].pinned <= w.buffered
    ensures var w1 := ProcessRead(w, res, app, sqe, readSqe);
            w1.sends != [] && w1.sends[0] == w.sends[0] && w.sends[0].pinned <= w1.buffered
  {
    if res > 0 {
      var w1 := SetFlag(w, IO_READING, false);
      PinnedUnderOutput(w1, app);
      ArmingKeepsFirst(Absorbed(w1, app), sqe, readSqe);
    }
  }

  /** Until its notification, an outstanding send keeps its bytes, at the front of the write buffer. */
  lemma PinnedStay(w: World, e: Event)
    requires Inv(w) && Possible(w, e) && w.sends != [] && !e.Noticed?
    requires e.SendDone? ==> e.more
    ensures var w1 := Next(w, e);
            w1.sends != [] && w1.sends[0].pinned == w.sends[0].pinned && w.sends[0].pinned <= w1.buffered
  {
    if e.RecvDone? {
      PinnedWhileReading(Reported(w, e), e.res, e.app, e.sqe, e.readSqe);
    }
  }

  // ---- whole runs ----

  predicate StepAt(ws: seq<World>, es: seq<Event>, i: nat) {
    i < |es| && i + 1 < |ws| && Possible(ws[i], es[i]) && ws[i + 1] == Next(ws[i], es[i])
  }

  predicate IsRun(ws: seq<World>, es: seq<Event>) {
    |ws| == |es| + 1 && forall i :: 0 <= i < |es| ==> StepAt(ws, es, i)
  }

  lemma RunStep(ws: seq<World>, es: seq<Event>, i: nat)
    requires IsRun(ws, es) && i < |es|
    ensures Possible(ws[i], es[i]) && ws[i + 1] == Next(ws[i], es[i])
  {
    assert StepAt(ws, es, i);
  }

  /** In the first `n` states there is at most one send. */
  predicate SingleSends(ws: seq<World>, n: nat)
    requires n <= |ws|
  {
    forall i :: 0 <= i < n ==> |ws[i].sends| <= 1
  }

  lemma StepCopied(ws: seq<World>, es: seq<Event>, ws': seq<World>, es': seq<Event>, i: nat)
    requires StepAt(ws, es, i) && i < |es'| && i + 1 < |ws'|
    requires ws'[i] == ws[i] && ws'[i + 1] == ws[i + 1] && es'[i] == es[i]
    ensures StepAt(ws', es', i)
  {
  }

  /** A run continued by one step. */
  lemma Extend(ws: seq<World>, es: seq<Event>, e: Event) returns (ws': seq<World>, es': seq<Event>)
    requires IsRun(ws, es) && Possible(ws[|es|], e)
    ensures IsRun(ws', es') && ws' == ws + [Next(ws[|es|], e)] && es' == es + [e]
  {
    var last := Next(ws[|es|], e);
    ws', es' := ws + [last], es + [e];
    assert StepAt(ws', es', |es|);
    forall i | 0 <= i < |es|
      ensures StepAt(ws', es', i)
    {
      StepCopied(ws, es, ws', es', i);
    }
  }

  predicate NoOverlap(ws: seq<World>, es: seq<Event>)
    requires |ws| == |es| + 1
  {
    forall i :: 0 <= i < |es| ==> !Overlap(ws[i], es[i])
  }

  lemma BothStart()
    ensures Inv(ACCEPTED) && Inv(DROPPED)
  {
  }

  /** The receive half, over every run: one receive at most, covered by its flag, and none under a freed session. */
  lemma {:induction false} ReceiveSafety(ws: seq<World>, es: seq<Event>, i: nat)
    requires IsRun(ws, es) && RecvInv(ws[0]) && i < |ws|
    ensures RecvInv(ws[i])
  {
    if i > 0 {
      ReceiveSafety(ws, es, i - 1);
      RunStep(ws, es, i - 1);
      RecvInvKept(ws[i - 1], es[i - 1]);
    }
  }

  lemma {:induction false} RunInv(ws: seq<World>, es: seq<Event>, i: nat)
    requires IsRun(ws, es) && Inv(ws[0]) && i < |ws|
    requires forall k :: 0 <= k < i ==> !Overlap(ws[k], es[k])
    ensures Inv(ws[i])
  {
    if i > 0 {
      RunInv(ws, es, i - 1);
      RunStep(ws, es, i - 1);
      InvKept(ws[i - 1], es[i - 1]);
    }
  }

  /** Over a whole run there is never more than one send exactly when no step overlaps. */
  lemma SingleSendExactly(ws: seq<World>, es: seq<Event>)
    requires IsRun(ws, es) && Inv(ws[0])
    ensures SingleSends(ws, |ws|) <==> NoOverlap(ws, es)
  {
    if NoOverlap(ws, es) {
      forall i | 0 <= i < |ws|
        ensures |ws[i].sends| <= 1
      {
        RunInv(ws, es, i);
      }
    } else {
      var k := FirstOverlap(ws, es, 0);
      RunInv(ws, es, k);
      RunStep(ws, es, k);
      OverlapExactly(ws[k], es[k]);
      assert |ws[k + 1].sends| > 1;
    }
  }

  lemma FirstOverlap(ws: seq<World>, es: seq<Event>, from: nat) returns (k: nat)
    requires |ws| == |es| + 1 && from <= |es| && !NoOverlap(ws, es)
    requires forall i :: 0 <= i < from ==> !Overlap(ws[i], es[i])
    ensures k < |es| && Overlap(ws[k], es[k]) && forall i :: 0 <= i < k ==> !Overlap(ws[i], es[i])
    decreases |es| - from
  {
    if from < |es| && !Overlap(ws[from], es[from]) {
      k := FirstOverlap(ws, es, from + 1);
    } else {
      k := from;
    }
  }

  /** Zero-copy stream conservation. */
  lemma Conservation(ws: seq<World>, es: seq<Event>, i: nat)
    requires IsRun(ws, es) && Inv(ws[0]) && NoOverlap(ws, es) && i < |ws|
    ensures ws[i].accepted <= ws[i].appended
    ensures ws[i].sends == [] && ws[i].status == Active && ws[i].buffered == [] ==> ws[i].accepted == ws[i].appended
    ensures forall op :: op in ws[i].sends ==> op.pinned <= ws[i].buffered
  {
    RunInv(ws, es, i);
    if ws[i].buffered == [] {
      assert Retired(ws[i]) == ws[i].appended;
    }
  }

  /**
   * Release safety: one send at most, flags that cover whatever the kernel holds,
   * at most one release, and none while anything is outstanding.
   */
  lemma ReleaseSafety(ws: seq<World>, es: seq<Event>, i: nat)
    requires IsRun(ws, es) && Inv(ws[0]) && NoOverlap(ws, es) && i < |ws|
    ensures var w := ws[i];
            |w.sends| <= 1 && w.recvs <= 1 && w.frees <= 1 &&
            (w.recvs > 0 ==> w.flags.reading) && (w.sends != [] ==> w.flags.writing || w.flags.waiting) &&
            (w.frees == 1 ==> w.recvs == 0 && w.sends == [] && w.status == Closed && !w.open)
  {
    RunInv(ws, es, i);
  }

  /** Status and number of releases have not gone back. */
  predicate NotBack(w: World, later: World) {
    Rank(w.status) <= Rank(later.status) && w.frees <= later.frees
  }

  lemma RunStepRank(ws: seq<World>, es: seq<Event>, j: nat)
    requires IsRun(ws, es) && RecvInv(ws[0]) && 0 < j < |ws|
    ensures NotBack(ws[j - 1], ws[j])
  {
    ReceiveSafety(ws, es, j - 1);
    RunStep(ws, es, j - 1);
    StepRank(ws[j - 1], es[j - 1]);
  }

  /** Status only moves from Active to Closing to Closed, over every run. */
  lemma {:induction false} StatusMonotone(ws: seq<World>, es: seq<Event>, i: nat, j: nat)
    requires IsRun(ws, es) && RecvInv(ws[0]) && i <= j < |ws|
    ensures NotBack(ws[i], ws[j])
    decreases j
  {
    if i < j {
      StatusMonotone(ws, es, i, j - 1);
      RunStepRank(ws, es, j);
    }
  }

  // ---- who frees a session ----

  /** Under the invariant the branch that releases a session on a completion is dead. */
  lemma CompletionFreesNothing(w: World, e: Event)
    requires Inv(w) && Possible(w, e) && !e.Expired?
    ensures Next(w, e).frees == w.frees
  {
    if w.status == Closed {
      LateCompletion(w, e);
    } else if !e.RecvDone? {
      OtherStepsLeaveRecv(w, e);
    }
  }

  /** As long as no step overlaps, a completion never releases a session. */
  lemma OnlyTheTimerFrees(ws: seq<World>, es: seq<Event>, i: nat)
    requires IsRun(ws, es) && Inv(ws[0]) && NoOverlap(ws, es) && i < |es|
    ensures ws[i + 1].frees > ws[i].frees ==> es[i].Expired?
  {
    RunInv(ws, es, i);
    RunStep(ws, es, i);
    if !es[i].Expired? {
      CompletionFreesNothing(ws[i], es[i]);
    }
  }

  /** Under the invariant nothing is left to happen to a freed session. */
  lemma FreedEndsRun(ws: seq<World>, es: seq<Event>, i: nat)
    requires IsRun(ws, es) && i < |ws| && ws[i].frees > 0 && Inv(ws[i])
    ensures i == |es|
  {
    if i < |es| {
      RunStep(ws, es, i);
    }
  }

  /** A closing session with a flag set ignores completions, and an expiry only closes its socket. */
  lemma ClosingStep(w: World, e: Event)
    requires w.status == Closing && w.flags.Pending() && Possible(w, e)
    ensures Next(w, e) == if e.Expired? then CloseSocket(w) else Reported(w, e)
  {
  }

  lemma {:induction false} PendingStays(ws: seq<World>, es: seq<Event>, i: nat)
    requires IsRun(ws, es) && ws[0].status == Closing && ws[0].flags.Pending() && i < |ws|
    ensures ws[i].frees == ws[0].frees && ws[i].status == Closing && ws[i].flags == ws[0].flags
  {
    if i > 0 {
      PendingStays(ws, es, i - 1);
      RunStep(ws, es, i - 1);
      ClosingStep(ws[i - 1], es[i - 1]);
      ReportedOnly(ws[i - 1], es[i - 1]);
    }
  }

  /** With no flag set the kernel holds nothing, so only the timer is left. */
  lemma IdleExpires(w: World, e: Event)
    requires Inv(w) && w.status == Closing && !w.flags.Pending() && Possible(w, e)
    ensures e == Expired && Next(w, e).frees == 1 && Inv(Next(w, e))
  {
    ExpiredKeeps(w);
  }

  /**
   * Completions of a closing session leave its flags alone. So it is released, by
   * the next expiry, exactly when it had no flag set; otherwise never.
   */
  lemma ClosingFate(ws: seq<World>, es: seq<Event>, i: nat)
    requires IsRun(ws, es) && Inv(ws[0]) && ws[0].status == Closing && ws[0].frees == 0 && i < |ws|
    ensures ws[0].flags.Pending() ==> ws[i].frees == 0 && ws[i].status == Closing && ws[i].flags == ws[0].flags
    ensures !ws[0].flags.Pending() && i > 0 ==> es == [Expired] && ws[i].frees == 1
  {
    if ws[0].flags.Pending() {
      PendingStays(ws, es, i);
    } else if i > 0 {
      RunStep(ws, es, 0);
      IdleExpires(ws[0], es[0]);
      FreedEndsRun(ws, es, 1);
    }
  }
}
