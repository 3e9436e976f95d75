/**
 * What an io_uring session goes on doing: an active one listens and sends unless the
 * submission queue or the read buffer was full, and it ends exactly when it must.
 */
module Progress {
  import opened Bytes
  import opened ZeroCopy

  // ---- listening ----

  /** A receive that did not arm the next one: no queue entry, or a full read buffer. */
  predicate LeavesDeaf(e: Event) {
    e.RecvDone? && e.res > 0 && e.readSqe != Space
  }

  /** While active, the flag says whether a receive is in the ring. */
  predicate FlagTells(w: World) {
    RecvInv(w) && (w.status == Active ==> (w.flags.reading <==> w.recvs == 1))
  }

  lemma ReadRearms(w: World, res: int, app: App, sqe: Option<nat>, readSqe: ReadSqe)
    requires w.recvs == 0
    ensures var w1 := ProcessRead(w, res, app, sqe, readSqe);
            w1.status == Active ==>
              (w1.recvs == if readSqe == Space then 1 else 0) && (w1.flags.reading <==> readSqe == Space)
  {
    if res > 0 {
      var w1 := Absorbed(SetFlag(w, IO_READING, false), app);
      var w2 := TryArmSend(w1, sqe);
      assert w2.recvs == 0 && !w2.flags.reading && w2.status == w1.status;
    }
  }

  /** A step from an active state to an active one stops the session listening exactly if it leaves it deaf. */
  lemma ListenStep(w: World, e: Event)
    requires FlagTells(w) && Possible(w, e)
    ensures FlagTells(Next(w, e))
    ensures Next(w, e).status == Active ==> (Next(w, e).recvs == 0 <==> w.recvs == 0 || LeavesDeaf(e))
  {
    RecvInvKept(w, e);
    ActiveBefore(w, e);
    if w.status == Active {
      if e.RecvDone? {
        assert Reported(w, e) == w.(recvs := 0);
        ReadRearms(w.(recvs := 0), e.res, e.app, e.sqe, e.readSqe);
      } else {
        OtherStepsLeaveRecv(w, e);
      }
    }
  }

  lemma {:induction false} FlagTellsAlways(ws: seq<World>, es: seq<Event>, i: nat)
    requires IsRun(ws, es) && FlagTells(ws[0]) && i < |ws|
    ensures FlagTells(ws[i])
  {
    if i > 0 {
      FlagTellsAlways(ws, es, i - 1);
      RunStep(ws, es, i - 1);
      ListenStep(ws[i - 1], es[i - 1]);
    }
  }

  /**
   * Over every run, overlaps included: an active session listens, unless an earlier
   * positive receive found no queue entry or a full read buffer to receive into.
   */
  lemma {:induction false} ListensExactly(ws: seq<World>, es: seq<Event>, i: nat)
    requires IsRun(ws, es) && FlagTells(ws[0]) && ws[0].recvs == 1 && i < |ws| && ws[i].status == Active
    ensures ws[i].flags.reading <==> ws[i].recvs == 1
    ensures ws[i].recvs == 0 <==> exists j :: 0 <= j < i && LeavesDeaf(es[j])
  {
    FlagTellsAlways(ws, es, i);
    if i > 0 {
      FlagTellsAlways(ws, es, i - 1);
      RunStep(ws, es, i - 1);
      ActiveBefore(ws[i - 1], es[i - 1]);
      ListensExactly(ws, es, i - 1);
      ListenStep(ws[i - 1], es[i - 1]);
    }
  }

  /** So it always listens if every positive receive found space to receive into. */
  lemma AlwaysListens(ws: seq<World>, es: seq<Event>, i: nat)
    requires IsRun(ws, es) && ws[0] == ACCEPTED && i < |ws| && ws[i].status == Active
    requires forall j :: 0 <= j < i && es[j].RecvDone? && es[j].res > 0 ==> es[j].readSqe == Space
    ensures ws[i].recvs == 1 && ws[i].flags.reading
  {
    BothStart();
    FlagTellsAlways(ws, es, i);
    ListensExactly(ws, es, i);
  }

  // ---- sending ----

  predicate HasSubmitted(sends: seq<SendOp>) {
    exists i :: 0 <= i < |sends| && sends[i].Submitted?
  }

  /** While active, IO_WRITING is set only if some send has no result yet. */
  predicate WritingTells(w: World) {
    RecvInv(w) && (w.status == Active && w.flags.writing ==> HasSubmitted(w.sends))
  }

  /** Something is buffered and nothing is being sent. */
  predicate Stalled(w: World) {
    w.buffered != [] && w.sends == []
  }

  /** A step that had bytes to send, no send under way, and no queue entry to start one. */
  predicate LeavesStalled(w: World, e: Event) {
    match e
    case RecvDone(_, app, sqe, _) => w.sends == [] && w.buffered + app.output != [] && sqe.None?
    case SendDone(_, _, _) => false
    case Noticed(_, sqe) => |w.sends| == 1 && |w.buffered| > w.locked && sqe.None?
    case Expired => false
  }

  lemma ArmedSubmits(w: World, region: nat)
    ensures HasSubmitted(ArmSend(w, region).sends)
  {
    assert ArmSend(w, region).sends[|w.sends|].Submitted?;
  }

  lemma TriesToSend(w: World, sqe: Option<nat>)
    requires w.flags.writing ==> HasSubmitted(w.sends)
    ensures var w1 := TryArmSend(w, sqe);
            (w1.flags.writing ==> HasSubmitted(w1.sends)) && w1.buffered == w.buffered &&
            (w1.sends == [] <==> w.sends == [] && (w.buffered == [] || sqe.None?))
  {
    if sqe.Some? {
      ArmedSubmits(w, sqe.value);
    }
  }

  lemma RecvLeavesSends(w: World, readSqe: ReadSqe)
    ensures var w1 := TryArmRecv(w, readSqe);
            w1.sends == w.sends && w1.buffered == w.buffered && w1.flags.writing == w.flags.writing
  {
  }

  lemma ReadSends(w: World, e: Event)
    requires WritingTells(w) && Possible(w, e) && e.RecvDone? && w.status == Active && e.res > 0
    ensures var w1 := Next(w, e);
            (w1.flags.writing ==> HasSubmitted(w1.sends)) && (Stalled(w1) <==> LeavesStalled(w, e))
  {
    var w1 := Absorbed(SetFlag(Reported(w, e), IO_READING, false), e.app);
    TriesToSend(w1, e.sqe);
    RecvLeavesSends(TryArmSend(w1, e.sqe), e.readSqe);
  }

  lemma ResultSends(w: World, e: Event)
    requires Possible(w, e) && e.SendDone? && w.status == Active
    ensures var w1 := Next(w, e);
            w1.status == Active ==> !w1.flags.writing && w1.sends != []
  {
  }

  lemma NoticeSends(w: World, e: Event)
    requires WritingTells(w) && Possible(w, e) && e.Noticed? && w.status == Active
    ensures var w1 := Next(w, e);
            w1.status == Active ==>
              (w1.flags.writing ==> HasSubmitted(w1.sends)) && (Stalled(w1) <==> LeavesStalled(w, e))
  {
    var w1 := Unpinned(Reported(w, e));
    assert |w1.sends| == |w.sends| - 1;
    assert |w1.buffered| == if w.locked <= |w.buffered| then |w.buffered| - w.locked else 0;
    if e.sqe.Some? {
      ArmedSubmits(w1, e.sqe.value);
    }
    if w.flags.writing {
      var i :| 0 <= i < |w.sends| && w.sends[i].Submitted?;
      var j := if i < e.which then i else i - 1;
      assert w1.sends[j] == w.sends[i];
    }
  }

  /** A session that is active after a step is stalled exactly if the step had to send and found no queue entry. */
  lemma SendStep(w: World, e: Event)
    requires WritingTells(w) && Possible(w, e)
    ensures WritingTells(Next(w, e))
    ensures Next(w, e).status == Active ==> (Stalled(Next(w, e)) <==> LeavesStalled(w, e))
  {
    RecvInvKept(w, e);
    ActiveBefore(w, e);
    if w.status == Active {
      match e
      case RecvDone(res, _, _, _) =>
        if res > 0 {
          ReadSends(w, e);
        }
      case SendDone(_, _, _) => ResultSends(w, e);
      case Noticed(_, _) => NoticeSends(w, e);
      case Expired =>
    }
  }

  lemma {:induction false} WritingTellsAlways(ws: seq<World>, es: seq<Event>, i: nat)
    requires IsRun(ws, es) && WritingTells(ws[0]) && i < |ws|
    ensures WritingTells(ws[i])
  {
    if i > 0 {
      WritingTellsAlways(ws, es, i - 1);
      RunStep(ws, es, i - 1);
      SendStep(ws[i - 1], es[i - 1]);
    }
  }

  /**
   * Over every run, overlaps included: while the session is active, whatever is buffered
   * is being sent, unless the last step had something to send and found no queue entry.
   */
  lemma SendsExactly(ws: seq<World>, es: seq<Event>, i: nat)
    requires IsRun(ws, es) && WritingTells(ws[0]) && 0 < i < |ws| && ws[i].status == Active
    ensures ws[i].buffered != [] && ws[i].sends == [] <==> LeavesStalled(ws[i - 1], es[i - 1])
  {
    WritingTellsAlways(ws, es, i - 1);
    RunStep(ws, es, i - 1);
    SendStep(ws[i - 1], es[i - 1]);
  }

  // ---- both at once ----

  /** An active session waits for more, and whatever is buffered is being sent. */
  predicate Attentive(w: World) {
    RecvInv(w) &&
    (w.status == Active ==>
       w.recvs == 1 && w.flags.reading && (w.flags.writing ==> HasSubmitted(w.sends)) && !Stalled(w))
  }

  /** Something that had to be armed after a receive was not. */
  predicate ArmRefused(w: World, sqe: Option<nat>, readSqe: ReadSqe) {
    (w.buffered != [] && !w.flags.writing && sqe.None?) ||
    (w.status == Active && !w.flags.reading && readSqe != Space)
  }

  /** A completion after which the queue had no entry for what had to be armed, or the read buffer no space. */
  predicate Starved(w: World, e: Event) {
    w.status == Active &&
    match e
    case RecvDone(res, app, sqe, readSqe) =>
      res > 0 && ArmRefused(Absorbed(SetFlag(w, IO_READING, false), app), sqe, readSqe)
    case SendDone(_, _, _) => false
    case Noticed(_, sqe) => |w.buffered| > w.locked && sqe.None?
    case Expired => false
  }

  /** A session that gets what it asks for stays attentive, whatever else happens, overlaps included. */
  lemma AttentiveKept(w: World, e: Event)
    requires Attentive(w) && Possible(w, e) && !Starved(Reported(w, e), e)
    ensures Attentive(Next(w, e))
  {
    ListenStep(w, e);
    SendStep(w, e);
    ActiveBefore(w, e);
    ReportedOnly(w, e);
    if w.status == Active && e.RecvDone? && e.res > 0 {
      AppendedLeft(w.buffered, e.app.output);
    }
  }

  lemma AppendedLeft(a: seq<Byte>, b: seq<Byte>)
    ensures a + b == [] <==> a == [] && b == []
  {
  }

  // ---- ending ----

  /** What makes an active session start closing. */
  predicate Ends(w: World, e: Event) {
    match e
    case RecvDone(res, app, _, _) => res <= 0 || app.closing
    case SendDone(_, res, _) => res < 0
    case Noticed(_, _) => |w.buffered| <= w.locked && !w.keepAlive
    case Expired => true
  }

  /** What makes it close its socket at once. */
  predicate Hangs(w: World, e: Event) {
    match e
    case RecvDone(res, app, _, readSqe) =>
      if res <= 0 then w.buffered == [] else !app.closing && readSqe == BufferFull
    case SendDone(_, res, _) => res < 0
    case Noticed(_, _) => |w.buffered| <= w.locked && !w.keepAlive
    case Expired => true
  }

  function KeptAlive(w: World, e: Event): bool {
    if !e.RecvDone? then w.keepAlive
    else if e.res > 0 then e.app.keepAlive
    else w.keepAlive && w.buffered == []
  }

  /** From `w` to `w1`, by `e`. */
  predicate EndedRightly(w: World, e: Event, w1: World) {
    (w1.status != Active <==> Ends(w, e)) && (w1.open <==> w.open && !Hangs(w, e)) && w1.keepAlive == KeptAlive(w, e)
  }

  lemma ReadEnds(w: World, e: Event)
    requires Possible(w, e) && e.RecvDone? && w.status == Active
    ensures EndedRightly(w, e, Next(w, e))
  {
    if e.res > 0 {
      var w1 := Absorbed(SetFlag(Reported(w, e), IO_READING, false), e.app);
      var w2 := TryArmSend(w1, e.sqe);
      assert w2.open == w1.open && w2.status == w1.status && w2.keepAlive == w1.keepAlive && !w2.flags.reading;
    }
  }

  lemma NoticeEnds(w: World, e: Event)
    requires Possible(w, e) && e.Noticed? && w.status == Active
    ensures EndedRightly(w, e, Next(w, e))
  {
    var w1 := Unpinned(Reported(w, e));
    assert |w1.buffered| == if w.locked <= |w.buffered| then |w.buffered| - w.locked else 0;
    assert w1.open == w.open && w1.status == w.status && w1.keepAlive == w.keepAlive;
  }

  /** When exactly an active session starts closing, when its socket is closed, and whether it is kept alive. */
  lemma EndsExactly(w: World, e: Event)
    requires Possible(w, e) && w.status == Active
    ensures EndedRightly(w, e, Next(w, e))
  {
    match e
    case RecvDone(_, _, _, _) => ReadEnds(w, e);
    case SendDone(_, _, _) =>
    case Noticed(_, _) => NoticeEnds(w, e);
    case Expired =>
  }

  /** An expiry closes the socket of whatever session it finds, and gives back those with no flag set. */
  lemma ExpiryExactly(w: World)
    requires Possible(w, Expired)
    ensures var w1, pending := Next(w, Expired), w.flags.reading || w.flags.writing || w.flags.waiting;
            w1 == w.(open := false, status := if pending then Closing else Closed, linked := pending,
                     frees := w.frees + if pending then 0 else 1)
  {
  }
}
