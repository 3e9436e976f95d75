/**
 * What can still happen to an io_uring session once its protocol layer has closed
 * it, or once a second send has joined an outstanding one.
 */
module Aftermath {
  import opened Bytes
  import opened ZeroCopy

  // ---- what can still happen ----

  predicate RunBetween(ws: seq<World>, es: seq<Event>, w: World, later: World) {
    IsRun(ws, es) && ws[0] == w && ws[|es|] == later
  }

  /** Some run goes from `w` to `later`. */
  ghost predicate Leads(w: World, later: World) {
    exists ws: seq<World>, es: seq<Event> :: RunBetween(ws, es, w, later)
  }

  lemma LeadsNow(w: World)
    ensures Leads(w, w)
  {
    assert RunBetween([w], [], w, w);
  }

  lemma RunCons(w: World, e: Event, ws: seq<World>, es: seq<Event>)
    requires Possible(w, e) && IsRun(ws, es) && ws[0] == Next(w, e)
    ensures IsRun([w] + ws, [e] + es)
  {
    var ws', es' := [w] + ws, [e] + es;
    assert StepAt(ws', es', 0);
    forall i | 0 < i < |es'|
      ensures StepAt(ws', es', i)
    {
      RunStep(ws, es, i - 1);
      assert ws'[i] == ws[i - 1] && ws'[i + 1] == ws[i] && es'[i] == es[i - 1];
    }
  }

  lemma LeadsOn(w: World, e: Event, later: World)
    requires Possible(w, e) && Leads(Next(w, e), later)
    ensures Leads(w, later)
  {
    var ws, es :| RunBetween(ws, es, Next(w, e), later);
    RunCons(w, e, ws, es);
    assert ([w] + ws)[|[e] + es|] == ws[|es|];
    assert RunBetween([w] + ws, [e] + es, w, later);
  }

  // ---- a closing session ----

  lemma PendingLeads(w: World, later: World)
    requires w.status == Closing && w.flags.Pending() && Leads(w, later)
    ensures later.frees == w.frees
  {
    var ws, es :| RunBetween(ws, es, w, later);
    PendingStays(ws, es, |es|);
  }

  /** Some run gives the session back to the pool. */
  ghost predicate Releasable(w: World) {
    exists later :: Leads(w, later) && later.frees > 0
  }

  lemma ExpiryReleases(w: World)
    requires w.linked && !w.flags.Pending()
    ensures Possible(w, Expired) && Leads(w, Next(w, Expired))
    ensures Next(w, Expired).frees == w.frees + 1 && Next(w, Expired).sends == w.sends
  {
    LeadsNow(Next(w, Expired));
    LeadsOn(w, Expired, Next(w, Expired));
  }

  lemma ClosedByEngine(w: World, e: Event)
    requires Inv(w) && Possible(w, e) && w.status == Active && e.RecvDone? && e.res > 0 && e.app.closing
    ensures var w1 := Next(w, e);
            w1.status == Closing && w1.frees == 0 && w1.linked &&
            (w1.flags.Pending() <==>
             w.flags.writing || w.flags.waiting || (w.buffered + e.app.output != [] && e.sqe.Some?))
  {
  }

  /**
   * A session the protocol layer decides to close is never released if, at that
   * moment, a send is outstanding or one is started for what is still buffered;
   * otherwise the timer can release it.
   */
  lemma EngineCloseFate(w: World, e: Event)
    requires Inv(w) && Possible(w, e) && w.status == Active && e.RecvDone? && e.res > 0 && e.app.closing
    ensures Releasable(Next(w, e)) <==>
            !(w.flags.writing || w.flags.waiting || (w.buffered + e.app.output != [] && e.sqe.Some?))
  {
    var w1 := Next(w, e);
    ClosedByEngine(w, e);
    if w1.flags.Pending() {
      forall later | Leads(w1, later)
        ensures later.frees == 0
      {
        PendingLeads(w1, later);
      }
    } else {
      ExpiryReleases(w1);
    }
  }

  // ---- what a closed session still delivers ----

  /** Some run ends with everything appended accepted by the kernel. */
  ghost predicate DeliversAll(w: World) {
    exists later :: Leads(w, later) && later.accepted == later.appended
  }

  /** How many bytes a send without a result yet may still add. */
  function Coming(w: World): nat {
    if w.sends != [] && w.sends[0].Submitted? then |w.sends[0].pinned| else 0
  }

  /** No longer active, and the kernel's stream falls short of what was appended whatever is still reported. */
  predicate FallsShort(w: World) {
    w.status != Active && |w.sends| <= 1 && |w.accepted| + Coming(w) < |w.appended|
  }

  /** A session that is not active starts nothing. */
  lemma InactiveStep(w: World, e: Event)
    requires w.status != Active && Possible(w, e)
    ensures var w1, r := Next(w, e), Reported(w, e);
            w1.status != Active && w1.sends == r.sends && w1.accepted == r.accepted && w1.appended == w.appended
  {
    ReportedOnly(w, e);
  }

  lemma FallsShortKept(w: World, e: Event)
    requires FallsShort(w) && Possible(w, e)
    ensures FallsShort(Next(w, e))
  {
    InactiveStep(w, e);
    ReportedOnly(w, e);
  }

  lemma {:induction false} FallsShortStays(ws: seq<World>, es: seq<Event>, i: nat)
    requires IsRun(ws, es) && FallsShort(ws[0]) && i < |ws|
    ensures FallsShort(ws[i])
  {
    if i > 0 {
      FallsShortStays(ws, es, i - 1);
      RunStep(ws, es, i - 1);
      FallsShortKept(ws[i - 1], es[i - 1]);
    }
  }

  lemma NeverDelivers(w: World)
    requires FallsShort(w)
    ensures !DeliversAll(w)
  {
    forall later | Leads(w, later)
      ensures later.accepted != later.appended
    {
      var ws, es :| RunBetween(ws, es, w, later);
      FallsShortStays(ws, es, |es|);
    }
  }

  /** Closing while a send is outstanding, or without a queue entry: no send is started. */
  lemma ClosedBehind(w: World, e: Event)
    requires Inv(w) && Possible(w, e) && w.status == Active && e.RecvDone? && e.res > 0 && e.app.closing
    requires !Overlap(w, e) && e.app.output != [] && (w.sends != [] || e.sqe.None?)
    ensures FallsShort(Next(w, e))
  {
    var w1 := Next(w, e);
    assert w1.sends == w.sends && w1.accepted == w.accepted && w1.appended == w.appended + e.app.output;
    assert w1.status == Closing;
    assert |w.appended| == |Retired(w)| + |w.buffered|;
  }

  /** Closing with a queue entry and nothing outstanding: one send is started. */
  lemma ClosedInFront(w: World, e: Event)
    requires Inv(w) && Possible(w, e) && w.status == Active && e.RecvDone? && e.res > 0 && e.app.closing
    requires w.sends == [] && e.sqe.Some? && e.app.output != []
    ensures var w1, b := Next(w, e), w.buffered + e.app.output;
            w1.status == Closing && w1.sends == [Submitted(Clip(b, e.sqe.value + 1))] &&
            w1.accepted == Retired(w) && w1.appended == Retired(w) + b
  {
    Assoc(Retired(w), w.buffered, e.app.output);
  }

  /**
   * Whether the peer can still get everything, the Close that ended the session
   * included: exactly if no send was outstanding, a queue entry was at hand, and the
   * whole write buffer lay in the one region it offered for sending.
   */
  lemma EngineCloseDelivery(w: World, e: Event)
    requires Inv(w) && Possible(w, e) && w.status == Active && e.RecvDone? && e.res > 0 && e.app.closing
    requires !Overlap(w, e) && e.app.output != []
    ensures DeliversAll(Next(w, e)) <==>
            w.sends == [] && e.sqe.Some? && |w.buffered + e.app.output| <= e.sqe.value + 1
  {
    var w1, b := Next(w, e), w.buffered + e.app.output;
    if w.sends != [] || e.sqe.None? {
      ClosedBehind(w, e);
      NeverDelivers(w1);
    } else {
      ClosedInFront(w, e);
      if |b| <= e.sqe.value + 1 {
        AcceptedWhole(w1, 0);
        LeadsNow(Next(w1, SendDone(0, |b|, true)));
        LeadsOn(w1, SendDone(0, |b|, true), Next(w1, SendDone(0, |b|, true)));
      } else {
        NeverDelivers(w1);
      }
    }
  }

  // ---- what an overlap costs ----

  /** Where an overlapping step leads: two sends, both flags set, and no byte of the first retired. */
  lemma OverlapShape(w: World, e: Event)
    requires Inv(w) && Possible(w, e) && Overlap(w, e)
    ensures var w1 := Next(w, e);
            w.sends != [] && w.sends[0].AwaitsNotice? &&
            w1.sends == [w.sends[0], Submitted(Clip(w1.buffered, e.sqe.value + 1))] &&
            w1.buffered == w.buffered + e.app.output && w1.buffered != [] && w1.accepted == w.accepted &&
            w1.appended == w.appended + e.app.output && w1.locked == w.sends[0].taken <= |w.buffered| &&
            w1.flags.writing && w1.flags.waiting && (w1.flags.reading <==> w1.recvs == 1) && w1.recvs <= 1 &&
            w1.frees == 0 && w1.linked && w1.status == (if e.app.closing then Closing else Active)
  {
    assert Reported(w, e) == w.(recvs := 0);
  }

  /** Some run gives the session back to the pool while the kernel still holds a send of it. */
  ghost predicate ReleasableEarly(w: World) {
    exists later :: Leads(w, later) && later.frees > 0 && later.sends != []
  }

  /** A receive that brings no output and finds no queue entry is only forgotten. */
  lemma ReceiveForgotten(w: World)
    requires w.status == Active && w.recvs == 1
    ensures var e := RecvDone(1, App(w.unread, [], false, w.keepAlive), None, NoEntry);
            Possible(w, e) && Next(w, e) == w.(recvs := 0, flags := w.flags.With(IO_READING, false))
  {
    assert w.buffered + [] == w.buffered && w.appended + [] == w.appended;
  }

  lemma SecondResult(w: World, first: SendOp, q: seq<Byte>)
    requires w.status == Active && w.sends == [first, Submitted(q)] && q != []
    ensures var e := SendDone(1, 1, true);
            Possible(w, e) &&
            Next(w, e) == w.(flags := Flags(w.flags.reading, false, true), locked := 1,
                             sends := [first, AwaitsNotice(q, 1)], accepted := w.accepted + q[..1])
  {
  }

  /** The first send's notification clears the flag the two share; then nothing covers the second. */
  lemma FirstNotice(w: World, first: SendOp, q: seq<Byte>)
    requires w.status == Active && w.sends == [first, AwaitsNotice(q, 1)] && first.AwaitsNotice?
    requires w.flags == Flags(false, false, true)
    ensures var e := Noticed(0, None);
            Possible(w, e) && !Next(w, e).flags.Pending() && Next(w, e).sends == [AwaitsNotice(q, 1)] &&
            Next(w, e).linked == w.linked && Next(w, e).frees == w.frees
  {
    assert Reported(w, Noticed(0, None)).sends == [AwaitsNotice(q, 1)];
  }

  lemma EarlyWithoutReceive(w: World, first: SendOp, q: seq<Byte>)
    requires w.status == Active && w.sends == [first, Submitted(q)] && first.AwaitsNotice? && q != []
    requires w.linked && w.frees == 0 && !w.flags.reading
    ensures ReleasableEarly(w)
  {
    SecondResult(w, first, q);
    var w1 := Next(w, SendDone(1, 1, true));
    FirstNotice(w1, first, q);
    var w2 := Next(w1, Noticed(0, None));
    ExpiryReleases(w2);
    LeadsOn(w1, Noticed(0, None), Next(w2, Expired));
    LeadsOn(w, SendDone(1, 1, true), Next(w2, Expired));
  }

  lemma EarlyRelease(w: World, first: SendOp, q: seq<Byte>)
    requires w.status == Active && w.sends == [first, Submitted(q)] && first.AwaitsNotice? && q != []
    requires w.linked && w.frees == 0 && w.recvs <= 1 && (w.flags.reading <==> w.recvs == 1)
    ensures ReleasableEarly(w)
  {
    if w.recvs == 1 {
      var e := RecvDone(1, App(w.unread, [], false, w.keepAlive), None, NoEntry);
      ReceiveForgotten(w);
      EarlyWithoutReceive(Next(w, e), first, q);
      var later :| Leads(Next(w, e), later) && later.frees > 0 && later.sends != [];
      LeadsOn(w, e, later);
    } else {
      EarlyWithoutReceive(w, first, q);
    }
  }

  /**
   * After an overlapping step the session can be given back to the pool under a
   * send the kernel still holds, exactly when that step did not also close it.
   */
  lemma OverlapFreesEarly(w: World, e: Event)
    requires Inv(w) && Possible(w, e) && Overlap(w, e)
    ensures ReleasableEarly(Next(w, e)) <==> !e.app.closing
  {
    var w1 := Next(w, e);
    OverlapShape(w, e);
    if e.app.closing {
      forall later | Leads(w1, later)
        ensures later.frees == 0
      {
        PendingLeads(w1, later);
      }
    } else {
      EarlyRelease(w1, w.sends[0], w1.sends[1].pinned);
    }
  }

  /** Some run ends with the kernel having accepted something that is no beginning of what was appended. */
  ghost predicate CanDiverge(w: World) {
    exists later :: Leads(w, later) && !(later.accepted <= later.appended)
  }

  lemma DivergesLater(w: World, e: Event)
    requires Possible(w, e) && CanDiverge(Next(w, e))
    ensures CanDiverge(w)
  {
    var later :| Leads(Next(w, e), later) && !(later.accepted <= later.appended);
    LeadsOn(w, e, later);
  }

  lemma DivergedNow(w: World)
    requires !(w.accepted <= w.appended)
    ensures CanDiverge(w)
  {
    LeadsNow(w);
  }

  /** A send is accepted whole. */
  lemma AcceptedWhole(w: World, i: nat)
    requires i < |w.sends| && w.sends[i].Submitted?
    ensures var e := SendDone(i, |w.sends[i].pinned|, true);
            Possible(w, e) && Next(w, e).accepted == w.accepted + w.sends[i].pinned &&
            Next(w, e).appended == w.appended &&
            Next(w, e).sends == w.sends[i := AwaitsNotice(w.sends[i].pinned, |w.sends[i].pinned|)]
  {
    var p := w.sends[i].pinned;
    assert p[..|p|] == p;
  }

  /** Two sends that together are longer than what the stream lacks, both accepted. */
  lemma BothAccepted(w: World, q: seq<Byte>, left: seq<Byte>)
    requires w.sends == if left == [] then [Submitted(q)] else [Submitted(q), Submitted(left)]
    requires q != [] && |w.accepted| + |left| == |w.appended|
    ensures CanDiverge(w)
  {
    AcceptedWhole(w, 0);
    var done := SendDone(0, |q|, true);
    var w1 := Next(w, done);
    if left == [] {
      DivergedNow(w1);
    } else {
      AcceptedWhole(w1, 1);
      var last := SendDone(1, |left|, true);
      DivergedNow(Next(w1, last));
      DivergesLater(w1, last);
    }
    DivergesLater(w, done);
  }

  /** The first send's notification starts a third one for whatever it leaves. */
  lemma ThirdSend(w: World, first: SendOp, q: seq<Byte>)
    requires w.status == Active && w.sends == [first, Submitted(q)] && first.AwaitsNotice? && w.locked <= |w.buffered|
    ensures var e, left := Noticed(0, Some(|w.buffered|)), w.buffered[w.locked..];
            var w1 := Next(w, e);
            Possible(w, e) && w1.accepted == w.accepted && w1.appended == w.appended &&
            w1.sends == if left == [] then [Submitted(q)] else [Submitted(q), Submitted(left)]
  {
    assert Reported(w, Noticed(0, Some(|w.buffered|))).sends == [Submitted(q)];
  }

  lemma ActiveDiverges(w: World, first: SendOp, q: seq<Byte>)
    requires w.status == Active && w.sends == [first, Submitted(q)] && first.AwaitsNotice? && q != []
    requires w.locked <= |w.buffered| && |w.accepted| + |w.buffered| == |w.appended| + w.locked
    ensures CanDiverge(w)
  {
    ThirdSend(w, first, q);
    BothAccepted(Next(w, Noticed(0, Some(|w.buffered|))), q, w.buffered[w.locked..]);
    DivergesLater(w, Noticed(0, Some(|w.buffered|)));
  }

  /** A closing session: one result at most is still to come, and with it the stream ends within what was appended. */
  predicate Winding(w: World) {
    w.status == Closing && w.flags.Pending() && w.accepted <= w.appended &&
    (forall i :: 0 <= i < |w.sends| && w.sends[i].Submitted? ==> w.accepted + w.sends[i].pinned <= w.appended) &&
    (forall i, j :: 0 <= i < j < |w.sends| ==> w.sends[i].AwaitsNotice? || w.sends[j].AwaitsNotice?)
  }

  lemma WindingKept(w: World, e: Event)
    requires Winding(w) && Possible(w, e)
    ensures Winding(Next(w, e))
  {
    var w1 := Next(w, e);
    ClosingStep(w, e);
    ReportedOnly(w, e);
    if e.SendDone? {
      var p := w.sends[e.which].pinned;
      var taken := if e.res < 0 then 0 else e.res;
      assert w.accepted + p[..taken] <= w.accepted + p;
      assert forall j :: 0 <= j < |w.sends| && j != e.which ==> w.sends[j].AwaitsNotice?;
      assert forall j :: 0 <= j < |w1.sends| ==> w1.sends[j].AwaitsNotice?;
    }
  }

  lemma {:induction false} WindingStays(ws: seq<World>, es: seq<Event>, i: nat)
    requires IsRun(ws, es) && Winding(ws[0]) && i < |ws|
    ensures Winding(ws[i])
  {
    if i > 0 {
      WindingStays(ws, es, i - 1);
      RunStep(ws, es, i - 1);
      WindingKept(ws[i - 1], es[i - 1]);
    }
  }

  lemma WindingConserves(w: World)
    requires Winding(w)
    ensures !CanDiverge(w)
  {
    forall later | Leads(w, later)
      ensures later.accepted <= later.appended
    {
      var ws, es :| RunBetween(ws, es, w, later);
      WindingStays(ws, es, |es|);
    }
  }

  /** What the kernel is offered twice: the accepted part of the first send, and the second send whole. */
  function Offered(w: World): seq<Byte>
    requires |w.sends| == 2 && w.sends[0].AwaitsNotice? && w.sends[0].taken <= |w.sends[0].pinned|
  {
    w.sends[0].pinned[..w.sends[0].taken] + w.sends[1].pinned
  }

  lemma FrontOfSame(a: seq<Byte>, x: seq<Byte>, y: seq<Byte>)
    ensures a + x <= a + y <==> x <= y
  {
    if a + x <= a + y {
      assert forall i :: 0 <= i < |x| ==> x[i] == (a + x)[|a| + i] && y[i] == (a + y)[|a| + i];
    }
  }

  /** In a world that is closing with two sends, the one result that counts is the second send's. */
  lemma ClosingDiverges(w: World, gone: seq<Byte>)
    requires |w.sends| == 2 && w.sends[0].AwaitsNotice? && w.sends[0].taken <= |w.sends[0].pinned|
    requires w.sends[1].Submitted?
    requires w.sends[0].pinned[..w.sends[0].taken] <= w.buffered
    requires w.status == Closing && w.flags.Pending() && w.appended == gone + w.buffered
    requires w.accepted == gone + w.sends[0].pinned[..w.sends[0].taken]
    ensures CanDiverge(w) <==> !(Offered(w) <= w.buffered)
  {
    var front, q := w.sends[0].pinned[..w.sends[0].taken], w.sends[1].pinned;
    Assoc(gone, front, q);
    FrontOfSame(gone, Offered(w), w.buffered);
    FrontOfSame(gone, front, w.buffered);
    if Offered(w) <= w.buffered {
      assert Winding(w);
      WindingConserves(w);
    } else {
      AcceptedWhole(w, 1);
      DivergedNow(Next(w, SendDone(1, |q|, true)));
      DivergesLater(w, SendDone(1, |q|, true));
    }
  }

  /**
   * After an overlapping step the kernel can accept bytes a second time, so that its
   * stream is no beginning of what was appended: always if the session stays active,
   * and otherwise exactly when the two sends in a row do not happen to spell the
   * front of the write buffer.
   */
  lemma OverlapDuplicates(w: World, e: Event)
    requires Inv(w) && Possible(w, e) && Overlap(w, e)
    ensures var w1 := Next(w, e);
            |w1.sends| == 2 && w1.sends[0].AwaitsNotice? && w1.sends[0].taken <= |w1.sends[0].pinned| &&
            (CanDiverge(w1) <==> !e.app.closing || !(Offered(w1) <= w1.buffered))
  {
    var w1, op := Next(w, e), w.sends[0];
    OverlapShape(w, e);
    assert |w.accepted| + |w.buffered| == |w.appended| + op.taken;
    if e.app.closing {
      Assoc(Retired(w), w.buffered, e.app.output);
      ClosingDiverges(w1, Retired(w));
    } else {
      ActiveDiverges(w1, op, w1.sends[1].pinned);
    }
  }

  // ---- one run ----

  const FOUR: seq<Byte> := [1, 2, 3, 4]
  const MORE := App([], [], false, true)

  /**
   * Four bytes are appended and a send of them is accepted in part; a receive
   * overlaps; the notification and a third send follow; the session ends, and a
   * result releases it while the card still holds the third send, whose
   * notification then comes too late.
   */
  const MISHAP: seq<Event> := [
    RecvDone(1, App([], FOUR, false, true), Some(3), Space), SendDone(0, 2, true), RecvDone(1, MORE, Some(3), Space),
    Noticed(0, Some(3)), SendDone(0, 2, true), Noticed(0, None), RecvDone(0, MORE, None, NoEntry), SendDone(0, 2, true),
    Noticed(0, None)]

  /** The states `MISHAP` goes through. */
  const MISHAP_STATES: seq<World> := [
    ACCEPTED,
    World(true, true, Active, true, Flags(true, true, false), 0, [], FOUR, 1, [Submitted(FOUR)], [], FOUR, 0),
    World(true, true, Active, true, Flags(true, false, true), 2, [], FOUR, 1, [AwaitsNotice(FOUR, 2)], [1, 2], FOUR, 0),
    World(true, true, Active, true, Flags(true, true, true), 2, [], FOUR, 1,
          [AwaitsNotice(FOUR, 2), Submitted(FOUR)], [1, 2], FOUR, 0),
    World(true, true, Active, true, Flags(true, true, false), 0, [], [3, 4], 1,
          [Submitted(FOUR), Submitted([3, 4])], [1, 2], FOUR, 0),
    World(true, true, Active, true, Flags(true, false, true), 2, [], [3, 4], 1,
          [AwaitsNotice(FOUR, 2), Submitted([3, 4])], [1, 2, 1, 2], FOUR, 0),
    World(true, true, Active, true, Flags(true, false, false), 0, [], [], 1,
          [Submitted([3, 4])], [1, 2, 1, 2], FOUR, 0),
    World(false, true, Closing, true, IO_NONE, 0, [], [], 0, [Submitted([3, 4])], [1, 2, 1, 2], FOUR, 0),
    World(false, true, Closed, false, IO_NONE, 0, [], [], 0, [AwaitsNotice([3, 4], 2)], [1, 2, 1, 2, 3, 4], FOUR, 1),
    World(false, true, Closed, false, IO_NONE, 0, [], [], 0, [], [1, 2, 1, 2, 3, 4], FOUR, 1)]

  lemma Armed()
    ensures StepAt(MISHAP_STATES, MISHAP, 0) && StepAt(MISHAP_STATES, MISHAP, 1)
  {
    assert [] + FOUR == FOUR && Clip(FOUR, 4) == FOUR && FOUR[..2] == [1, 2];
  }

  lemma Overlapped()
    ensures StepAt(MISHAP_STATES, MISHAP, 2)
  {
    assert FOUR + [] == FOUR && Clip(FOUR, 4) == FOUR;
  }

  lemma Rearmed()
    ensures StepAt(MISHAP_STATES, MISHAP, 3)
  {
    assert Drop(FOUR, 2) == [3, 4] && Clip([3, 4], 4) == [3, 4];
  }

  lemma Uncovered()
    ensures StepAt(MISHAP_STATES, MISHAP, 4) && StepAt(MISHAP_STATES, MISHAP, 5)
  {
    assert FOUR[..2] == [1, 2] && [1, 2] + [1, 2] == [1, 2, 1, 2] && Drop([3, 4], 2) == [];
  }

  lemma FreedEarly()
    ensures StepAt(MISHAP_STATES, MISHAP, 6) && StepAt(MISHAP_STATES, MISHAP, 7) && StepAt(MISHAP_STATES, MISHAP, 8)
  {
    assert [3, 4][..2] == [3, 4] && [1, 2, 1, 2] + [3, 4] == [1, 2, 1, 2, 3, 4];
  }

  lemma MishapStep(i: nat)
    requires i < 9
    ensures StepAt(MISHAP_STATES, MISHAP, i)
  {
    if i < 2 {
      Armed();
    } else if i == 2 {
      Overlapped();
    } else if i == 3 {
      Rearmed();
    } else if i < 6 {
      Uncovered();
    } else {
      FreedEarly();
    }
  }

  lemma RunOfSteps(ws: seq<World>, es: seq<Event>)
    requires |ws| == |es| + 1 && forall i :: 0 <= i < |es| ==> StepAt(ws, es, i)
    ensures IsRun(ws, es)
  {
  }

  lemma MishapIsRun()
    ensures IsRun(MISHAP_STATES, MISHAP)
  {
    forall i | 0 <= i < |MISHAP|
      ensures StepAt(MISHAP_STATES, MISHAP, i)
    {
      MishapStep(i);
    }
    RunOfSteps(MISHAP_STATES, MISHAP);
  }

  lemma OneOverlap(i: nat)
    requires i < |MISHAP|
    ensures Overlap(MISHAP_STATES[i], MISHAP[i]) <==> i == 2
  {
    assert MISHAP[i].RecvDone? && MISHAP[i].res > 0 ==> i == 0 || i == 2;
  }

  /**
   * A run of a session just accepted in which the only unusual thing is one overlap:
   * the stream is no longer what was appended, a completion releases the session, and
   * it does so while a send is outstanding.
   */
  lemma Mishap()
    ensures IsRun(MISHAP_STATES, MISHAP) && MISHAP_STATES[0] == ACCEPTED
    ensures forall i :: 0 <= i < |MISHAP| ==> (Overlap(MISHAP_STATES[i], MISHAP[i]) <==> i == 2)
    ensures !(MISHAP_STATES[5].accepted <= MISHAP_STATES[5].appended)
    ensures MISHAP[7].SendDone? && MISHAP_STATES[8].frees == 1 && MISHAP_STATES[8].sends == [AwaitsNotice([3, 4], 2)]
  {
    MishapIsRun();
    forall i | 0 <= i < |MISHAP|
      ensures Overlap(MISHAP_STATES[i], MISHAP[i]) <==> i == 2
    {
      OneOverlap(i);
    }
    assert MISHAP_STATES[5].accepted[2] == 1 && MISHAP_STATES[5].appended[2] == 3;
  }
}
