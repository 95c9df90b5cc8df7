/**
 * No deadlock: when the channel loses every message it carries, the time-outs of the sender still bring everything
 * over, close the receiver's stream and empty the queue, as long as no FIN has arrived before.
 */
module Recovery {
  import opened MachineInts
  import opened Wrap32
  import opened ByteStreams
  import opened Assembly
  import opened OneStream
  import opened Segments
  import opened SenderLaws
  import opened Protocol
  import opened EndToEnd
  import opened FinApart

  /** A state of a run, with a receiver that can hold something. */
  ghost predicate Live(v: World) {
    Protocol.Inv(v) && TimerInv(v.snd) && Apart(v) && v.rcv.asm.out.capacity > 0
  }

  /** A state from which recovery is possible. */
  ghost predicate Recoverable(v: World) {
    Live(v) && v.rcv.asm.end.Unknown?
  }

  /** What the rounds of a recovery leave alone. */
  ghost predicate SameStream(v: World, u: World) {
    && u.log == v.log
    && u.snd.nextSeq == v.snd.nextSeq && u.snd.synSent == v.snd.synSent && u.snd.finSent == v.snd.finSent
    && u.snd.input == v.snd.input
  }

  // The steps of a round.

  /** The reader empties the receiving stream, which opens the whole window. */
  lemma ReadAll(v: World) returns (e: Protocol.Event)
    requires Live(v)
    ensures Enabled(v, e)
    ensures var u := Next(v, e); var out := u.rcv.asm.out;
      && Live(u) && u == v.(rcv := v.rcv.(asm := v.rcv.asm.(out := out)))
      && out == v.rcv.asm.out.(popped := out.popped) && out.Valid() && out.Available() > 0
  {
    hide Chain, Truthful, AckUpTo, LogOk;
    e := ReadOut(|v.rcv.asm.out.accepted|);
    ReadOk(v, |v.rcv.asm.out.accepted|);
    ReadApart(v, |v.rcv.asm.out.accepted|);
  }

  lemma ReadApart(v: World, n: nat)
    requires Live(v)
    ensures Enabled(v, ReadOut(n)) && Apart(Next(v, ReadOut(n)))
  {
    hide Apart, Protocol.Inv;
    ReadOk(v, n);
    NextApart(v, ReadOut(n));
  }

  /** The time-out puts the front of the queue on the channel. */
  lemma Retransmits(v: World)
    requires Live(v) && v.snd.window != []
    ensures var e := Tick(Remaining(v.snd));
      && Enabled(v, e)
      && var u := Next(v, e);
      && Live(u) && SameStream(v, u) && u.rcv == v.rcv
      && u.snd.window == v.snd.window && u.snd.lastAck == v.snd.lastAck && v.snd.window[0] in u.net
  {
    hide Protocol.Inv, TimerInv, Apart, S.Tick;
    TimeOutFires(v.snd);
    TickOk(v, Remaining(v.snd));
    NextApart(v, Tick(Remaining(v.snd)));
  }

  lemma Parts(v: World)
    requires Protocol.Inv(v)
    ensures SenderOk(v) && ReceiverOk(v) && v.rcv.checkpoint < TWO63 && v.rcv.syn <= 1
  {
  }

  lemma CapacityKept(v: World, m: SenderMessage)
    requires Protocol.Inv(v) && m in v.net
    ensures v.rcv.checkpoint < TWO63 && v.rcv.syn <= 1
    ensures R.Receive(v.rcv, m).asm.out.capacity == v.rcv.asm.out.capacity
  {
    hide R.Receive, Truthful, AckUpTo, OfText, SenderLaws.Inv;
    SenderBound(v);
    AlwaysReady(v);
    Delivered(v.rcv, m, v.snd.isn, Transmitted(v), v.snd.finSent);
  }

  lemma DeliverLive(v: World, m: SenderMessage)
    requires Live(v) && m in v.net
    ensures Enabled(v, Deliver(m)) && Live(Next(v, Deliver(m)))
    ensures SameStream(v, Next(v, Deliver(m)))
  {
    hide Protocol.Inv, TimerInv, Apart, R.Receive;
    DeliverOk(v, m);
    NextApart(v, Deliver(m));
    CapacityKept(v, m);
  }

  lemma FrontIsData(v: World)
    requires Recoverable(v)
    ensures v.rcv.fin == v.rcv.needFin == 0
  {
    hide AckUpTo, Truthful;
  }

  /** The front of the queue gets through. */
  lemma DeliverFront(v: World)
    requires Recoverable(v) && v.snd.window != [] && v.snd.window[0] in v.net && !v.snd.window[0].fin
    requires v.rcv.asm.out.Valid() && v.rcv.asm.out.Available() > 0
    ensures var e := Deliver(v.snd.window[0]);
      && Enabled(v, e)
      && var u := Next(v, e);
      && Recoverable(u) && SameStream(v, u) && u.snd == v.snd && v.snd.lastAck < Acknowledged(u.rcv)
  {
    hide Protocol.Inv, TimerInv, Apart, SenderOk, ReceiverOk, ChannelOk, R.Receive;
    Parts(v);
    AlwaysReady(v);
    FrontIsData(v);
    FrontAdvances(v);
    DeliverLive(v, v.snd.window[0]);
    DeliveredEnd(v.rcv, v.snd.window[0]);
  }

  /** The receiver answers, and the answer gets through. */
  lemma AnswerArrives(v: World)
    requires Live(v) && v.rcv.asm.out.Valid() && v.rcv.asm.out.Available() > 0 && Acknowledged(v.rcv) > 0
    ensures Enabled(v, Acknowledge)
    ensures var u, a := Next(v, Acknowledge), R.Reply(v.rcv);
      && Enabled(u, DeliverAck(a))
      && var t := Next(u, DeliverAck(a));
      && Live(t) && SameStream(v, t) && t.rcv == v.rcv && t.snd.lastAck == Acknowledged(v.rcv)
  {
    hide Protocol.Inv, TimerInv, Apart, S.ReceiveAck, R.Reply;
    AcknowledgeOk(v);
    var u, a := Next(v, Acknowledge), R.Reply(v.rcv);
    NextApart(v, Acknowledge);
    AnswerCounts(v);
    DeliverAckOk(u, a);
    NextApart(u, DeliverAck(a));
  }

  lemma AnswerCounts(v: World)
    requires Live(v) && v.rcv.asm.out.Valid() && v.rcv.asm.out.Available() > 0 && Acknowledged(v.rcv) > 0
    ensures var a := R.Reply(v.rcv);
      && a.ackno.Some? && a.windowSize != 0
      && var t := S.ReceiveAck(v.snd, a.ackno.value, a.windowSize);
      && t.lastAck == Acknowledged(v.rcv) && TimerInv(t)
      && t.nextSeq == v.snd.nextSeq && t.synSent == v.snd.synSent && t.finSent == v.snd.finSent
      && t.input == v.snd.input
  {
    hide Says, Chain, Truthful, OfText, SenderLaws.Inv, S.ReceiveAck, Unwrap, Wrap, LogOk, AckUpTo, TimerInv, Apart;
    var a := R.Reply(v.rcv);
    SenderBound(v);
    AckWithinSent(v);
    assert a.ackno.value == Wrap(Acknowledged(v.rcv) % TWO64, v.snd.isn);
    WrapUnwrap(Acknowledged(v.rcv), v.snd.isn, v.snd.lastAck);
    ReceiveAckKeeps(v.snd, Transmitted(v), a.ackno.value, a.windowSize);
    AckTimer(v, a);
  }

  lemma AckTimer(v: World, a: ReceiverMessage)
    requires Live(v) && a.ackno.Some?
    ensures TimerInv(S.ReceiveAck(v.snd, a.ackno.value, a.windowSize))
  {
    hide TimerInv, S.ReceiveAck, Truthful, AckUpTo, Chain, Apart;
    AckKeepsTimer(v.snd, a.ackno.value, a.windowSize);
  }

  // Rounds up to the FIN.

  /** One round: reading, waiting, delivering what was retransmitted, reading, and answering. */
  lemma Round(v: World) returns (events: seq<Protocol.Event>)
    requires Recoverable(v) && v.snd.window != [] && !v.snd.window[0].fin
    ensures Runs(v, events)
    ensures var u := Protocol.After(v, events); Recoverable(u) && SameStream(v, u) && u.snd.lastAck > v.snd.lastAck
  {
    hide Enabled, Next, Live, R.Reply, Runs, Protocol.After;
    NoEvents(v);
    var open := ReadAll(v);
    OneMore(v, [], open);
    var v1, wait := Next(v, open), Tick(Remaining(v.snd));
    Retransmits(v1);
    OneMore(v, [] + [open], wait);
    var v2, deliver := Next(v1, wait), Deliver(v.snd.window[0]);
    DeliverFront(v2);
    OneMore(v, [] + [open] + [wait], deliver);
    var v3 := Next(v2, deliver);
    var last := Answered(v3);
    Continued(v, [] + [open] + [wait] + [deliver], last);
    events := [] + [open] + [wait] + [deliver] + last;
  }

  /** The reader empties the stream, the receiver answers, and the answer gets through. */
  lemma Answered(v: World) returns (events: seq<Protocol.Event>)
    requires Live(v) && Acknowledged(v.rcv) > 0
    ensures Runs(v, events)
    ensures var u := Protocol.After(v, events); var out := u.rcv.asm.out;
      && Live(u) && SameStream(v, u) && u.snd.lastAck == Acknowledged(v.rcv)
      && u.rcv == v.rcv.(asm := v.rcv.asm.(out := out)) && out == v.rcv.asm.out.(popped := out.popped)
  {
    hide Enabled, Next, Live, R.Reply, Runs, Protocol.After;
    NoEvents(v);
    var reopen := ReadAll(v);
    OneMore(v, [], reopen);
    var v1 := Next(v, reopen);
    AnswerArrives(v1);
    OneMore(v, [] + [reopen], Acknowledge);
    var v2, answer := Next(v1, Acknowledge), DeliverAck(R.Reply(v1.rcv));
    OneMore(v, [] + [reopen] + [Acknowledge], answer);
    events := [] + [reopen] + [Acknowledge] + [answer];
  }

  // The FIN.

  /** Only the segment with the FIN is outstanding, and the receiver has it not, or has not had room for all of it. */
  ghost predicate FinDue(v: World) {
    && |v.snd.window| == 1 && v.snd.window[0].fin
    && v.rcv.asm.pending == map[] && WindowStart(v.snd) <= |v.rcv.asm.out.accepted| + 1
    && (v.rcv.fin == 1 || v.rcv.fin == v.rcv.needFin == 0)
    && (v.rcv.fin == 1 || v.snd.window[0].payload != [] ==> |v.rcv.asm.out.accepted| < |Transmitted(v)|)
  }

  lemma FinFront(v: World)
    requires Recoverable(v) && v.snd.window != [] && v.snd.window[0].fin
    ensures FinDue(v)
  {
    hide Truthful, AckUpTo, Says, Chain, Init, LogOk, TimerInv;
    var before := |Payloads(Init(v.log))|;
    OnlyFin(v);
    assert WindowStart(v.snd) <= |v.rcv.asm.out.accepted| + 1;
    OfShortText(v.rcv.asm, Payloads(Init(v.log)));
  }

  /** The receiver has exactly what comes before the FIN. */
  lemma OfShortText(a: Asm, text: seq<byte>)
    requires OfText(a, text) && |text| <= |a.out.accepted|
    ensures |a.out.accepted| == |text| && a.pending == map[]
  {
    assert forall i <- a.pending :: false;
  }

  lemma OnlyFin(v: World)
    requires Protocol.Inv(v) && Apart(v) && v.snd.window != [] && v.snd.window[0].fin
    ensures |v.snd.window| == 1
    ensures |Payloads(Init(v.log))| + |v.snd.window[0].payload| == |Transmitted(v)|
    ensures DataIndex(WindowStart(v.snd)) == |Payloads(Init(v.log))|
  {
    hide Truthful, AckUpTo, Says, Init, OfText, ReceiverOk;
    var m, gone := v.snd.window[0], Gone(v);
    FinIsLast(v.snd.window, v.snd.isn, WindowStart(v.snd), Transmitted(v), v.snd.finSent, 0);
    assert v.snd.window == [m] && v.log == gone + [m];
    InitChain(v.log, v.snd.isn, Transmitted(v), v.snd.finSent);
    FinInit(v.log, m);
    Concat(gone, [m]);
  }

  lemma FinInit(log: seq<SenderMessage>, m: SenderMessage)
    requires log != [] && log[|log| - 1] == m && m.fin
    ensures Init(log) == log[..|log| - 1] != log
  {
  }

  /** What the segment with the FIN brings to a receiver that has everything before it. */
  lemma FinReceived(r: R.State, m: SenderMessage, isn: u32, from: nat, sent: seq<byte>)
    requires r.Valid() && r.InRange() && OfText(r.asm, sent) && |sent| + 2 < TWO31
    requires Says(m, isn, from, sent, true) && m.fin
    requires r.syn == 1 ==> r.zeroPoint == isn
    requires r.syn == 0 ==> from == 0
    requires DataIndex(from) <= |r.asm.out.accepted| && r.asm.pending == map[]
    requires r.fin == 1 || r.fin == r.needFin == 0
    requires r.fin == 1 || m.payload != [] ==> |r.asm.out.accepted| < |sent|
    ensures r.checkpoint < TWO63 && r.syn <= 1
    ensures var t := R.Receive(r, m);
      && t.syn == t.fin == 1 && t.asm.pending == map[]
      && |t.asm.out.accepted| >= Min(|sent|, r.asm.out.Tail())
      && (|t.asm.out.accepted| == |sent| ==> t.asm.out.closed)
  {
    hide Insert, Unwrap, Wrap, Asm.Known, Visible, Run;
    var o, at := R.Opened(r, m), DataIndex(from);
    if from == 0 {
      WrapZero(isn);
    }
    WrapUnwrap(from, isn, o.checkpoint);
    assert R.FirstIndex(o, m) == at;
    var sub := Substring(at, m.payload, true);
    var a := Arrival(r.asm, sub);
    ArrivalInserted(r.asm, sub, sent);
    PieceKeepsText(r.asm, sent, sub, a);
    InsertMeaning(r.asm, sub.first, sub.data, sub.last, a);
    NewlyPushed(r.asm, sub, a, sent);
    NothingPending(r.asm, sub, a);
    ArrivalCloses(r.asm, sent, sub);
  }

  lemma NothingPending(a: Asm, sub: Substring, t: Asm)
    requires a.Valid() && t.Valid() && sub.first <= |a.out.accepted| && a.pending == map[]
    requires t.Known().Keys == a.Known().Keys + Visible(a, sub.first, sub.data, sub.last).Keys
    requires a.out.accepted <= t.out.accepted
    ensures t.pending == map[]
  {
    var n := |t.out.accepted|;
    assert n !in t.Known();
    var visible := Visible(a, sub.first, sub.data, sub.last);
    assert forall i: nat | i in visible && n <= i :: n in visible;
    assert forall i: nat | i in t.Known() :: i < n;
    assert forall i <- t.pending :: i in t.Known();
  }

  /** One more copy of the FIN, with the window open, brings everything or as much as there is room for. */
  lemma DeliverFin(v: World)
    requires Live(v) && FinDue(v) && v.snd.window[0] in v.net
    requires v.rcv.asm.out.Valid() && v.rcv.asm.out.Available() > 0
    ensures var e := Deliver(v.snd.window[0]);
      && Enabled(v, e)
      && var u, sent := Next(v, e), |Transmitted(v)|;
      && Live(u) && SameStream(v, u) && u.snd == v.snd && u.snd.finSent && u.rcv.fin == u.rcv.syn == 1
      && if |u.rcv.asm.out.accepted| == sent then u.rcv.asm.out.closed
         else FinDue(u) && |v.rcv.asm.out.accepted| < |u.rcv.asm.out.accepted| < sent
  {
    hide Truthful, AckUpTo, Says, R.Receive, TimerInv, Apart;
    var m, from := v.snd.window[0], WindowStart(v.snd);
    SenderBound(v);
    AlwaysReady(v);
    DeliverLive(v, m);
    assert Says(m, v.snd.isn, from, Transmitted(v), v.snd.finSent);
    FinMeansEnded(m, v.snd.isn, from, Transmitted(v), v.snd.finSent);
    FinReceived(v.rcv, m, v.snd.isn, from, Transmitted(v));
  }

  lemma FinMeansEnded(m: SenderMessage, isn: u32, from: nat, sent: seq<byte>, ended: bool)
    requires Says(m, isn, from, sent, ended) && m.fin
    ensures ended
  {
  }

  /** The segment with the FIN again and again until the receiver has had room for all of it, and then one answer. */
  lemma {:induction false} FinRounds(v: World) returns (events: seq<Protocol.Event>)
    requires Live(v) && FinDue(v)
    ensures Runs(v, events)
    ensures var u := Protocol.After(v, events);
      && Live(u) && SameStream(v, u) && u.snd.window == []
      && u.rcv.asm.out.accepted == Transmitted(v) && u.rcv.asm.out.closed && u.rcv.fin == 1
    decreases |Transmitted(v)| - |v.rcv.asm.out.accepted|
  {
    hide Enabled, Next, Live, R.Reply, Runs, Protocol.After;
    NoEvents(v);
    var open := ReadAll(v);
    OneMore(v, [], open);
    var v1, wait := Next(v, open), Tick(Remaining(v.snd));
    Retransmits(v1);
    OneMore(v, [] + [open], wait);
    var v2, deliver := Next(v1, wait), Deliver(v.snd.window[0]);
    DeliverFin(v2);
    OneMore(v, [] + [open] + [wait], deliver);
    var v3 := Next(v2, deliver);
    var rest;
    if |v3.rcv.asm.out.accepted| == |Transmitted(v)| {
      rest := Answered(v3);
      AllAnswered(v3, Protocol.After(v3, rest));
    } else {
      rest := FinRounds(v3);
    }
    Continued(v, [] + [open] + [wait] + [deliver], rest);
    events := [] + [open] + [wait] + [deliver] + rest;
  }

  /** Everything transmitted has been pushed and acknowledged. */
  lemma AllAnswered(v: World, u: World)
    requires Live(v) && Live(u) && SameStream(v, u) && v.snd.finSent
    requires |v.rcv.asm.out.accepted| == |Transmitted(v)| && v.rcv.fin == v.rcv.syn == 1
    requires u.snd.lastAck == Acknowledged(v.rcv) && u.rcv.asm.out.accepted == v.rcv.asm.out.accepted
    ensures u.snd.window == [] && u.rcv.asm.out.accepted == Transmitted(v)
  {
    hide Truthful, AckUpTo, Says, TimerInv, Apart;
  }

  // All that is outstanding, and then all that is buffered.

  /** With nothing outstanding, no FIN was sent, and everything transmitted has arrived. */
  lemma NothingOutstanding(v: World)
    requires Recoverable(v) && v.snd.window == []
    ensures !v.snd.finSent && v.rcv.asm.out.accepted == Transmitted(v) && (v.snd.synSent ==> v.snd.lastAck > 0)
  {
    hide Says, Truthful, AckUpTo, Apart;
    AckWithinSent(v);
  }

  lemma AckBound(v: World)
    requires Live(v)
    ensures v.snd.lastAck <= v.snd.nextSeq
  {
    hide Says, Chain, Truthful, AckUpTo, Apart;
  }

  /** Everything transmitted has arrived and is acknowledged, the FIN included if it was sent. */
  ghost predicate AllArrived(v: World) {
    && v.snd.window == [] && v.rcv.asm.out.accepted == Transmitted(v)
    && (v.snd.finSent ==> v.rcv.asm.out.closed && v.rcv.fin == 1)
  }

  /** Rounds until nothing is outstanding. */
  lemma {:induction false} Recovers(v: World) returns (events: seq<Protocol.Event>)
    requires Recoverable(v)
    ensures Runs(v, events)
    ensures var u := Protocol.After(v, events);
      && Live(u) && SameStream(v, u) && AllArrived(u)
      && (!u.snd.finSent ==> Recoverable(u))
    decreases v.snd.nextSeq - v.snd.lastAck
  {
    hide Enabled, Next, Live;
    if v.snd.window == [] {
      events := [];
      NothingOutstanding(v);
    } else if v.snd.window[0].fin {
      FinFront(v);
      FrontEnded(v);
      events := FinRounds(v);
    } else {
      var round := Round(v);
      var u := Protocol.After(v, round);
      AckBound(u);
      var rest := Recovers(u);
      Continued(v, round, rest);
      events := round + rest;
    }
  }

  lemma FrontEnded(v: World)
    requires Live(v) && v.snd.window != [] && v.snd.window[0].fin
    ensures v.snd.finSent
  {
    hide Truthful, AckUpTo, Apart;
  }

  /** A sender with nothing in flight, an open window and something to send makes progress. */
  lemma PushProgress(s: S.State)
    requires s.input.Valid() && !s.finSent
    requires s.synSent ==> s.seqInFlight == 0 && s.windowSize > 0 && (s.input.Buffered() != [] || s.input.closed)
    ensures var t := S.Push(s).0;
      && t.input.accepted == s.input.accepted && t.input.closed == s.input.closed
      && s.input.popped <= t.input.popped && t.synSent
      && (t.finSent || !s.synSent || s.input.popped < t.input.popped)
      && (t.finSent ==> t.input.popped == |t.input.accepted|)
  {
    hide S.Wanted, S.PushOne, S.PushData, Payloads;
    PushOneTakes(s);
    var (t, syn) := if s.synSent then (s, []) else S.PushOne(s);
    PushDataLength(t);
    PushFinTakesNothing(S.PushData(t).0);
    FinMeansDrained(s);
    DataFinMeansDrained(t);
    FinMeansDrained(S.PushData(t).0);
    if s.synSent {
      DataOrFin(s);
    }
  }

  lemma DataOrFin(s: S.State)
    requires s.input.Valid() && !s.finSent && s.synSent && s.seqInFlight == 0 && s.windowSize > 0
    requires s.input.Buffered() != [] || s.input.closed
    ensures var (u, data) := S.PushData(s); s.input.popped < u.input.popped || S.PushFin(u).0.finSent
  {
    if S.CanPushData(s) {
      PushDataLength(S.PushOne(s).0);
    }
  }

  lemma FinMeansDrained(s: S.State)
    requires s.input.Valid() && (s.finSent ==> s.input.popped == |s.input.accepted|)
    ensures var t := S.PushOne(s).0; t.finSent ==> t.input.popped == |t.input.accepted|
  {
  }

  lemma {:induction false} DataFinMeansDrained(s: S.State)
    requires s.input.Valid() && s.synSent && (s.finSent ==> s.input.popped == |s.input.accepted|)
    ensures var t := S.PushData(s).0; t.finSent ==> t.input.popped == |t.input.accepted|
    decreases |s.input.accepted| - s.input.popped
  {
    hide S.PushOne;
    if S.CanPushData(s) {
      FinMeansDrained(s);
      DataFinMeansDrained(S.PushOne(s).0);
    }
  }

  /** There is nothing left that a sender without a FIN would send. */
  predicate Drained(s: S.State) {
    s.synSent && s.input.popped == |s.input.accepted| && !s.input.closed
  }

  /** What recovery leaves alone of the application's side. */
  predicate SameInput(v: World, u: World) {
    && u.snd.input.accepted == v.snd.input.accepted && u.snd.input.closed == v.snd.input.closed
    && v.snd.input.popped <= u.snd.input.popped <= |u.snd.input.accepted|
  }

  /** A push into the open window. */
  lemma PushesOn(v: World)
    requires Recoverable(v) && v.snd.window == [] && !Drained(v.snd)
    ensures Enabled(v, Push)
    ensures var u := Next(v, Push);
      && Recoverable(u) && SameInput(v, u) && u.snd.synSent
      && (u.snd.finSent || !v.snd.synSent || v.snd.input.popped < u.snd.input.popped)
      && (u.snd.finSent ==> u.snd.input.popped == |u.snd.input.accepted|)
  {
    hide S.Push, Protocol.Inv, TimerInv, Apart, Transmitted;
    NothingOutstanding(v);
    PushOk(v);
    NextApart(v, Push);
    NextKeepsTimer(v, Push);
    WindowOpen(v);
    PushProgress(v.snd);
  }

  lemma InputBound(v: World)
    requires Live(v)
    ensures v.snd.input.popped <= |v.snd.input.accepted|
  {
    hide Truthful, AckUpTo, Says, Chain;
  }

  lemma WindowOpen(v: World)
    requires Live(v) && v.snd.window == []
    ensures v.snd.input.Valid() && v.snd.seqInFlight == 0 && (v.snd.lastAck > 0 ==> v.snd.windowSize > 0)
  {
    hide Truthful, AckUpTo, Says, Chain;
  }

  /** Everything the application has written gets across, and the FIN behind it if the stream is closed. */
  ghost predicate Complete(v: World, u: World) {
    && SameInput(v, u) && AllArrived(u)
    && (v.snd.finSent ==> u.log == v.log)
    && (!v.snd.finSent ==> u.snd.input.popped == |u.snd.input.accepted|)
    && (!u.snd.finSent ==> !u.snd.input.closed)
  }

  /** Recovering, and pushing on as long as there is something to push. */
  lemma {:induction false} Completes(v: World) returns (events: seq<Protocol.Event>)
    requires Recoverable(v)
    ensures Runs(v, events)
    ensures Complete(v, Protocol.After(v, events))
    decreases !v.snd.finSent, !v.snd.synSent, |v.snd.input.accepted| - v.snd.input.popped
  {
    hide Enabled, Next, Live;
    InputBound(v);
    var before := Recovers(v);
    var u := Protocol.After(v, before);
    if u.snd.finSent || Drained(u.snd) {
      events := before;
    } else {
      PushesOn(u);
      OneMore(v, before, Push);
      var rest := Completes(Next(u, Push));
      Continued(v, before + [Push], rest);
      events := before + [Push] + rest;
    }
  }

  lemma LostLive(v: World)
    requires Protocol.Inv(v) && TimerInv(v.snd) && Apart(v) && v.rcv.asm.out.capacity > 0
    ensures Live(Lost(v)) && SameStream(v, Lost(v))
  {
    hide Truthful, AckUpTo, Says, Chain, OfText, TimerInv;
    LostOk(v);
  }

  lemma LostAfterRun(w: World, events: seq<Protocol.Event>)
    requires Starts(w, events) && Runs(w, events) && w.rcv.asm.out.capacity > 0
    requires Protocol.After(w, events).rcv.asm.end.Unknown?
    ensures var v := Protocol.After(w, events); Recoverable(Lost(v)) && SameStream(v, Lost(v))
  {
    hide Enabled, Next, TimerInv, Protocol.Inv, Apart, Live;
    InvAlways(w, events);
    TimeoutDoubles(w, events);
    RunKeepsCapacity(w, events);
    ApartAlways(w, events);
    LostLive(Protocol.After(w, events));
  }

  /**
   * After every run in which no FIN has arrived yet, if the channel then loses everything it carries, there is a way on
   * that sends nothing new, delivers all that was transmitted, closes the receiver's stream if the FIN was sent, and
   * empties the queue. Whatever gets delivered on this way was put on the channel on it.
   */
  lemma EveryRunRecovers(w: World, events: seq<Protocol.Event>) returns (more: seq<Protocol.Event>)
    requires Starts(w, events) && Runs(w, events) && w.rcv.asm.out.capacity > 0
    requires Protocol.After(w, events).rcv.asm.end.Unknown?
    ensures var v := Protocol.After(w, events);
      && Runs(Lost(v), more)
      && var u := Protocol.After(Lost(v), more);
      AllArrived(u) && SameStream(v, u)
  {
    hide Enabled, Next, Live;
    LostAfterRun(w, events);
    more := Recovers(Lost(Protocol.After(w, events)));
  }

  /** The same with pushes: unless the FIN was already sent, all that was written gets across as well, and a FIN. */
  lemma EveryRunCompletes(w: World, events: seq<Protocol.Event>) returns (more: seq<Protocol.Event>)
    requires Starts(w, events) && Runs(w, events) && w.rcv.asm.out.capacity > 0
    requires Protocol.After(w, events).rcv.asm.end.Unknown?
    ensures var v := Protocol.After(w, events); Runs(Lost(v), more) && Complete(v, Protocol.After(Lost(v), more))
  {
    hide Enabled, Next, Live;
    LostAfterRun(w, events);
    more := Completes(Lost(Protocol.After(w, events)));
  }

  lemma ApartAlways(w: World, events: seq<Protocol.Event>)
    requires Starts(w, events) && Runs(w, events)
    ensures Apart(Protocol.After(w, events))
  {
    hide Protocol.Inv, Next, Enabled, Apart;
    var isn, rto, sendCapacity: nat, receiveCapacity: nat :|
      receiveCapacity < 0x2000_0000_0000_0000 && w == Initial(isn, rto, sendCapacity, receiveCapacity) &&
        Runs(w, events);
    InitialOk(isn, rto, sendCapacity, receiveCapacity);
    InitialApart(isn, rto, sendCapacity, receiveCapacity);
    RunApart(w, events);
  }

  /**
   * With a sending stream of at most 128 bytes, whose pushes lose nothing, that means: whatever the application has
   * written before the FIN was sent, there is a way on that ends with the receiver having pushed exactly these bytes.
   */
  lemma EverythingWrittenArrives(w: World, events: seq<Protocol.Event>) returns (more: seq<Protocol.Event>)
    requires Starts(w, events) && Runs(w, events) && w.rcv.asm.out.capacity > 0
    requires w.snd.input.capacity <= READ_BYTES_SIZE && !Protocol.After(w, events).snd.finSent
    ensures var v := Protocol.After(w, events);
      && Runs(Lost(v), more)
      && var u := Protocol.After(Lost(v), more);
      && u.rcv.asm.out.accepted == v.snd.input.accepted && u.snd.window == []
      && (v.snd.input.closed ==> u.rcv.asm.out.closed && u.rcv.fin == 1)
  {
    hide Enabled, Next, TimerInv, Protocol.Inv;
    var v := Protocol.After(w, events);
    NoEndYet(w, events);
    more := EveryRunCompletes(w, events);
    InvAlways(w, events);
    LostOk(v);
    SmallStreamIsCareful(w, events);
    WrittenArrivesInOrder(w, events);
    RunKeepsInputCapacity(w, events);
    SmallStreamIsCareful(Lost(v), more);
    RunConserves(Lost(v), more);
    var acc := v.snd.input.accepted;
    assert acc[..|acc|] == acc;
  }

  lemma NoEndYet(w: World, events: seq<Protocol.Event>)
    requires Starts(w, events) && Runs(w, events) && !Protocol.After(w, events).snd.finSent
    ensures Protocol.After(w, events).rcv.asm.end.Unknown?
  {
    hide Truthful, AckUpTo, SenderOk, Next, Enabled;
    InvAlways(w, events);
  }

  lemma {:induction false} RunKeepsInputCapacity(w: World, events: seq<Protocol.Event>)
    requires Runs(w, events) && w.snd.input.Valid()
    ensures var t := Protocol.After(w, events).snd.input; t.Valid() && t.capacity == w.snd.input.capacity
    decreases |events|
  {
    hide Next;
    if events != [] {
      CapacityStays(w, events[0]);
      RunKeepsInputCapacity(Next(w, events[0]), events[1..]);
    }
  }

  lemma NextKeepsCapacity(w: World, e: Protocol.Event)
    requires Protocol.Inv(w) && Enabled(w, e)
    ensures Next(w, e).rcv.asm.out.capacity == w.rcv.asm.out.capacity
  {
    hide R.Receive, Protocol.Inv;
    if e.Deliver? {
      CapacityKept(w, e.m);
    }
  }

  lemma {:induction false} RunKeepsCapacity(w: World, events: seq<Protocol.Event>)
    requires Protocol.Inv(w) && Runs(w, events)
    ensures Protocol.After(w, events).rcv.asm.out.capacity == w.rcv.asm.out.capacity
    decreases |events|
  {
    hide Protocol.Inv, Enabled, Next;
    if events != [] {
      NextKeepsCapacity(w, events[0]);
      NextOk(w, events[0]);
      RunKeepsCapacity(Next(w, events[0]), events[1..]);
    }
  }
}
