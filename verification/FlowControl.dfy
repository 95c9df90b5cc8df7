/** Flow control: what the sender transmits fits into the receiver's stream, unless an old acknowledgement overtakes. */
module FlowControl {
  import opened MachineInts
  import opened Wrap32
  import opened ByteStreams
  import opened Assembly
  import opened OneStream
  import opened Segments
  import opened SenderLaws
  import opened Protocol
  import opened EndToEnd
  import opened Handshake

  /** The first sequence number that the receiver has no room for; its FIN takes none. */
  function Edge(r: R.State): nat {
    r.asm.out.Tail() + 1 + r.fin
  }

  /** An acknowledgement promises nothing beyond the edge. */
  ghost predicate AckFits(a: ReceiverMessage, isn: u32, r: R.State) {
    a.ackno.Some? ==> exists n: nat ::
      0 < n <= Acknowledged(r) && a.ackno.value == Wrap(n % TWO64, isn) && n + a.windowSize <= Edge(r)
  }

  /** The payload of the segment with the SYN, which is sent before any window is known. */
  function Ahead(log: seq<SenderMessage>): nat {
    if log == [] then 0 else |log[0].payload|
  }

  /** Everything transmitted is something that the receiver has room for, apart from what went along with the SYN. */
  predicate Fits(w: World) {
    |Transmitted(w)| <= Max(w.rcv.asm.out.Tail(), Ahead(w.log))
  }

  /** The sender does not believe in room that the receiver does not have. */
  predicate EdgeOk(w: World) {
    if w.snd.lastAck == 0 then w.snd.windowSize == 0 else w.snd.lastAck + w.snd.windowSize <= Edge(w.rcv)
  }

  ghost predicate Flow(w: World) {
    (forall a <- w.acks :: AckFits(a, w.snd.isn, w.rcv)) && EdgeOk(w) && Fits(w)
  }

  /**
   * The acknowledgement is not older than what the sender knows already, or its window, counted from there, is still
   * not too large.
   */
  predicate Harmless(w: World, e: Protocol.Event) {
    e.DeliverAck? && e.a.ackno.Some? ==>
      || w.snd.lastAck <= Unwrap(e.a.ackno.value, w.snd.isn, w.snd.lastAck)
      || w.snd.lastAck + e.a.windowSize <= Edge(w.rcv)
  }

  ghost predicate AllHarmless(w: World, events: seq<Protocol.Event>)
    requires Runs(w, events)
    decreases |events|
  {
    events != [] ==> Harmless(w, events[0]) && AllHarmless(Next(w, events[0]), events[1..])
  }

  ghost predicate EdgeAlways(w: World, events: seq<Protocol.Event>)
    requires Runs(w, events)
    decreases |events|
  {
    EdgeOk(w) && (events != [] ==> EdgeAlways(Next(w, events[0]), events[1..]))
  }

  lemma AcksStillFit(acks: set<ReceiverMessage>, isn: u32, r: R.State, t: R.State)
    requires forall a <- acks :: AckFits(a, isn, r)
    requires Acknowledged(r) <= Acknowledged(t) && Edge(r) <= Edge(t)
    ensures forall a <- acks :: AckFits(a, isn, t)
  {
  }

  /** The first push sends the payload of one segment at most. */
  lemma FirstPush(s: S.State)
    requires s.input.Valid() && !s.synSent && !s.finSent && s.windowSize == s.seqInFlight == 0
    ensures var out := S.Push(s).1; out != [] && |Payloads(out)| == |out[0].payload|
  {
    PushOneTakes(s);
    var (t, syn) := S.PushOne(s);
    SenderLaws.One(syn[0]);
    assert S.PushData(t) == (t, []);
    PushFinTakesNothing(t);
    Concat(syn + [], S.PushFin(t).1);
    assert syn + [] == syn;
  }

  /** What a push adds stays within the edge. */
  lemma PushFits(w: World)
    requires Protocol.Inv(w) && Flow(w) && Enabled(w, Push)
    ensures Flow(Next(w, Push))
  {
    hide S.Push, Says, Chain, Truthful, AckUpTo, OfText, AckFits, R.State.Valid;
    SenderBound(w);
    var s, sent := w.snd, Transmitted(w);
    var (t, out) := S.Push(s);
    PushKeeps(s, sent);
    Concat(w.log, out);
    if !s.synSent {
      FirstPush(s);
      assert w.log + out == out;
    } else if s.finSent {
      NothingAfterFin(s);
      assert w.log + [] == w.log;
    } else if s.seqInFlight > s.windowSize {
      OverrunSendsOnlyFin(s, sent);
      OnlyFin(out);
    } else {
      NoFinCounted(w);
    }
  }

  lemma OnlyFin(out: seq<SenderMessage>)
    requires out != [] ==> |out| == 1 && out[0].payload == []
    ensures Payloads(out) == []
  {
    if out != [] {
      assert out == [out[0]];
      SenderLaws.One(out[0]);
    }
  }

  lemma NoFinCounted(w: World)
    requires Protocol.Inv(w) && !w.snd.finSent
    ensures w.rcv.fin == 0
  {
    hide Says, Chain, Truthful, AckUpTo;
  }

  lemma DeliverFits(w: World, m: SenderMessage)
    requires Protocol.Inv(w) && Flow(w) && m in w.net && Enabled(w, Deliver(m))
    ensures Flow(Next(w, Deliver(m)))
  {
    hide R.Receive, Says, Chain, Truthful, AckUpTo, AckFits, R.State.Valid, OfText, SenderLaws.Inv;
    SenderBound(w);
    AlwaysReady(w);
    Delivered(w.rcv, m, w.snd.isn, Transmitted(w), w.snd.finSent);
    SameTail(w.rcv, m, Transmitted(w));
    AcksStillFit(w.acks, w.snd.isn, w.rcv, R.Receive(w.rcv, m));
  }

  lemma SameTail(r: R.State, m: SenderMessage, sent: seq<byte>)
    requires r.checkpoint < TWO63 && r.syn <= 1
    ensures var t := R.Receive(r, m); t.asm.out.Tail() == r.asm.out.Tail() && r.fin <= t.fin
  {
    hide Unwrap, Visible, Run, Slice;
  }

  lemma AnswerFits(w: World)
    requires Protocol.Inv(w) && Flow(w) && Enabled(w, Acknowledge)
    ensures Flow(Next(w, Acknowledge))
  {
    hide Says, Chain, Truthful, AckUpTo, OfText, SenderLaws.Inv, Wrap;
    var a, n := R.Reply(w.rcv), Acknowledged(w.rcv);
    assert a.ackno.Some? ==> 0 < n && a.ackno.value == Wrap(n % TWO64, w.snd.isn) && n + a.windowSize <= Edge(w.rcv);
    assert AckFits(a, w.snd.isn, w.rcv);
  }

  /**
   * An acknowledgement that is not overtaken sets what the sender knows to what it says; another one only the window.
   */
  lemma AckSets(s: S.State, sent: seq<byte>, a: ReceiverMessage, n: nat)
    requires SenderLaws.Inv(s, sent) && InRange(s) && s.nextSeq < TWO31 && n <= s.nextSeq
    requires a.ackno == Some(Wrap(n % TWO64, s.isn))
    ensures var t := S.ReceiveAck(s, a.ackno.value, a.windowSize);
      && Unwrap(a.ackno.value, s.isn, s.lastAck) == n
      && t.lastAck == Max(s.lastAck, n) && t.windowSize == a.windowSize && t.isn == s.isn
  {
    hide Chain, Unwrap, Wrap, S.ReceiveAck;
    WrapUnwrap(n, s.isn, s.lastAck);
    ReceiveAckKeeps(s, sent, a.ackno.value, a.windowSize);
  }

  lemma AckArrives(w: World, a: ReceiverMessage)
    requires Protocol.Inv(w) && Flow(w) && Enabled(w, DeliverAck(a))
    ensures EdgeOk(Next(w, DeliverAck(a))) <==> Harmless(w, DeliverAck(a))
    ensures Harmless(w, DeliverAck(a)) ==> Flow(Next(w, DeliverAck(a)))
  {
    hide Protocol.Inv, Unwrap, Wrap, S.ReceiveAck;
    SentIsSmall(w);
    AckWithinSent(w);
    var n: nat :| 0 < n <= Acknowledged(w.rcv) && a.ackno.value == Wrap(n % TWO64, w.snd.isn)
      && n + a.windowSize <= Edge(w.rcv);
    AckSets(w.snd, Transmitted(w), a, n);
  }

  lemma SentIsSmall(w: World)
    requires Protocol.Inv(w)
    ensures SenderLaws.Inv(w.snd, Transmitted(w)) && InRange(w.snd) && w.snd.nextSeq < TWO31
  {
    SenderBound(w);
  }

  lemma NextFits(w: World, e: Protocol.Event)
    requires Protocol.Inv(w) && Flow(w) && Enabled(w, e)
    ensures EdgeOk(Next(w, e)) <==> Harmless(w, e)
    ensures Harmless(w, e) ==> Flow(Next(w, e))
  {
    hide Protocol.Inv, AckFits, S.Push, S.ReceiveAck, S.Tick, R.Receive, Unwrap;
    match e
    case Push => PushFits(w);
    case Deliver(m) => DeliverFits(w, m);
    case Acknowledge => AnswerFits(w);
    case DeliverAck(a) => AckArrives(w, a);
    case ReadOut(n) => AcksStillFit(w.acks, w.snd.isn, w.rcv, Next(w, e).rcv);
    case Tick(ms) => TickKeepsWindow(w.snd, ms);
    case _ =>
  }

  lemma TickKeepsWindow(s: S.State, ms: u64)
    ensures var t := S.Tick(s, ms).0; t.lastAck == s.lastAck && t.windowSize == s.windowSize && t.isn == s.isn
  {
  }

  lemma {:induction false} RunFits(w: World, events: seq<Protocol.Event>)
    requires Protocol.Inv(w) && Flow(w) && Runs(w, events)
    ensures EdgeAlways(w, events) <==> AllHarmless(w, events)
    ensures AllHarmless(w, events) ==> Flow(Protocol.After(w, events))
    decreases |events|
  {
    hide Protocol.Inv, Flow, Enabled, Next, Harmless, EdgeOk;
    assert EdgeOk(w) by { FlowHasEdge(w); }
    if events != [] {
      NextOk(w, events[0]);
      NextFits(w, events[0]);
      if Harmless(w, events[0]) {
        RunFits(Next(w, events[0]), events[1..]);
      }
    }
  }

  lemma FlowHasEdge(w: World)
    requires Flow(w)
    ensures EdgeOk(w)
  {
  }

  /**
   * In every run the sender always knows a window that the receiver has room for, if and only if no acknowledgement
   * is overtaken by a newer one so far that its window has been used up since; and then it transmits only what the
   * receiver has room for, apart from the payload of the very first segment.
   */
  lemma TransmittedFits(w: World, events: seq<Protocol.Event>)
    requires Starts(w, events) && Runs(w, events)
    ensures EdgeAlways(w, events) <==> AllHarmless(w, events)
    ensures AllHarmless(w, events) ==> Fits(Protocol.After(w, events))
  {
    hide Protocol.Inv, Next, Enabled, AllHarmless, EdgeAlways;
    var isn, rto, sendCapacity: nat, receiveCapacity: nat :|
      receiveCapacity < 0x2000_0000_0000_0000 && w == Initial(isn, rto, sendCapacity, receiveCapacity) &&
        Runs(w, events);
    InitialOk(isn, rto, sendCapacity, receiveCapacity);
    assert Flow(w);
    RunFits(w, events);
  }

  /** Then nothing that arrives is cut off: every byte of a delivered segment is known afterwards. */
  lemma NothingCutOff(w: World, m: SenderMessage) returns (from: nat)
    requires Protocol.Inv(w) && Fits(w) && Ahead(w.log) <= w.rcv.asm.out.Tail()
    requires m in w.net && Enabled(w, Deliver(m)) && Next(w, Deliver(m)).rcv.syn == 1
    ensures Says(m, w.snd.isn, from, Transmitted(w), w.snd.finSent)
    ensures forall i: nat | Covers(DataIndex(from), m.payload, i) :: i in Next(w, Deliver(m)).rcv.asm.Known()
  {
    hide Chain, SenderLaws.Inv, AckUpTo, Insert, R.State.Valid, R.Receive, Merged, OfText, PieceOf, Asm.Known, Visible;
    var r, sent := w.rcv, Transmitted(w);
    SenderBound(w);
    AlwaysReady(w);
    from :| Says(m, w.snd.isn, from, sent, w.snd.finSent);
    ArrivesAt(r, m, w.snd.isn, from, sent, w.snd.finSent);
    var sub := Substring(DataIndex(from), m.payload, m.fin);
    ArrivalInserted(r.asm, sub, sent);
    PieceKeepsText(r.asm, sent, sub, Arrival(r.asm, sub));
    AllInside(r.asm, sub, sent);
  }

  lemma ArrivesAt(r: R.State, m: SenderMessage, isn: u32, from: nat, sent: seq<byte>, ended: bool)
    requires r.Valid() && r.InRange() && OfText(r.asm, sent) && |sent| + 2 < TWO31
    requires Says(m, isn, from, sent, ended)
    requires r.syn == 1 ==> r.zeroPoint == isn
    ensures r.checkpoint < TWO63 && r.syn <= 1
    ensures var t, sub := R.Receive(r, m), Substring(DataIndex(from), m.payload, m.fin);
      t.syn == 1 ==> t.asm == Arrival(r.asm, sub) && PieceOf(sent, sub)
  {
    hide Unwrap, Wrap, Insert;
    var o := R.Opened(r, m);
    if o.syn == 1 {
      if from == 0 {
        WrapZero(isn);
      }
      WrapUnwrap(from, isn, o.checkpoint);
    }
  }

  lemma AllInside(a: Asm, sub: Substring, text: seq<byte>)
    requires OfText(a, text) && PieceOf(text, sub) && |text| <= a.out.Tail()
    ensures forall i: nat | Covers(sub.first, sub.data, i) ::
      i in a.Known() || i in Visible(a, sub.first, sub.data, sub.last)
  {
  }

  // A run in which an old acknowledgement, with a window that has been used since, arrives last.

  function Front(a: byte, b: byte): SenderMessage {
    SenderMessage(1, false, [a, b], false)
  }

  function Back(c: byte, d: byte): SenderMessage {
    SenderMessage(3, false, [c, d], false)
  }

  function Full(a: byte, b: byte): R.State {
    R.State(Asm(Stream(3, [a, b], 0, false), map[], Unknown), 0, 2, 1, 1, 0, 0, false)
  }

  function StateAt(k: nat, a: byte, b: byte, c: byte, d: byte): World {
    var w, net, log := Established(10, 3), {Syn(), Front(a, b)}, [Syn(), Front(a, b)];
    var acks := w.acks + {ReceiverMessage(Some(3), 1, false)};
    var sent := Sending(10, [a, b], 2, false, 2, 3, 3, 1, false, [Front(a, b)]);
    if k == 0 then w
    else if k == 1 then w.(snd := Sending(10, [a, b], 0, false, 0, 1, 3, 1, false, []))
    else if k == 2 then World(sent, w.rcv, net, w.acks, log)
    else if k == 3 then World(sent, Full(a, b), net, w.acks, log)
    else if k == 4 then World(sent, Full(a, b), net, acks, log)
    else if k == 5 then World(Sending(10, [a, b], 2, false, 0, 3, 1, 3, false, []), Full(a, b), net, acks, log)
    else if k == 6 then World(Sending(10, [a, b], 2, false, 0, 3, 3, 3, false, []), Full(a, b), net, acks, log)
    else if k == 7 then World(Sending(10, [a, b, c, d], 2, false, 0, 3, 3, 3, false, []), Full(a, b), net, acks, log)
    else World(Sending(10, [a, b, c, d], 4, false, 2, 5, 3, 3, false, [Back(c, d)]), Full(a, b), net + {Back(c, d)},
           acks, log + [Back(c, d)])
  }

  function EventAt(k: nat, a: byte, b: byte, c: byte, d: byte): Protocol.Event {
    if k == 0 then Write([a, b])
    else if k == 1 then Push
    else if k == 2 then Deliver(Front(a, b))
    else if k == 3 then Acknowledge
    else if k == 4 then DeliverAck(ReceiverMessage(Some(3), 1, false))
    else if k == 5 then DeliverAck(ReceiverMessage(Some(1), 3, false))
    else if k == 6 then Write([c, d])
    else Push
  }

  lemma PushesFront(a: byte, b: byte)
    ensures S.Push(Sending(10, [a, b], 0, false, 0, 1, 3, 1, false, []))
      == (Sending(10, [a, b], 2, false, 2, 3, 3, 1, false, [Front(a, b)]), [Front(a, b)])
  {
    var s := Sending(10, [a, b], 0, false, 0, 1, 3, 1, false, []);
    var t := Sending(10, [a, b], 2, false, 2, 3, 3, 1, false, [Front(a, b)]);
    assert s.input.Peek() == [a, b] && s.input.Peek()[..2] == [a, b] && s.window + [Front(a, b)] == [Front(a, b)];
    assert S.PushOne(s) == (t, [Front(a, b)]);
    assert S.PushData(t) == (t, []) && S.PushFin(t) == (t, []);
    assert S.PushData(s) == (t, [Front(a, b)] + []);
    assert [] + ([Front(a, b)] + []) + [] == [Front(a, b)];
  }

  lemma PushesBack(a: byte, b: byte, c: byte, d: byte)
    ensures S.Push(Sending(10, [a, b, c, d], 2, false, 0, 3, 3, 3, false, []))
      == (Sending(10, [a, b, c, d], 4, false, 2, 5, 3, 3, false, [Back(c, d)]), [Back(c, d)])
  {
    var s := Sending(10, [a, b, c, d], 2, false, 0, 3, 3, 3, false, []);
    var t := Sending(10, [a, b, c, d], 4, false, 2, 5, 3, 3, false, [Back(c, d)]);
    assert [a, b, c, d][2..] == [c, d];
    assert s.input.Peek() == [c, d] && s.input.Peek()[..2] == [c, d] && s.window + [Back(c, d)] == [Back(c, d)];
    assert S.PushOne(s) == (t, [Back(c, d)]);
    assert S.PushData(t) == (t, []) && S.PushFin(t) == (t, []);
    assert S.PushData(s) == (t, [Back(c, d)] + []);
    assert [] + ([Back(c, d)] + []) + [] == [Back(c, d)];
  }

  lemma InsertsFront(a: byte, b: byte)
    ensures Insert(Receiving(3, 0, 1, 0, false, Unknown).asm, 0, [a, b], false) == Full(a, b).asm
  {
    hide Insert;
    var s, known := Receiving(3, 0, 1, 0, false, Unknown).asm, map[0 := a, 1 := b];
    assert Visible(s, 0, [a, b], false) == known && map[] + known == known;
    InsertIs(s, 0, [a, b], false, known, [a, b], map[]);
    assert [] + [a, b] == [a, b];
  }

  lemma ReceivesFront(a: byte, b: byte)
    ensures R.Receive(Receiving(3, 0, 1, 0, false, Unknown), Front(a, b)) == Full(a, b)
    ensures R.Reply(Full(a, b)) == ReceiverMessage(Some(3), 1, false)
  {
    hide Insert;
    InsertsFront(a, b);
    assert R.FirstIndex(Receiving(3, 0, 1, 0, false, Unknown), Front(a, b)) == 0;
  }

  lemma AcksFront(a: byte, b: byte)
    ensures S.ReceiveAck(Sending(10, [a, b], 2, false, 2, 3, 3, 1, false, [Front(a, b)]), 3, 1)
      == Sending(10, [a, b], 2, false, 0, 3, 1, 3, false, [])
    ensures S.ReceiveAck(Sending(10, [a, b], 2, false, 0, 3, 1, 3, false, []), 1, 3)
      == Sending(10, [a, b], 2, false, 0, 3, 3, 3, false, [])
  {
    assert [Front(a, b)][1..] == [];
    assert S.DropAcked([], 0, 1, 3) == [];
  }

  lemma StepFollows(k: nat, a: byte, b: byte, c: byte, d: byte)
    requires k < 8
    ensures Enabled(StateAt(k, a, b, c, d), EventAt(k, a, b, c, d))
    ensures Next(StateAt(k, a, b, c, d), EventAt(k, a, b, c, d)) == StateAt(k + 1, a, b, c, d)
  {
    hide S.Push, S.ReceiveAck, R.Receive;
    PushesFront(a, b);
    PushesBack(a, b, c, d);
    ReceivesFront(a, b);
    AcksFront(a, b);
    assert [] + [a, b][..2] == [a, b] && [a, b] + [c, d][..2] == [a, b, c, d];
    assert [Syn()] + [Front(a, b)] == [Syn(), Front(a, b)];
  }

  lemma {:induction false} RunTo(k: nat, a: byte, b: byte, c: byte, d: byte) returns (events: seq<Protocol.Event>)
    requires k <= 8
    ensures Runs(Start(10, 3), events) && Protocol.After(Start(10, 3), events) == StateAt(k, a, b, c, d)
  {
    hide Enabled, Next, EventAt, Runs, Protocol.After;
    if k == 0 {
      events := Opening(10, 3);
    } else {
      hide StateAt;
      var before := RunTo(k - 1, a, b, c, d);
      StepFollows(k - 1, a, b, c, d);
      OneMore(Start(10, 3), before, EventAt(k - 1, a, b, c, d));
      events := before + [EventAt(k - 1, a, b, c, d)];
    }
  }

  /** A run in which four bytes are sent to a receiver that has room for three, since an old window is taken for new. */
  lemma OldWindowOverruns(a: byte, b: byte, c: byte, d: byte) returns (events: seq<Protocol.Event>)
    ensures Runs(Start(10, 3), events) && Starts(Start(10, 3), events)
    ensures var v := Protocol.After(Start(10, 3), events);
      && Transmitted(v) == [a, b, c, d] && v.rcv.asm.out.Tail() == 3 && Ahead(v.log) == 0 && !Fits(v)
  {
    hide Runs, Protocol.After;
    events := RunTo(8, a, b, c, d);
    Sums(a, b, c, d);
  }

  lemma Sums(a: byte, b: byte, c: byte, d: byte)
    ensures Payloads([Syn(), Front(a, b)] + [Back(c, d)]) == [a, b, c, d]
  {
    Concat([Syn()], [Front(a, b)]);
    assert [Syn()] + [Front(a, b)] == [Syn(), Front(a, b)];
    Concat([Syn(), Front(a, b)], [Back(c, d)]);
    SenderLaws.One(Syn());
    SenderLaws.One(Front(a, b));
    SenderLaws.One(Back(c, d));
  }
}
