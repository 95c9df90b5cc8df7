/** What every run of the two endpoints over the lossy channel guarantees, from the initial state on. */
module EndToEnd {
  import opened MachineInts
  import opened Wrap32
  import opened ByteStreams
  import opened Assembly
  import opened OneStream
  import opened Segments
  import opened SenderLaws
  import opened Protocol

  ghost predicate Starts(w: World, events: seq<Protocol.Event>) {
    exists isn, rto, sendCapacity: nat, receiveCapacity: nat ::
      receiveCapacity < 0x2000_0000_0000_0000 && w == Initial(isn, rto, sendCapacity, receiveCapacity) &&
        Runs(w, events)
  }

  lemma InvAlways(w: World, events: seq<Protocol.Event>)
    requires Starts(w, events)
    ensures Runs(w, events) && Protocol.Inv(w) && Protocol.Inv(Protocol.After(w, events))
  {
    var isn, rto, sendCapacity: nat, receiveCapacity: nat :|
      receiveCapacity < 0x2000_0000_0000_0000 && w == Initial(isn, rto, sendCapacity, receiveCapacity) &&
        Runs(w, events);
    InitialOk(isn, rto, sendCapacity, receiveCapacity);
    RunOk(w, events);
  }

  /**
   * The main guarantee, for every run, FINs and retransmissions included: the receiver has pushed a prefix of the
   * bytes the sender has transmitted, and what it stores for later is in its right place.
   */
  lemma DeliveredInOrder(w: World, events: seq<Protocol.Event>)
    requires Starts(w, events)
    ensures var v := Protocol.After(w, events);
      && v.rcv.asm.out.accepted <= Transmitted(v)
      && forall i <- v.rcv.asm.pending :: i < |Transmitted(v)| && v.rcv.asm.pending[i] == Transmitted(v)[i]
  {
    InvAlways(w, events);
  }

  /** In every run, the receiver acknowledges nothing that was not sent, and at most one fresh FIN is sent. */
  lemma NothingUnsentAcknowledged(w: World, events: seq<Protocol.Event>)
    requires Starts(w, events)
    ensures var v := Protocol.After(w, events);
      && (forall a <- v.acks :: AckUpTo(a, v.snd.isn, v.snd.nextSeq))
      && v.snd.lastAck <= Acknowledged(v.rcv) <= v.snd.nextSeq
      && FinCount(v.log) <= 1
  {
    InvAlways(w, events);
    AckWithinSent(Protocol.After(w, events));
  }

  // Conservation between the application and the transmitted bytes.

  ghost predicate Conserved(w: World) {
    && w.snd.input.popped <= |w.snd.input.accepted|
    && Transmitted(w) == w.snd.input.accepted[..w.snd.input.popped]
  }

  ghost predicate CarefulPushes(w: World, events: seq<Protocol.Event>)
    requires Runs(w, events)
    decreases |events|
  {
    events != [] ==>
      && (events[0] == Push ==> !AsksTooMuch(w.snd))
      && CarefulPushes(Next(w, events[0]), events[1..])
  }

  lemma PushConservesWorld(w: World)
    requires Protocol.Inv(w) && Conserved(w) && Enabled(w, Push)
    ensures Conserved(Next(w, Push)) <==> !AsksTooMuch(w.snd)
  {
    hide S.Push, Says, Chain;
    SenderBound(w);
    PushConserves(w.snd, Transmitted(w));
    PushKeeps(w.snd, Transmitted(w));
    var (t, out) := S.Push(w.snd);
    Concat(w.log, out);
    var acc, p, q := w.snd.input.accepted, w.snd.input.popped, t.input.popped;
    assert acc[..q] == acc[..p] + acc[p..q];
  }

  lemma OthersConserve(w: World, e: Protocol.Event)
    requires Protocol.Inv(w) && Conserved(w) && Enabled(w, e) && e != Push
    ensures Conserved(Next(w, e))
  {
    hide Protocol.Inv, R.Receive, Unwrap, S.DropAcked, Payloads;
  }

  /** Fewer bytes were transmitted than removed from the stream; nothing makes up for that later. */
  lemma LossStays(w: World, e: Protocol.Event)
    requires Protocol.Inv(w) && Enabled(w, e) && |Transmitted(w)| < w.snd.input.popped
    ensures |Transmitted(Next(w, e))| < Next(w, e).snd.input.popped
  {
    hide Protocol.Inv, S.Push, R.Receive, Unwrap, S.DropAcked;
    if e == Push {
      PushLength(w.snd);
      Concat(w.log, S.Push(w.snd).1);
    }
  }

  lemma {:induction false} RunKeepsLoss(w: World, events: seq<Protocol.Event>)
    requires Protocol.Inv(w) && Runs(w, events) && |Transmitted(w)| < w.snd.input.popped
    ensures |Transmitted(Protocol.After(w, events))| < Protocol.After(w, events).snd.input.popped
    decreases |events|
  {
    hide Protocol.Inv, Enabled, Next;
    if events != [] {
      NextOk(w, events[0]);
      LossStays(w, events[0]);
      RunKeepsLoss(Next(w, events[0]), events[1..]);
    }
  }

  lemma CarelessPushLoses(w: World)
    requires Enabled(w, Push) && Conserved(w) && AsksTooMuch(w.snd)
    ensures |Transmitted(Next(w, Push))| < Next(w, Push).snd.input.popped
  {
    hide S.Push, AsksTooMuch;
    PushLoses(w.snd);
    Concat(w.log, S.Push(w.snd).1);
  }

  lemma EnabledReady(w: World, e: Protocol.Event)
    requires Enabled(w, e)
    ensures Ready(w)
  {
  }

  /** Over any run, what is removed from the stream is what is transmitted, if and only if every push is careful. */
  lemma {:induction false} RunConserves(w: World, events: seq<Protocol.Event>)
    requires Protocol.Inv(w) && Runs(w, events) && Conserved(w)
    ensures Conserved(Protocol.After(w, events)) <==> CarefulPushes(w, events)
    decreases |events|
  {
    hide Protocol.Inv, Enabled, Next, AsksTooMuch;
    if events != [] {
      EnabledReady(w, events[0]);
      NextOk(w, events[0]);
      if events[0] == Push && AsksTooMuch(w.snd) {
        CarelessPushLoses(w);
        RunKeepsLoss(Next(w, Push), events[1..]);
      } else {
        if events[0] == Push {
          PushConservesWorld(w);
        } else {
          OthersConserve(w, events[0]);
        }
        RunConserves(Next(w, events[0]), events[1..]);
      }
    }
  }

  /**
   * In every run the transmitted bytes are exactly those removed from what the application wrote, if and only if no
   * push asks for more than `peek` shows; and then the receiver has pushed a prefix of what was written.
   */
  lemma WrittenArrivesInOrder(w: World, events: seq<Protocol.Event>)
    requires Starts(w, events) && Runs(w, events)
    ensures var v := Protocol.After(w, events);
      && (Conserved(v) <==> CarefulPushes(w, events))
      && (CarefulPushes(w, events) ==> v.rcv.asm.out.accepted <= v.snd.input.accepted)
  {
    hide Protocol.Inv, CarefulPushes, Next, Enabled, OfText;
    InvAlways(w, events);
    RunConserves(w, events);
    DeliveredInOrder(w, events);
  }

  /** With a sending stream of at most 128 bytes every push is careful. */
  lemma {:induction false} SmallStreamIsCareful(w: World, events: seq<Protocol.Event>)
    requires Runs(w, events) && w.snd.input.Valid() && w.snd.input.capacity <= READ_BYTES_SIZE
    ensures CarefulPushes(w, events)
    decreases |events|
  {
    hide Next;
    if events != [] {
      CapacityStays(w, events[0]);
      SmallStreamIsCareful(Next(w, events[0]), events[1..]);
    }
  }

  lemma CapacityStays(w: World, e: Protocol.Event)
    requires Enabled(w, e)
    ensures Next(w, e).snd.input.Valid() && Next(w, e).snd.input.capacity == w.snd.input.capacity
  {
    hide S.Push;
    PushCapacity(w.snd);
  }

  lemma PushCapacity(s: S.State)
    requires s.input.Valid()
    ensures S.Push(s).0.input.Valid() && S.Push(s).0.input.capacity == s.input.capacity
  {
    PushOneTakes(s);
    var (t, syn) := if s.synSent then (s, []) else S.PushOne(s);
    PushDataLength(t);
    PushFinTakesNothing(S.PushData(t).0);
  }

  // Acknowledged segments.

  /** The segments that have left the queue. */
  function Gone(w: World): seq<SenderMessage>
    requires |w.snd.window| <= |w.log|
  {
    w.log[..|w.log| - |w.snd.window|]
  }

  function SynCount(msgs: seq<SenderMessage>): nat {
    if msgs == [] then 0 else (if msgs[0].syn then 1 else 0) + SynCount(msgs[1..])
  }

  lemma {:induction false} LengthCounts(msgs: seq<SenderMessage>)
    ensures Length(msgs) == SynCount(msgs) + |Payloads(msgs)| + FinCount(msgs)
  {
    if msgs != [] {
      LengthCounts(msgs[1..]);
    }
  }

  lemma {:induction false} SynConcat(a: seq<SenderMessage>, b: seq<SenderMessage>)
    ensures SynCount(a + b) == SynCount(a) + SynCount(b)
  {
    if a == [] {
      assert a + b == b;
    } else {
      assert (a + b)[1..] == a[1..] + b;
      SynConcat(a[1..], b);
    }
  }

  /**
   * The acknowledgement of a FIN counted too early has reached the sender, and the FIN itself is still in the queue.
   */
  ghost predicate EarlyFinAcknowledged(v: World)
    requires |v.snd.window| <= |v.log|
  {
    && v.rcv.fin == 1 && FinCount(Gone(v)) == 0
    && v.snd.lastAck == WindowStart(v.snd) == |v.rcv.asm.out.accepted| + 2
  }

  /**
   * In every run, the segments that have left the queue have been pushed into the receiver's stream, every byte of
   * them, if and only if no FIN counted too early has been acknowledged.
   */
  lemma GoneIsPushed(w: World, events: seq<Protocol.Event>)
    requires Starts(w, events)
    ensures var v := Protocol.After(w, events);
      && |v.snd.window| <= |v.log|
      && (Payloads(Gone(v)) <= v.rcv.asm.out.accepted <==> !EarlyFinAcknowledged(v))
  {
    InvAlways(w, events);
    DeliveredInOrder(w, events);
    var v := Protocol.After(w, events);
    GoneLength(v);
    if |Payloads(Gone(v))| <= |v.rcv.asm.out.accepted| {
      assert Payloads(Gone(v)) == Transmitted(v)[..|Payloads(Gone(v))|];
    }
  }

  /** In particular in every run in which a counted FIN means that everything transmitted has been pushed. */
  lemma GoneIsPushedUnlessEarly(w: World, events: seq<Protocol.Event>)
    requires Starts(w, events) && Runs(w, events)
    requires var v := Protocol.After(w, events); v.rcv.fin == 1 ==> |v.rcv.asm.out.accepted| == |Transmitted(v)|
    ensures var v := Protocol.After(w, events);
      |v.snd.window| <= |v.log| && Payloads(Gone(v)) <= v.rcv.asm.out.accepted
  {
    hide Protocol.Inv, Runs, Starts;
    InvAlways(w, events);
    GoneIsPushed(w, events);
    GoneLength(Protocol.After(w, events));
  }

  /** The log has one SYN, its first segment, so the queue starts where the SYN, payloads and FINs before it end. */
  lemma GoneLength(v: World)
    requires Protocol.Inv(v)
    ensures Payloads(Gone(v)) <= Transmitted(v)
    ensures WindowStart(v.snd) == (if Gone(v) == [] then 0 else 1) + |Payloads(Gone(v))| + FinCount(Gone(v))
    ensures WindowStart(v.snd) <= v.snd.lastAck <= |v.rcv.asm.out.accepted| + v.rcv.syn + v.rcv.fin
    ensures v.rcv.syn <= 1 && v.rcv.fin <= 1
  {
    hide Says, Chain, Truthful, AckUpTo, OfText;
    var gone := Gone(v);
    assert v.log == gone + v.snd.window;
    Concat(gone, v.snd.window);
    LengthCounts(v.log);
    LengthCounts(gone);
    SynConcat(gone, v.snd.window);
    assert gone != [] ==> gone[0] == v.log[0];
  }

  predicate CanAdvance(v: World) {
    && Ready(v)
    && v.snd.window != [] && !v.snd.window[0].fin
    && v.rcv.fin == 0 && v.rcv.asm.out.Available() > 0
  }

  /**
   * No stall: even if the channel has lost everything, waiting for the time-out puts the front of the queue on it
   * again, and that one segment, when it gets through to a receiver with room, makes it acknowledge something new.
   */
  lemma RetransmissionAdvances(w: World, events: seq<Protocol.Event>)
    requires Starts(w, events) && Runs(w, events) && CanAdvance(Protocol.After(w, events))
    ensures var v := Protocol.After(w, events); var m, e := v.snd.window[0], Tick(Remaining(v.snd));
      && Enabled(Lost(v), e)
      && var u := Next(Lost(v), e);
      && u.net == {m} && Enabled(u, Deliver(m))
      && v.snd.lastAck < Acknowledged(Next(u, Deliver(m)).rcv)
  {
    hide Protocol.Inv, TimerInv, S.Tick, R.Receive;
    InvAlways(w, events);
    TimeoutDoubles(w, events);
    var v := Protocol.After(w, events);
    var e := Tick(Remaining(v.snd));
    LostOk(v);
    TimeOutFires(v.snd);
    TickOk(Lost(v), Remaining(v.snd));
    FrontAdvances(Next(Lost(v), e));
  }

  /** A copy of the front of the queue, wherever it comes from, makes the receiver acknowledge something new. */
  lemma FrontAdvances(v: World)
    requires Protocol.Inv(v) && CanAdvance(v) && v.snd.window[0] in v.net
    ensures Enabled(v, Deliver(v.snd.window[0]))
    ensures v.snd.lastAck < Acknowledged(Next(v, Deliver(v.snd.window[0])).rcv)
  {
    hide Truthful, AckUpTo, Insert, Unwrap, Wrap;
    var m, sent, r, from := v.snd.window[0], Transmitted(v), v.rcv, WindowStart(v.snd);
    AlwaysReady(v);
    SenderBound(v);
    assert Says(m, v.snd.isn, from, sent, v.snd.finSent);
    FrontPushed(r, m, v.snd.isn, from, sent, v.snd.finSent);
  }

  /** What a segment at or below the awaited index adds: everything up to its end or the end of the window. */
  lemma FrontPushed(r: R.State, m: SenderMessage, isn: u32, from: nat, sent: seq<byte>, ended: bool)
    requires r.Valid() && r.InRange() && OfText(r.asm, sent) && |sent| + 2 < TWO31
    requires Says(m, isn, from, sent, ended)
    requires r.syn == 1 ==> r.zeroPoint == isn
    requires r.syn == 0 ==> from == 0
    requires DataIndex(from) <= |r.asm.out.accepted|
    ensures r.checkpoint < TWO63 && r.syn <= 1
    ensures var t := R.Receive(r, m);
      t.syn == 1 && |t.asm.out.accepted| >= Min(DataIndex(from) + |m.payload|, r.asm.out.Tail()) && t.fin >= r.fin
  {
    hide Insert, Unwrap, Wrap, Asm.Known, Visible, Run;
    var o := R.Opened(r, m);
    if from == 0 {
      WrapZero(isn);
    }
    WrapUnwrap(from, isn, o.checkpoint);
    var at := DataIndex(from);
    assert R.FirstIndex(o, m) == at;
    var sub := Substring(at, m.payload, m.fin);
    ArrivalInserted(r.asm, sub, sent);
    PieceKeepsText(r.asm, sent, sub, Arrival(r.asm, sub));
    InsertMeaning(r.asm, sub.first, sub.data, sub.last, Arrival(r.asm, sub));
    NewlyPushed(r.asm, sub, Arrival(r.asm, sub), sent);
  }

  lemma NewlyPushed(a: Asm, sub: Substring, t: Asm, sent: seq<byte>)
    requires a.Valid() && t.Valid() && OfText(a, sent) && PieceOf(sent, sub) && sub.first <= |a.out.accepted|
    requires t.Known().Keys == a.Known().Keys + Visible(a, sub.first, sub.data, sub.last).Keys
    requires a.out.accepted <= t.out.accepted
    ensures |t.out.accepted| >= Min(sub.first + |sub.data|, a.out.Tail())
  {
    var n := |t.out.accepted|;
    assert n !in t.Known();
    assert n !in Visible(a, sub.first, sub.data, sub.last);
    assert Covers(sub.first, sub.data, n) <==> n < sub.first + |sub.data|;
  }

  // Segments that overtake the SYN.

  lemma NextKeepsError(w: World, e: Protocol.Event)
    requires Enabled(w, e) && w.rcv.error
    ensures var v := Next(w, e); v.rcv.error && forall a <- v.acks - w.acks :: a.rst
  {
    hide S.Push, S.ReceiveAck, S.Tick, Insert, Unwrap, Wrap;
  }

  /** Once a segment has overtaken the SYN, every later answer of the receiver carries a reset, also after the SYN. */
  lemma {:induction false} ErrorForGood(w: World, events: seq<Protocol.Event>)
    requires Runs(w, events) && w.rcv.error
    ensures var v := Protocol.After(w, events); v.rcv.error && forall a <- v.acks - w.acks :: a.rst
    decreases |events|
  {
    hide Enabled, Next;
    if events != [] {
      NextKeepsError(w, events[0]);
      ErrorForGood(Next(w, events[0]), events[1..]);
    }
  }

  // The timer.

  lemma NextKeepsTimer(w: World, e: Protocol.Event)
    requires Protocol.Inv(w) && Enabled(w, e) && TimerInv(w.snd)
    ensures TimerInv(Next(w, e).snd)
  {
    hide S.Push, S.ReceiveAck, S.Tick, R.Receive, Says, Chain, OfText;
    match e
    case Push =>
      SenderBound(w);
      PushKeepsTimer(w.snd, Transmitted(w));
    case Tick(ms) => TickKeepsTimer(w.snd, ms);
    case DeliverAck(a) => AckKeepsTimer(w.snd, a.ackno.value, a.windowSize);
    case _ =>
  }

  lemma {:induction false} RunKeepsTimer(w: World, events: seq<Protocol.Event>)
    requires Protocol.Inv(w) && Runs(w, events) && TimerInv(w.snd)
    ensures TimerInv(Protocol.After(w, events).snd)
    decreases |events|
  {
    hide Protocol.Inv, Enabled, Next, TimerInv;
    if events != [] {
      NextOk(w, events[0]);
      NextKeepsTimer(w, events[0]);
      RunKeepsTimer(Next(w, events[0]), events[1..]);
    }
  }

  lemma InitialTimer(isn: u32, initialRTO: u64, sendCapacity: nat, receiveCapacity: nat)
    ensures TimerInv(Initial(isn, initialRTO, sendCapacity, receiveCapacity).snd)
  {
  }

  /** In every run, the time-out is the initial one doubled once per consecutive retransmission. */
  lemma TimeoutDoubles(w: World, events: seq<Protocol.Event>)
    requires Starts(w, events)
    ensures Runs(w, events) && TimerInv(Protocol.After(w, events).snd)
  {
    hide Protocol.Inv, Next, Enabled, TimerInv;
    var isn, rto, sendCapacity: nat, receiveCapacity: nat :|
      receiveCapacity < 0x2000_0000_0000_0000 && w == Initial(isn, rto, sendCapacity, receiveCapacity) &&
        Runs(w, events);
    InitialOk(isn, rto, sendCapacity, receiveCapacity);
    InitialTimer(isn, rto, sendCapacity, receiveCapacity);
    RunKeepsTimer(w, events);
  }
}
