/**
 * A sender and a receiver over a channel that may lose, duplicate, delay and reorder every message: whatever was
 * sent once may be delivered at any later time, any number of times, or never. Acknowledgements with a zero window
 * are not delivered.
 */
module Protocol {
  import opened MachineInts
  import opened Wrap32
  import opened ByteStreams
  import opened Assembly
  import opened OneStream
  import opened Segments
  import opened SenderLaws
  import S = Sender
  import R = Receiver

  /**
   * `log` lists every segment when it was first sent; `net` and `acks` are the messages that may still arrive, which
   * are all that were sent since the channel last lost everything.
   */
  datatype World = World(snd: S.State, rcv: R.State, net: set<SenderMessage>, acks: set<ReceiverMessage>,
                         log: seq<SenderMessage>)

  datatype Event =
    | Write(data: seq<byte>)
    | Close
    | Push
    | Tick(ms: u64)
    | Deliver(m: SenderMessage)
    | Acknowledge
    | DeliverAck(a: ReceiverMessage)
    | ReadOut(n: nat)

  function Initial(isn: u32, initialRTO: u64, sendCapacity: nat, receiveCapacity: nat): World {
    World(S.State(isn, initialRTO, Stream(sendCapacity, [], 0, false), 0, 0, 0, 0, 0, false, false, [], 0, initialRTO),
          R.State(Asm(Stream(receiveCapacity, [], 0, false), map[], Unknown), 100, 0, 0, 0, 0, 0, false), {}, {}, [])
  }

  predicate Ready(w: World) {
    w.snd.input.Valid() && w.rcv.asm.out.Valid() && w.rcv.checkpoint < TWO63 && w.rcv.syn <= 1
  }

  /** The stream stays shorter than 2^31; writing after the close is possible, as it is in the code. */
  ghost predicate Enabled(w: World, e: Event) {
    && Ready(w)
    && match e
       case Write(data) => |w.snd.input.accepted| + |data| + 2 < TWO31
       case Deliver(m) => m in w.net
       case DeliverAck(a) => a in w.acks && a.ackno.Some? && a.windowSize != 0
       case _ => true
  }

  ghost function Next(w: World, e: Event): World
    requires Enabled(w, e)
  {
    match e
    case Write(data) => w.(snd := w.snd.(input := w.snd.input.Push(data)))
    case Close => w.(snd := w.snd.(input := w.snd.input.(closed := true)))
    case Push =>
      var (t, out) := S.Push(w.snd);
      w.(snd := t, net := w.net + (set m | m in out), log := w.log + out)
    case Tick(ms) =>
      var (t, out) := S.Tick(w.snd, ms);
      w.(snd := t, net := w.net + (set m | m in out))
    case Deliver(m) => w.(rcv := R.Receive(w.rcv, m))
    case Acknowledge => w.(acks := w.acks + {R.Reply(w.rcv)})
    case DeliverAck(a) => w.(snd := S.ReceiveAck(w.snd, a.ackno.value, a.windowSize))
    case ReadOut(n) => w.(rcv := w.rcv.(asm := Pop(w.rcv.asm, n)))
  }

  ghost predicate Runs(w: World, events: seq<Event>)
    decreases |events|
  {
    events == [] || (Enabled(w, events[0]) && Runs(Next(w, events[0]), events[1..]))
  }

  ghost function After(w: World, events: seq<Event>): World
    requires Runs(w, events)
    decreases |events|
  {
    if events == [] then w else After(Next(w, events[0]), events[1..])
  }

  lemma NoEvents(w: World)
    ensures Runs(w, []) && After(w, []) == w
  {
  }

  lemma {:induction false} OneMore(w: World, events: seq<Event>, e: Event)
    requires Runs(w, events) && Enabled(After(w, events), e)
    ensures Runs(w, events + [e]) && After(w, events + [e]) == Next(After(w, events), e)
    decreases |events|
  {
    hide Enabled, Next;
    if events == [] {
      assert events + [e] == [e] && [e][1..] == [];
      assert After(Next(w, e), []) == Next(w, e);
    } else {
      assert (events + [e])[1..] == events[1..] + [e];
      OneMore(Next(w, events[0]), events[1..], e);
    }
  }

  /** A run after a run. */
  lemma {:induction false} Continued(w: World, events: seq<Event>, more: seq<Event>)
    requires Runs(w, events) && Runs(After(w, events), more)
    ensures Runs(w, events + more) && After(w, events + more) == After(After(w, events), more)
    decreases |events|
  {
    hide Enabled, Next;
    if events == [] {
      assert events + more == more;
    } else {
      assert (events + more)[1..] == events[1..] + more;
      Continued(Next(w, events[0]), events[1..], more);
    }
  }

  /** Everything ever put into a segment, in order. */
  function Transmitted(w: World): seq<byte> {
    Payloads(w.log)
  }

  /** How far an acknowledgement may have gone. */
  function Acknowledged(r: R.State): nat {
    |r.asm.out.accepted| + r.syn + r.fin
  }

  ghost predicate Truthful(m: SenderMessage, isn: u32, sent: seq<byte>, ended: bool) {
    exists from: nat :: Says(m, isn, from, sent, ended)
  }

  ghost predicate AckUpTo(a: ReceiverMessage, isn: u32, limit: nat) {
    a.ackno.Some? ==> exists n: nat :: n <= limit && a.ackno.value == Wrap(n % TWO64, isn)
  }

  /** The queue is what the log still has outstanding, and the first segment of the log is the SYN. */
  ghost predicate LogOk(s: S.State, log: seq<SenderMessage>) {
    && |s.window| <= |log| && s.window == log[|log| - |s.window|..]
    && s.nextSeq == Length(log)
    && (log == [] <==> !s.synSent)
    && (log != [] ==> log[0].syn)
    && FinCount(log) == Sent01(s)
  }

  ghost predicate SenderOk(w: World) {
    && SenderLaws.Inv(w.snd, Transmitted(w))
    && |w.snd.input.accepted| + 2 < TWO31
    && |Transmitted(w)| <= w.snd.input.popped
    && (!w.snd.synSent ==> w.net == {})
    && LogOk(w.snd, w.log)
  }

  ghost predicate ReceiverOk(w: World) {
    && w.rcv.Valid() && w.rcv.asm.out.capacity < 0x2000_0000_0000_0000
    && OfText(w.rcv.asm, Transmitted(w))
    && (w.rcv.syn == 1 ==> w.rcv.zeroPoint == w.snd.isn && w.snd.synSent)
    && (w.rcv.asm.end.At? ==> w.snd.finSent)
  }

  ghost predicate ChannelOk(w: World) {
    && (forall m <- w.net :: Truthful(m, w.snd.isn, Transmitted(w), w.snd.finSent))
    && (forall a <- w.acks :: AckUpTo(a, w.snd.isn, Acknowledged(w.rcv)))
    && w.snd.lastAck <= Acknowledged(w.rcv)
  }

  ghost predicate Inv(w: World) {
    SenderOk(w) && ReceiverOk(w) && ChannelOk(w)
  }

  /** The channel loses everything that is on its way. */
  function Lost(w: World): World {
    w.(net := {}, acks := {})
  }

  // Each event keeps the invariant, and so does losing everything.

  lemma LostOk(w: World)
    requires Inv(w)
    ensures Inv(Lost(w))
  {
    hide SenderLaws.Inv, LogOk, OfText, R.State.Valid;
  }

  lemma InitialSender(isn: u32, initialRTO: u64, sendCapacity: nat, receiveCapacity: nat)
    ensures SenderOk(Initial(isn, initialRTO, sendCapacity, receiveCapacity))
  {
    hide Says, Wrap;
    var w := Initial(isn, initialRTO, sendCapacity, receiveCapacity);
    assert Payloads([]) == [] && Length([]) == 0 && FinCount([]) == 0;
    assert w.log[|w.log| - |w.snd.window|..] == [];
  }

  lemma InitialReceiver(isn: u32, initialRTO: u64, sendCapacity: nat, receiveCapacity: nat)
    requires receiveCapacity < 0x2000_0000_0000_0000
    ensures ReceiverOk(Initial(isn, initialRTO, sendCapacity, receiveCapacity))
  {
    hide Payloads;
  }

  lemma InitialOk(isn: u32, initialRTO: u64, sendCapacity: nat, receiveCapacity: nat)
    requires receiveCapacity < 0x2000_0000_0000_0000
    ensures Inv(Initial(isn, initialRTO, sendCapacity, receiveCapacity))
  {
    hide SenderOk, ReceiverOk, Truthful, AckUpTo;
    InitialSender(isn, initialRTO, sendCapacity, receiveCapacity);
    InitialReceiver(isn, initialRTO, sendCapacity, receiveCapacity);
  }

  lemma SaysGrows(m: SenderMessage, isn: u32, sent: seq<byte>, more: seq<byte>, ended: bool, ended': bool)
    requires Truthful(m, isn, sent, ended)
    requires ended ==> ended' && more == []
    ensures Truthful(m, isn, sent + more, ended')
  {
    var from: nat :| Says(m, isn, from, sent, ended);
    assert ended ==> sent + more == sent;
    assert Says(m, isn, from, sent + more, ended');
  }

  /** A sender that has sent its FIN pushes nothing. */
  lemma NothingAfterFin(s: S.State)
    requires s.input.Valid() && s.synSent && s.finSent
    ensures S.Push(s) == (s, [])
  {
    assert S.PushData(s) == (s, []) && S.PushFin(s) == (s, []);
    var none: seq<SenderMessage> := [];
    assert none + none + none == none;
  }

  lemma AlwaysReady(w: World)
    requires SenderOk(w) && ReceiverOk(w)
    ensures Ready(w) && w.rcv.InRange()
  {
  }

  lemma PushOk(w: World)
    requires Inv(w)
    ensures Enabled(w, Push) && Inv(Next(w, Push))
  {
    hide S.Push, Says, Chain, Truthful, AckUpTo, OfText, R.State.Valid;
    AlwaysReady(w);
    SenderBound(w);
    var s, sent := w.snd, Transmitted(w);
    var v := Next(w, Push);
    var (t, out) := S.Push(s);
    PushKeeps(s, sent);
    PushLength(s);
    PushLog(w);
    Concat(w.log, out);
    if s.finSent {
      NothingAfterFin(s);
    }
    forall m | m in v.net
      ensures Truthful(m, s.isn, Transmitted(v), t.finSent)
    {
      if m in w.net {
        SaysGrows(m, s.isn, sent, Payloads(out), s.finSent, t.finSent);
      } else {
        WindowTruthful(t, sent + Payloads(out), m);
      }
    }
    TextGrows(w.rcv.asm, sent, Payloads(out));
  }

  lemma PushLog(w: World)
    requires Inv(w)
    ensures var (t, out) := S.Push(w.snd); LogOk(t, w.log + out)
  {
    hide S.Push, Says, Chain, Truthful, AckUpTo, OfText, ReceiverOk, ChannelOk;
    SenderBound(w);
    PushKeeps(w.snd, Transmitted(w));
    PushFins(w.snd);
    var (t, out) := S.Push(w.snd);
    Concat(w.log, out);
    FinConcat(w.log, out);
    var log := w.log + out;
    assert log[|log| - |t.window|..] == w.snd.window + out;
  }

  lemma WindowTruthful(s: S.State, sent: seq<byte>, m: SenderMessage)
    requires SenderLaws.Inv(s, sent) && m in s.window
    ensures Truthful(m, s.isn, sent, s.finSent)
  {
    var at := ChainMember(s.window, m, s.isn, WindowStart(s), sent, s.finSent);
  }

  lemma TextGrows(a: Asm, text: seq<byte>, more: seq<byte>)
    requires OfText(a, text)
    requires a.end.At? ==> more == []
    ensures OfText(a, text + more)
  {
  }

  lemma SenderBound(w: World)
    requires SenderOk(w)
    ensures InRange(w.snd) && w.snd.nextSeq < TWO31 && |Transmitted(w)| + 2 < TWO31
  {
  }

  /** A retransmission repeats a segment of the queue, which still says the truth. */
  lemma TickOk(w: World, ms: u64)
    requires Inv(w)
    ensures Enabled(w, Tick(ms)) && Inv(Next(w, Tick(ms)))
    ensures S.Tick(w.snd, ms).1 == [] || (w.snd.window != [] && S.Tick(w.snd, ms).1 == [w.snd.window[0]])
  {
    hide Says, Chain, Truthful, AckUpTo, OfText, R.State.Valid, SenderLaws.Inv, LogOk, S.Tick;
    AlwaysReady(w);
    var (t, out) := S.Tick(w.snd, ms);
    OnlyTimer(w.snd, ms, Transmitted(w), w.log);
    if out != [] {
      WindowTruthful(w.snd, Transmitted(w), out[0]);
    }
  }

  lemma OnlyTimer(s: S.State, ms: u64, sent: seq<byte>, log: seq<SenderMessage>)
    requires SenderLaws.Inv(s, sent) && LogOk(s, log)
    ensures var (t, out) := S.Tick(s, ms);
      && SenderLaws.Inv(t, sent) && LogOk(t, log)
      && t == s.(time := t.time, crt := t.crt, rto := t.rto)
      && (out == [] || (s.window != [] && s.synSent && out == [s.window[0]]))
  {
    hide Chain;
  }

  /** A delivered segment reaches the reassembler as a piece of the transmitted text, at its true index. */
  lemma DeliveredPiece(r: R.State, m: SenderMessage, isn: u32, sent: seq<byte>, ended: bool)
    requires r.Valid() && OfText(r.asm, sent) && |sent| + 2 < TWO31
    requires Truthful(m, isn, sent, ended)
    requires r.syn == 1 ==> r.zeroPoint == isn
    ensures var o := R.Opened(r, m);
      o.syn == 1 ==>
        && o.zeroPoint == isn
        && Signed64(R.FirstIndex(o, m)) >= 0
        && PieceOf(sent, Substring(Signed64(R.FirstIndex(o, m)), m.payload, m.fin))
        && (m.fin ==> ended)
  {
    hide Unwrap, Wrap;
    var from: nat :| Says(m, isn, from, sent, ended);
    var o := R.Opened(r, m);
    if o.syn == 1 {
      if from == 0 {
        WrapZero(isn);
      }
      WrapUnwrap(from, isn, o.checkpoint);
      assert R.FirstIndex(o, m) == DataIndex(from);
    }
  }

  lemma WrapZero(isn: u32)
    ensures Wrap(0, isn) == isn
  {
  }

  lemma Delivered(r: R.State, m: SenderMessage, isn: u32, sent: seq<byte>, ended: bool)
    requires r.Valid() && r.InRange() && OfText(r.asm, sent) && |sent| + 2 < TWO31
    requires Truthful(m, isn, sent, ended)
    requires r.syn == 1 ==> r.zeroPoint == isn
    requires r.asm.end.At? ==> ended
    ensures r.checkpoint < TWO63 && r.syn <= 1
    ensures var t := R.Receive(r, m);
      && R.Received(r, m, t) && t.Valid() && OfText(t.asm, sent)
      && (t.syn == 1 ==> t.zeroPoint == isn) && (t.asm.end.At? ==> ended)
      && t.asm.out.capacity == r.asm.out.capacity && Acknowledged(r) <= Acknowledged(t)
      && (t.syn == 1 ==> r.syn == 1 || m.syn)
  {
    hide Says, Insert, Unwrap, Truthful, OfText, Merged, PieceOf;
    DeliveredPiece(r, m, isn, sent, ended);
    var o := R.Opened(r, m);
    var t := R.Receive(r, m);
    if o.syn == 1 {
      var sub := Substring(Signed64(R.FirstIndex(o, m)), m.payload, m.fin);
      ArrivalInserted(r.asm, sub, sent);
      PieceKeepsText(r.asm, sent, sub, Arrival(r.asm, sub));
      InsertMeaning(r.asm, sub.first, sub.data, sub.last, t.asm);
      ArrivalEnd(r.asm, sub);
    }
    R.ReceiveKeepsValid(r, m, t);
  }

  /** Whatever the receiver object may do with a segment of this stream, it does what the transition says. */
  lemma OnlyOneOutcome(r: R.State, m: SenderMessage, isn: u32, sent: seq<byte>, ended: bool, t: R.State)
    requires r.Valid() && r.InRange() && OfText(r.asm, sent) && |sent| + 2 < TWO31
    requires Truthful(m, isn, sent, ended)
    requires r.syn == 1 ==> r.zeroPoint == isn
    requires r.checkpoint < TWO63 && R.Received(r, m, t)
    ensures t == R.Receive(r, m)
  {
    hide Insert, Unwrap, Truthful, OfText, Merged, PieceOf;
    DeliveredPiece(r, m, isn, sent, ended);
    var o := R.Opened(r, m);
    if o.syn == 1 {
      var sub := Substring(Signed64(R.FirstIndex(o, m)), m.payload, m.fin);
      PieceKeepsText(r.asm, sent, sub, t.asm);
    }
  }

  lemma ArrivalEnd(a: Asm, sub: Substring)
    ensures Arrival(a, sub).end == Learn(a.end, sub.first, sub.data, sub.last)
  {
  }

  lemma DeliverOk(w: World, m: SenderMessage)
    requires Inv(w) && m in w.net
    ensures Enabled(w, Deliver(m)) && Inv(Next(w, Deliver(m)))
    ensures R.Received(w.rcv, m, Next(w, Deliver(m)).rcv)
  {
    hide Says, Chain, Truthful, OfText, SenderLaws.Inv, R.Receive, R.Received, R.State.Valid, AckUpTo;
    AlwaysReady(w);
    SenderBound(w);
    Delivered(w.rcv, m, w.snd.isn, Transmitted(w), w.snd.finSent);
    AcksGrow(w, R.Receive(w.rcv, m));
  }

  lemma AcksGrow(w: World, t: R.State)
    requires forall a <- w.acks :: AckUpTo(a, w.snd.isn, Acknowledged(w.rcv))
    requires Acknowledged(w.rcv) <= Acknowledged(t)
    ensures forall a <- w.acks :: AckUpTo(a, w.snd.isn, Acknowledged(t))
  {
  }

  /** The application's end of the input stream does not touch what the protocol relies on. */
  lemma InputChanges(w: World, input: Stream)
    requires Inv(w) && input.Valid() && input.popped == w.snd.input.popped && |input.accepted| + 2 < TWO31
    ensures Inv(w.(snd := w.snd.(input := input)))
  {
  }

  lemma WriteOk(w: World, data: seq<byte>)
    requires Inv(w) && Enabled(w, Write(data))
    ensures Inv(Next(w, Write(data)))
  {
    hide Inv;
    InputChanges(w, w.snd.input.Push(data));
  }

  lemma CloseOk(w: World)
    requires Inv(w)
    ensures Enabled(w, Close) && Inv(Next(w, Close))
  {
    hide LogOk, SenderLaws.Inv, Truthful, AckUpTo, OfText, R.State.Valid, Payloads;
    AlwaysReady(w);
    InputChanges(w, w.snd.input.(closed := true));
  }

  lemma ReadOk(w: World, n: nat)
    requires Inv(w)
    ensures Enabled(w, ReadOut(n)) && Inv(Next(w, ReadOut(n)))
  {
  }

  lemma AcknowledgeOk(w: World)
    requires Inv(w)
    ensures Enabled(w, Acknowledge) && Inv(Next(w, Acknowledge))
  {
  }

  /** The acknowledgement number never exceeds what the sender has sent. */
  lemma AckWithinSent(w: World)
    requires Inv(w)
    ensures Acknowledged(w.rcv) <= w.snd.nextSeq
  {
  }

  /** An acknowledgement on the channel unwraps to the number it was made from. */
  lemma AckUnwraps(w: World, a: ReceiverMessage)
    requires Inv(w) && a in w.acks && a.ackno.Some?
    ensures Unwrap(a.ackno.value, w.snd.isn, w.snd.lastAck) <= Acknowledged(w.rcv)
  {
    hide Says, Chain, Truthful, OfText, SenderLaws.Inv, Unwrap, Wrap, R.State.Valid, LogOk;
    SenderBound(w);
    AckWithinSent(w);
    var n: nat :| n <= Acknowledged(w.rcv) && a.ackno.value == Wrap(n % TWO64, w.snd.isn);
    WrapUnwrap(n, w.snd.isn, w.snd.lastAck);
  }

  /** Segments leaving at the front keep the queue the end of the log. */
  lemma QueueShrinks(s: S.State, t: S.State, log: seq<SenderMessage>)
    requires LogOk(s, log) && |t.window| <= |s.window| && t.window == s.window[|s.window| - |t.window|..]
    requires t.nextSeq == s.nextSeq && t.synSent == s.synSent && t.finSent == s.finSent
    ensures LogOk(t, log) && forall m <- t.window :: m in s.window
  {
    assert t.window == log[|log| - |t.window|..];
  }

  lemma SenderAcked(w: World, a: ReceiverMessage)
    requires SenderOk(w) && a.ackno.Some?
    ensures var t := S.ReceiveAck(w.snd, a.ackno.value, a.windowSize);
      var ack := Unwrap(a.ackno.value, w.snd.isn, w.snd.lastAck);
      && SenderOk(w.(snd := t)) && t.isn == w.snd.isn && t.synSent == w.snd.synSent && t.finSent == w.snd.finSent
      && (t.lastAck == w.snd.lastAck || t.lastAck == ack)
  {
    hide Chain, SenderLaws.Inv, S.ReceiveAck, Unwrap, LogOk, Payloads;
    SenderBound(w);
    ReceiveAckKeeps(w.snd, Transmitted(w), a.ackno.value, a.windowSize);
    QueueShrinks(w.snd, S.ReceiveAck(w.snd, a.ackno.value, a.windowSize), w.log);
  }

  lemma DeliverAckOk(w: World, a: ReceiverMessage)
    requires Inv(w) && Enabled(w, DeliverAck(a))
    ensures Inv(Next(w, DeliverAck(a)))
  {
    hide SenderOk, Truthful, OfText, S.ReceiveAck, Unwrap, R.State.Valid, AckUpTo, Payloads;
    SenderAcked(w, a);
    AckUnwraps(w, a);
  }

  lemma NextOk(w: World, e: Event)
    requires Inv(w) && Enabled(w, e)
    ensures Inv(Next(w, e))
  {
    hide Inv, Enabled, Next;
    match e
    case Write(data) => WriteOk(w, data);
    case Close => CloseOk(w);
    case Push => PushOk(w);
    case Tick(ms) => TickOk(w, ms);
    case Deliver(m) => assert m in w.net by { DeliverEnabled(w, m); } DeliverOk(w, m);
    case Acknowledge => AcknowledgeOk(w);
    case DeliverAck(a) => DeliverAckOk(w, a);
    case ReadOut(n) => ReadOk(w, n);
  }

  lemma DeliverEnabled(w: World, m: SenderMessage)
    requires Enabled(w, Deliver(m))
    ensures m in w.net
  {
  }

  lemma {:induction false} RunOk(w: World, events: seq<Event>)
    requires Inv(w) && Runs(w, events)
    ensures Inv(After(w, events))
    decreases |events|
  {
    hide Inv, Enabled, Next;
    if events != [] {
      NextOk(w, events[0]);
      RunOk(Next(w, events[0]), events[1..]);
    }
  }
}
