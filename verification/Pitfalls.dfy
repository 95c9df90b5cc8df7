/** Concrete inputs, states and runs of the TCP stack in which the code does not do what it is meant to do. */
module Pitfalls {
  import opened MachineInts
  import opened Wrap32
  import opened ByteStreams
  import opened Assembly
  import opened OneStream
  import opened Segments
  import opened SenderLaws
  import opened Protocol
  import opened EndToEnd
  import opened Handshake
  import opened Probing
  import V1 = ReassemblerV1
  import Z = ZeroWindow
  import B = SentBytes

  /** In the last cycle the answer is 2^64 - 1 away, although a candidate 2^32 - 1 away fits in 64 bits. */
  lemma UnwrapsTooLow()
    ensures var checkpoint := TWO64 - 1;
      && Unwrap(0, 0, checkpoint) == 0
      && Wrap(TWO64 - TWO32, 0) == 0 && Distance(TWO64 - TWO32, checkpoint) < Distance(0, checkpoint)
      && !Nearest(Unwrap(0, 0, checkpoint), 0, 0, checkpoint)
  {
    hide Nearest;
    UnwrapIsNearest(0, 0, TWO64 - 1);
  }

  // The end of the stream.

  /** A stream of one byte, whose empty last substring arrives first: closed with nothing pushed. */
  lemma EmptyLastClosesEarly(b: byte)
    ensures var sub := Substring(1, [], true); var s := Asm(Stream(10, [], 0, false), map[], Unknown);
      PieceOf([b], sub) && Arrival(s, sub).out == Stream(10, [], 0, true)
  {
    var sub, s := Substring(1, [], true), Asm(Stream(10, [], 0, false), map[], Unknown);
    assert Visible(s, 1, [], true) == map[];
    ClosesTooEarly(s, [b], sub);
    PushedGrows(s, [b], sub);
    ArrivalInserted(s, sub, [b]);
    InsertMeaning(s, 1, [], true, Arrival(s, sub));
    assert 0 !in Arrival(s, sub).Known();
  }

  /** The same byte without the mark and then with it: all pushed, the end known, and never closed again. */
  lemma LateEndNeverCloses(b: byte, more: seq<OneStream.Event>)
    requires forall e <- more :: PieceEvent([b], e) && (e.Arrive? ==> e.sub.data != [])
    ensures var s := Asm(Stream(10, [], 0, false), map[], Unknown);
      var first, last := Substring(0, [b], false), Substring(0, [b], true);
      var t := OneStream.After(Arrival(Arrival(s, first), last), more);
      t.out.accepted == [b] && t.end == At(1) && !t.out.closed
  {
    var s := Asm(Stream(10, [], 0, false), map[], Unknown);
    var first, last := Substring(0, [b], false), Substring(0, [b], true);
    var t, u := Arrival(s, first), Arrival(Arrival(s, first), last);
    AllArrives(s, b, first);
    PushedGrows(t, [b], last);
    ArrivalCloses(t, [b], last);
    ClosedAtEndStays(u, [b], more);
    var acc := OneStream.After(u, more).out.accepted;
    assert acc <= [b] && |acc| == 1;
  }

  lemma AllArrives(s: Asm, b: byte, sub: Substring)
    requires s == Asm(Stream(10, [], 0, false), map[], Unknown) && sub == Substring(0, [b], false)
    ensures OfText(Arrival(s, sub), [b]) && |Arrival(s, sub).out.accepted| == 1
    ensures !Arrival(s, sub).out.closed && Arrival(s, sub).end.Unknown?
  {
    PushedGrows(s, [b], sub);
    ArrivalCloses(s, [b], sub);
    ArrivalInserted(s, sub, [b]);
    InsertMeaning(s, 0, [b], false, Arrival(s, sub));
    assert 0 in Visible(s, 0, [b], false);
    assert 0 in Arrival(s, sub).Known();
  }

  lemma SecondFirst(b: byte)
    ensures Arrival(Asm(Stream(10, [], 0, false), map[], Unknown), Substring(1, [b], true))
      == Asm(Stream(10, [], 0, false), map[1 := b], At(2))
  {
    hide Insert;
    var s, known := Asm(Stream(10, [], 0, false), map[], Unknown), map[1 := b];
    assert Visible(s, 1, [b], true) == known && map[] + known == known;
    InsertIs(s, 1, [b], true, known, [], known);
    assert s.out.accepted + [] == [];
  }

  lemma BothThen(a: byte, b: byte)
    ensures var s := Asm(Stream(10, [], 0, false), map[1 := b], At(2));
      Arrival(s, Substring(0, [a, b], false)).out.accepted == [a, b]
  {
    hide Insert;
    var s := Asm(Stream(10, [], 0, false), map[1 := b], At(2));
    assert Visible(s, 0, [a, b], false) == map[0 := a, 1 := b];
    var known := map[1 := b] + map[0 := a, 1 := b];
    InsertIs(s, 0, [a, b], false, known, [a, b], map[]);
    assert [] + [a, b] == [a, b];
  }

  /** The second of two bytes came first, marked as the last; then the first version drops both when unmarked. */
  lemma FirstDropsMissingByte(a: byte, b: byte, keep: set<nat>, t: Asm)
    requires V1.Taken(Arrival(Asm(Stream(10, [], 0, false), map[], Unknown), Substring(1, [b], true)),
      0, [a, b], false, false, keep, t)
    ensures t.out.accepted == [] && t.end == At(2) && PieceOf([a, b], Substring(0, [a, b], false))
    ensures var s := Arrival(Asm(Stream(10, [], 0, false), map[], Unknown), Substring(1, [b], true));
      Arrival(s, Substring(0, [a, b], false)).out.accepted == [a, b]
  {
    hide Insert;
    SecondFirst(b);
    BothThen(a, b);
    assert [a, b][0..2] == [a, b];
  }

  // The bytes that `peek` does not show.

  lemma PushesHead(data: seq<byte>)
    requires |data| == 129
    ensures var m := SenderMessage(1, false, data[..128], false);
      S.Push(Sending(200, data, 0, false, 0, 1, 1000, 1, false, []))
        == (Sending(200, data, 129, false, 128, 129, 1000, 1, false, [m]), [m])
  {
    var s := Sending(200, data, 0, false, 0, 1, 1000, 1, false, []);
    var m := SenderMessage(1, false, data[..128], false);
    var t := Sending(200, data, 129, false, 128, 129, 1000, 1, false, [m]);
    assert s.input.Peek() == data[..128] && data[..128][..128] == data[..128] && [] + [m] == [m];
    assert S.PushOne(s) == (t, [m]);
    assert S.PushData(t) == (t, []) && S.PushFin(t) == (t, []);
    assert S.PushData(s) == (t, [m] + []);
    assert [] + ([m] + []) + [] == [m];
  }

  /** A run that writes 129 bytes, of which one is never put into a segment. */
  lemma RunLosesOneByte(data: seq<byte>) returns (events: seq<Protocol.Event>)
    requires |data| == 129
    ensures Runs(Start(200, 1000), events) && Starts(Start(200, 1000), events)
    ensures var v := Protocol.After(Start(200, 1000), events);
      v.snd.input.accepted == data && v.snd.input.popped == 129 && Transmitted(v) == data[..128]
  {
    hide Runs, Protocol.After, S.Push;
    var w0, w := Start(200, 1000), Established(200, 1000);
    var m := SenderMessage(1, false, data[..128], false);
    var opening := Opening(200, 1000);
    OneMore(w0, opening, Write(data));
    var w1 := w.(snd := Sending(200, data, 0, false, 0, 1, 1000, 1, false, []));
    assert data[..129] == data && [] + data == data;
    assert Next(w, Write(data)) == w1;
    PushesHead(data);
    OneMore(w0, opening + [Write(data)], Push);
    events := opening + [Write(data)] + [Push];
    var log := [Syn(), m];
    assert Next(w1, Push).log == log && log[1..] == [m];
    One(m);
    assert [] + data[..128] == data[..128];
  }

  // Two bytes outstanding when the window shrinks.

  function Two(a: byte, b: byte): SenderMessage {
    SenderMessage(1, false, [a, b], false)
  }

  /** The sender with both bytes in flight. */
  function TwoSent(a: byte, b: byte, closed: bool, windowSize: u16): S.State {
    Sending(10, [a, b], 2, closed, 2, 3, windowSize, 1, false, [Two(a, b)])
  }

  lemma PushesTwo(a: byte, b: byte)
    ensures S.Push(Sending(10, [a, b], 0, false, 0, 1, 2, 1, false, [])) == (TwoSent(a, b, false, 2), [Two(a, b)])
  {
    var s, t, m := Sending(10, [a, b], 0, false, 0, 1, 2, 1, false, []), TwoSent(a, b, false, 2), Two(a, b);
    assert s.input.Peek() == [a, b] && [a, b][..2] == [a, b] && [] + [m] == [m];
    assert S.PushOne(s) == (t, [m]);
    assert S.PushData(t) == (t, []) && S.PushFin(t) == (t, []);
    assert S.PushData(s) == (t, [m] + []);
    assert [] + ([m] + []) + [] == [m];
  }

  function Normal(s: S.State): Full {
    Full(s, false, false, [])
  }

  /** SYN, a window of two, and two bytes into it. */
  lemma SendsTwo(a: byte, b: byte) returns (events: seq<Z.Event>)
    ensures Z.Runs(Z.Start(0, 1000, 10), events)
    ensures Z.After(Z.Start(0, 1000, 10), events) == Normal(TwoSent(a, b, false, 2))
  {
    hide Z.Runs, Z.After, S.Push, S.ReceiveAck, Unwrap;
    var f0 := Z.Start(0, 1000, 10);
    var f1 := Normal(Sending(10, [], 0, false, 1, 1, 0, 0, false, [Syn()]));
    var f2 := Normal(Established(10, 2).snd);
    var f3 := Normal(Sending(10, [a, b], 0, false, 0, 1, 2, 1, false, []));
    NoEventsYet(f0);
    PushesSyn(10, 2);
    Z.OneMore(f0, [], Z.Push);
    assert Z.Next(f0, Z.Push) == f1;
    AcksSyn(10, 2);
    Z.OneMore(f0, [] + [Z.Push], Z.Ack(1, 2));
    assert Z.Next(f1, Z.Ack(1, 2)) == f2;
    assert [] + [a, b][..2] == [a, b];
    Z.OneMore(f0, [] + [Z.Push] + [Z.Ack(1, 2)], Z.Write([a, b]));
    assert Z.Next(f2, Z.Write([a, b])) == f3;
    PushesTwo(a, b);
    Z.OneMore(f0, [] + [Z.Push] + [Z.Ack(1, 2)] + [Z.Write([a, b])], Z.Push);
    assert Z.Next(f3, Z.Push) == Normal(TwoSent(a, b, false, 2));
    events := [] + [Z.Push] + [Z.Ack(1, 2)] + [Z.Write([a, b])] + [Z.Push];
  }

  lemma NoEventsYet(f: Full)
    ensures Z.Runs(f, []) && Z.After(f, []) == f
  {
  }

  /** A run that shrinks the window to one: the FIN goes out all the same. */
  lemma FinOverrunsWindow(a: byte, b: byte) returns (events: seq<Z.Event>)
    ensures Z.Runs(Z.Start(0, 1000, 10), events)
    ensures var fin := SenderMessage(3, false, [], true); var s := TwoSent(a, b, true, 1);
      && Z.After(Z.Start(0, 1000, 10), events) == Normal(s)
      && SenderLaws.Inv(s, [a, b]) && s.seqInFlight > s.windowSize
      && S.Push(s) == (Sending(10, [a, b], 2, true, 3, 4, 1, 1, true, [Two(a, b), fin]), [fin])
  {
    hide Z.Runs, Z.After;
    var f0, f := Z.Start(0, 1000, 10), Normal(TwoSent(a, b, false, 2));
    var before := SendsTwo(a, b);
    Z.OneMore(f0, before, Z.Ack(1, 1));
    assert Z.Next(f, Z.Ack(1, 1)) == Normal(TwoSent(a, b, false, 1));
    Z.OneMore(f0, before + [Z.Ack(1, 1)], Z.Close);
    events := before + [Z.Ack(1, 1)] + [Z.Close];
    InFlight(a, b, true, 1);
    PushesOnlyFin(a, b);
  }

  lemma PushesOnlyFin(a: byte, b: byte)
    ensures var fin := SenderMessage(3, false, [], true);
      S.Push(TwoSent(a, b, true, 1)) == (Sending(10, [a, b], 2, true, 3, 4, 1, 1, true, [Two(a, b), fin]), [fin])
  {
    var m, fin, s := Two(a, b), SenderMessage(3, false, [], true), TwoSent(a, b, true, 1);
    var t := Sending(10, [a, b], 2, true, 3, 4, 1, 1, true, [m, fin]);
    assert s.input.Peek() == [] && s.window + [fin] == [m, fin];
    assert S.PushOne(s) == (t, [fin]);
    assert S.PushData(s) == (s, []) && S.PushFin(s) == (t, [fin]);
    assert [] + [] + [fin] == [fin];
  }

  lemma InFlight(a: byte, b: byte, closed: bool, windowSize: u16)
    ensures SenderLaws.Inv(TwoSent(a, b, closed, windowSize), [a, b])
  {
    var m := Two(a, b);
    One(m);
    assert [m][1..] == [];
    assert Says(m, 0, 1, [a, b], false);
    assert Chain([], 0, 3, [a, b], false);
  }

  // The time-out.

  /** Ticks long enough to fire, one after the other, with no acknowledgement. */
  lemma {:induction false} Unanswered(v: World, n: nat) returns (events: seq<Protocol.Event>)
    requires Protocol.Inv(v) && TimerInv(v.snd) && v.snd.window != []
    ensures Runs(v, events)
    ensures var u := Protocol.After(v, events);
      && Protocol.Inv(u) && TimerInv(u.snd) && u.snd.window == v.snd.window
      && u.snd.crt == v.snd.crt + n && u.snd.initialRTO == v.snd.initialRTO
    decreases n
  {
    hide Protocol.Inv, TimerInv, S.Tick;
    if n == 0 {
      events := [];
    } else {
      var e := Tick(Remaining(v.snd));
      TimeOutFires(v.snd);
      TickOk(v, Remaining(v.snd));
      var rest := Unanswered(Next(v, e), n - 1);
      events := [e] + rest;
      assert events[1..] == rest;
    }
  }

  lemma {:induction false} PowerSum(m: nat, n: nat)
    ensures Pow2(m + n) == Pow2(m) * Pow2(n)
  {
    if m > 0 {
      PowerSum(m - 1, n);
      TwiceProduct(Pow2(m - 1), Pow2(n));
      assert Pow2(m) == 2 * Pow2(m - 1) && Pow2(m + n) == 2 * Pow2(m - 1 + n);
    }
  }

  lemma TwiceProduct(a: nat, b: nat)
    ensures 2 * (a * b) == (2 * a) * b
  {
  }

  lemma Power61()
    ensures Pow2(61) == 0x2000_0000_0000_0000
  {
    assert Pow2(5) == 32;
    PowerSum(5, 5);
    PowerSum(10, 10);
    PowerSum(20, 20);
    PowerSum(40, 20);
  }

  /** A run of 61 retransmissions of the SYN, after which a time-out of 1000 ms has become zero. */
  lemma TimeoutReachesZero() returns (events: seq<Protocol.Event>)
    ensures Runs(Start(10, 10), events) && Starts(Start(10, 10), events)
    ensures var v := Protocol.After(Start(10, 10), events); v.snd.crt == 61 && v.snd.rto == 0 && v.snd.window == [Syn()]
  {
    hide Protocol.Inv, Runs, Protocol.After, S.Push;
    var w := Start(10, 10);
    InitialOk(0, 1000, 10, 10);
    InitialTimer(0, 1000, 10, 10);
    PushOk(w);
    PushesSyn(10, 10);
    NoEvents(w);
    OneMore(w, [], Push);
    var rest := Unanswered(Next(w, Push), 61);
    Continued(w, [] + [Push], rest);
    events := [] + [Push] + rest;
    Power61();
  }

  /** A time-out of zero stays zero, and every tick retransmits, until something new is acknowledged. */
  lemma ZeroTimeoutStays(w: World, e: Protocol.Event)
    requires Protocol.Inv(w) && Enabled(w, e) && TimerInv(w.snd) && w.snd.rto == 0
    ensures Next(w, e).snd.rto == 0 || Next(w, e).snd.lastAck > w.snd.lastAck
    ensures forall ms :: w.snd.window != [] ==> S.Tick(w.snd, ms).1 == [w.snd.window[0]]
  {
    hide S.Push, S.ReceiveAck, R.Receive, Protocol.Inv, TimerInv, Transmitted;
    SenderParts(w);
    match e
    case Push => PushKeeps(w.snd, Transmitted(w));
    case DeliverAck(a) =>
      AckKeepsTimer(w.snd, a.ackno.value, a.windowSize);
      ReceiveAckKeeps(w.snd, Transmitted(w), a.ackno.value, a.windowSize);
    case _ =>
  }

  lemma SenderParts(w: World)
    requires Protocol.Inv(w)
    ensures SenderLaws.Inv(w.snd, Transmitted(w)) && InRange(w.snd) && w.snd.input.Valid()
    ensures w.snd.seqInFlight <= w.snd.nextSeq && w.snd.lastAck == w.snd.nextSeq - w.snd.seqInFlight
  {
    hide Truthful, AckUpTo, OfText, Chain;
    SenderBound(w);
  }

  // The zero-window probe.

  /** A run that closes the window: the probe says the first byte again as the third, and the second is cut. */
  lemma ProbeCutsAndLies(a: byte, b: byte) returns (events: seq<Z.Event>)
    ensures Z.Runs(Z.Start(0, 1000, 10), events)
    ensures var probe := SenderMessage(3, false, [a], false); var s := TwoSent(a, b, false, 0);
      var f := Full(s, true, false, []);
      var (g, out) := PushProbe(f);
      && Z.After(Z.Start(0, 1000, 10), events) == f && SenderLaws.Inv(s, [a, b])
      && out == [probe] && !Truthful(probe, 0, [a, b], false)
      && Payloads(s.window) == [a, b] && Payloads(g.base.window) == [a]
  {
    hide Z.Runs, Z.After;
    var f0, f := Z.Start(0, 1000, 10), Normal(TwoSent(a, b, false, 2));
    var before := SendsTwo(a, b);
    Z.OneMore(f0, before, Z.Ack(1, 0));
    assert Z.Next(f, Z.Ack(1, 0)) == Full(TwoSent(a, b, false, 0), true, false, []);
    events := before + [Z.Ack(1, 0)];
    ProbesTwo(a, b);
  }

  lemma ProbesTwo(a: byte, b: byte)
    ensures var probe := SenderMessage(3, false, [a], false); var s := TwoSent(a, b, false, 0);
      var (g, out) := PushProbe(Full(s, true, false, []));
      && SenderLaws.Inv(s, [a, b]) && out == [probe] && !Truthful(probe, 0, [a, b], false)
      && Payloads(s.window) == [a, b] && Payloads(g.base.window) == [a]
  {
    var m := Two(a, b);
    var f := Full(TwoSent(a, b, false, 0), true, false, []);
    InFlight(a, b, false, 0);
    Z.ProbeIsTruthful(f, [a, b]);
    One(m);
    One(m.(payload := [a]));
    assert [a, b][..1] == [a];
    assert PushProbe(f).0.base.window == [m.(payload := [a])];
  }

  function Closing(b: byte, k: nat): Full {
    var accepted: seq<byte> := if k == 0 then [] else [b];
    var probe := SenderMessage(1, false, [b], false);
    if k <= 1 then Full(Sending(10, accepted, 0, false, 0, 1, 0, 1, false, []), true, false, [])
    else if k == 2 then Full(Sending(10, [b], 1, false, 1, 2, 0, 1, false, []), true, true, [probe])
    else Full(Sending(10, [b], 1, false, 0, 2, 0, 1, false, []), true, false, [])
  }

  lemma ProbesWithByte(b: byte)
    ensures PushAny(Closing(b, 1)) == (Closing(b, 2), [SenderMessage(1, false, [b], false)])
    ensures ReceiveAny(Closing(b, 2), 1, 0) == Closing(b, 3)
  {
    hide Unwrap, Wrap;
    var s := Closing(b, 1).base;
    assert s.input.Buffered() == [b] && s.input.Peek() == [b] && [b][..1] == [b];
    assert Closing(b, 1).probes + [SenderMessage(1, false, [b], false)] == Closing(b, 2).probes;
    assert Unwrap(1, 0, 1) == 1 by { WrapUnwrap(1, 0, 1); WrapOne(); }
    assert Wrap(1, 0) == 1 by { WrapOne(); }
    assert Closing(b, 2).probes[..0] == [];
  }

  lemma WrapOne()
    ensures Wrap(1, 0) == 1
  {
  }

  /**
   * A run in which the window is closed from the start, a byte is written, and the probe with it is answered with the
   * same number and a window still closed. The byte is then nowhere any more, and whatever follows, it is not sent
   * again.
   */
  lemma RejectedProbeLosesByte(b: byte) returns (events: seq<Z.Event>)
    ensures Z.Runs(Z.Start(0, 1000, 10), events)
    ensures var f := Z.After(Z.Start(0, 1000, 10), events);
      && f.base.input.accepted == [b] && f.base.input.popped == 1 && f.base.lastAck == 1 && f.base.nextSeq == 2
      && f.base.window == [] && f.probes == []
      && forall more | Z.Runs(f, more) ::
          B.AllWritten(B.SentIn(f, more), Z.After(f, more).base.input.accepted, 1)
  {
    hide Z.Runs, Z.After, S.Push, S.ReceiveAck, Unwrap, B.SentIn, B.AllWritten;
    var f0 := Z.Start(0, 1000, 10);
    var f1 := Normal(Sending(10, [], 0, false, 1, 1, 0, 0, false, [Syn()]));
    NoEventsYet(f0);
    PushesSyn(10, 2);
    Z.OneMore(f0, [], Z.Push);
    assert Z.Next(f0, Z.Push) == f1;
    AcksSyn(10, 0);
    Z.OneMore(f0, [] + [Z.Push], Z.Ack(1, 0));
    assert Z.Next(f1, Z.Ack(1, 0)) == Closing(b, 0);
    Z.OneMore(f0, [] + [Z.Push] + [Z.Ack(1, 0)], Z.Write([b]));
    assert [] + [b][..1] == [b];
    assert Z.Next(Closing(b, 0), Z.Write([b])) == Closing(b, 1);
    ProbesWithByte(b);
    events := [] + [Z.Push] + [Z.Ack(1, 0)] + [Z.Write([b])];
    Z.OneMore(f0, events, Z.Push);
    Z.OneMore(f0, events + [Z.Push], Z.Ack(1, 0));
    events := events + [Z.Push] + [Z.Ack(1, 0)];
    var f := Closing(b, 3);
    B.NoneWritten([b], 1);
    forall more | Z.Runs(f, more)
      ensures B.AllWritten(B.SentIn(f, more), Z.After(f, more).base.input.accepted, 1)
    {
      B.RunWritten(f, more, 1);
    }
  }

  // A segment that overtakes the SYN.

  /** The FIN of an empty stream is sent right behind the SYN and arrives first: every answer carries a reset. */
  lemma OvertakenSynIsReset() returns (events: seq<Protocol.Event>)
    ensures Runs(Start(10, 10), events) && Starts(Start(10, 10), events)
    ensures var v := Protocol.After(Start(10, 10), events);
      && v.rcv.error && v.rcv.syn == 0
      && forall more | Runs(v, more) :: forall a <- Protocol.After(v, more).acks :: a.rst
  {
    hide Runs, Protocol.After, S.Push;
    var w0, fin := Start(10, 10), SenderMessage(1, false, [], true);
    NoEvents(w0);
    PushesSyn(10, 10);
    OneMore(w0, [], Push);
    var w1 := World(Sending(10, [], 0, false, 1, 1, 0, 0, false, [Syn()]), w0.rcv, {Syn()}, {}, [Syn()]);
    assert Next(w0, Push) == w1;
    OneMore(w0, [] + [Push], Close);
    var w2 := w1.(snd := Sending(10, [], 0, true, 1, 1, 0, 0, false, [Syn()]));
    PushesFinFirst();
    OneMore(w0, [] + [Push] + [Close], Push);
    var w3 := Next(w2, Push);
    OneMore(w0, [] + [Push] + [Close] + [Push], Deliver(fin));
    events := [] + [Push] + [Close] + [Push] + [Deliver(fin)];
    var v := Next(w3, Deliver(fin));
    assert v.rcv == w0.rcv.(error := true) && v.acks == {};
    forall more | Runs(v, more)
      ensures forall a <- Protocol.After(v, more).acks :: a.rst
    {
      ErrorForGood(v, more);
    }
  }

  lemma PushesFinFirst()
    ensures var fin := SenderMessage(1, false, [], true);
      S.Push(Sending(10, [], 0, true, 1, 1, 0, 0, false, [Syn()]))
        == (Sending(10, [], 0, true, 2, 2, 0, 0, true, [Syn(), fin]), [fin])
  {
    var s, fin := Sending(10, [], 0, true, 1, 1, 0, 0, false, [Syn()]), SenderMessage(1, false, [], true);
    var t := Sending(10, [], 0, true, 2, 2, 0, 0, true, [Syn(), fin]);
    assert s.input.Peek() == [] && s.window + [fin] == [Syn(), fin];
    assert S.PushOne(s) == (t, [fin]);
    assert S.PushData(s) == (s, []) && S.PushFin(s) == (t, [fin]);
    assert [] + [] + [fin] == [fin];
  }
}
