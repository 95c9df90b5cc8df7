/** When the receiver counts a FIN too early, and what that costs. */
module EarlyFin {
  import opened MachineInts
  import opened Wrap32
  import opened ByteStreams
  import opened Assembly
  import opened Segments
  import opened Protocol
  import opened EndToEnd
  import opened Handshake

  /** Everything known to the reassembler once a message has been inserted, before the contiguous part is pushed. */
  ghost function KnownWith(r: R.State, m: SenderMessage): map<nat, byte>
    requires r.checkpoint < TWO64 && r.syn <= 1
  {
    r.asm.pending + Visible(r.asm, Signed64(R.FirstIndex(R.Opened(r, m), m)), m.payload, m.fin)
  }

  /** The number of bytes pushed once that has been done. */
  ghost function PushedWith(r: R.State, m: SenderMessage): nat
    requires r.checkpoint < TWO64 && r.syn <= 1
  {
    Run(KnownWith(r, m), |r.asm.out.accepted|)
  }

  /** One FIN is owed, and nothing lies behind a gap. */
  ghost predicate FinDue(r: R.State, m: SenderMessage)
    requires r.checkpoint < TWO64 && r.syn <= 1
  {
    r.needFin + (if m.fin then 1 else 0) == 1 && forall i <- KnownWith(r, m) :: i < PushedWith(r, m)
  }

  /**
   * For every message after a SYN: the FIN is counted exactly when one is owed and everything known has become
   * contiguous -- whether or not that reaches the end of the stream. It is counted too early exactly when it does not.
   */
  lemma FinCounts(r: R.State, m: SenderMessage)
    requires r.Valid() && r.InRange() && R.Opened(r, m).syn == 1 && r.fin == 0
    ensures var t := R.Receive(r, m);
      && |t.asm.out.accepted| == PushedWith(r, m)
      && (t.fin == 1 <==> FinDue(r, m))
      && (FinDue(r, m) ==> t.asm.end.At?)
      && (t.fin == 1 && |t.asm.out.accepted| < t.asm.end.index <==> FinDue(r, m) && PushedWith(r, m) < t.asm.end.index)
  {
    hide Unwrap, Signed64, Visible;
    var known, t := KnownWith(r, m), R.Receive(r, m);
    forall i | i in known && PushedWith(r, m) <= i
      ensures i in t.asm.pending
    {
    }
  }

  /** A bare FIN behind a lost byte is counted at once. */
  lemma CountedBeforeLostByte()
    ensures var t := R.Receive(Receiving(10, 0, 1, 0, false, Unknown), Fin());
      t.fin == 1 && t.asm.end == At(1) && t.asm.out.accepted == []
  {
  }

  /** A segment without FIN can bring one owed to be counted, with the last byte of three still missing. */
  lemma CountedByLaterSegment(a: byte, b: byte)
    ensures var r := R.State(Asm(Stream(10, [], 0, false), map[1 := b], At(3)), 0, 0, 1, 1, 0, 1, false);
      var t := R.Receive(r, SenderMessage(1, false, [a], false));
      r.Valid() && t.fin == 1 && t.asm.end == At(3) && |t.asm.out.accepted| == 2
  {
    var r := R.State(Asm(Stream(10, [], 0, false), map[1 := b], At(3)), 0, 0, 1, 1, 0, 1, false);
    var m := SenderMessage(1, false, [a], false);
    assert R.FirstIndex(r, m) == 0;
    FinCounts(r, m);
    var known := KnownWith(r, m);
    assert forall i: nat :: i in known <==> i < 2;
    RunIs(known, 0, 2);
  }

  /** SYN, 20 bytes and FIN in one segment, into a stream of capacity 10: counted with half of the bytes pushed. */
  lemma CountedBeyondWindow(data: seq<byte>)
    requires |data| == 20
    ensures var t := R.Receive(Receiving(10, 100, 0, 0, false, Unknown), SenderMessage(0, true, data, true));
      t.fin == 1 && t.asm.end == At(20) && |t.asm.out.accepted| == 10
  {
    var r, m := Receiving(10, 100, 0, 0, false, Unknown), SenderMessage(0, true, data, true);
    assert R.FirstIndex(R.Opened(r, m), m) == 0;
    FinCounts(r, m);
    var known := KnownWith(r, m);
    assert forall i: nat :: i in known <==> i < 10;
    RunIs(known, 0, 10);
  }

  // A run that loses a byte: its segment is lost, the FIN behind it is counted early and acknowledged.

  function Data(b: byte): SenderMessage {
    SenderMessage(1, false, [b], false)
  }

  function Fin(): SenderMessage {
    SenderMessage(2, false, [], true)
  }

  lemma PushesData(b: byte)
    ensures S.Push(Sending(10, [b], 0, false, 0, 1, 10, 1, false, []))
      == (Sending(10, [b], 1, false, 1, 2, 10, 1, false, [Data(b)]), [Data(b)])
  {
    var s := Sending(10, [b], 0, false, 0, 1, 10, 1, false, []);
    var t := Sending(10, [b], 1, false, 1, 2, 10, 1, false, [Data(b)]);
    assert s.input.Peek() == [b] && s.input.Peek()[..1] == [b] && s.window + [Data(b)] == [Data(b)];
    assert S.PushOne(s) == (t, [Data(b)]);
    assert S.PushData(t) == (t, []) && S.PushFin(t) == (t, []);
    assert S.PushData(s) == (t, [Data(b)] + []);
    assert [] + ([Data(b)] + []) + [] == [Data(b)];
  }

  lemma PushesFin(b: byte)
    ensures S.Push(Sending(10, [b], 1, true, 1, 2, 10, 1, false, [Data(b)]))
      == (Sending(10, [b], 1, true, 2, 3, 10, 1, true, [Data(b), Fin()]), [Fin()])
  {
    var s := Sending(10, [b], 1, true, 1, 2, 10, 1, false, [Data(b)]);
    var t := Sending(10, [b], 1, true, 2, 3, 10, 1, true, [Data(b), Fin()]);
    assert s.input.Peek() == [] && s.input.Peek()[..0] == [] && s.window + [Fin()] == [Data(b), Fin()];
    assert S.PushOne(s) == (t, [Fin()]);
    assert S.PushData(s) == (s, []) && S.PushFin(s) == (t, [Fin()]);
    assert [] + [] + [Fin()] == [Fin()];
  }

  lemma AcksBoth(b: byte)
    ensures S.ReceiveAck(Sending(10, [b], 1, true, 2, 3, 10, 1, true, [Data(b), Fin()]), 2, 10)
      == Sending(10, [b], 1, true, 1, 3, 10, 2, true, [Fin()])
  {
    assert [Data(b), Fin()][1..] == [Fin()];
    assert S.DropAcked([Fin()], 0, 1, 2) == [Fin()];
  }

  lemma ReceivesFin()
    ensures R.Receive(Receiving(10, 0, 1, 0, false, Unknown), Fin()) == Receiving(10, 0, 1, 1, true, At(1))
  {
  }

  // The states of the run once the connection is open, each with the event that leads on.

  function StateAt(k: nat, b: byte): World {
    var w, data, all := Established(10, 10), {Syn(), Data(b)}, {Syn(), Data(b), Fin()};
    var late := w.acks + {ReceiverMessage(Some(2), 10, false)};
    var early := Receiving(10, 0, 1, 1, true, At(1));
    var unsent := Sending(10, [b], 1, true, 2, 3, 10, 1, true, [Data(b), Fin()]);
    var log := [Syn(), Data(b), Fin()];
    if k == 0 then w
    else if k == 1 then w.(snd := Sending(10, [b], 0, false, 0, 1, 10, 1, false, []))
    else if k == 2 then World(Sending(10, [b], 1, false, 1, 2, 10, 1, false, [Data(b)]), w.rcv, data, w.acks, log[..2])
    else if k == 3 then World(Sending(10, [b], 1, true, 1, 2, 10, 1, false, [Data(b)]), w.rcv, data, w.acks, log[..2])
    else if k == 4 then World(unsent, w.rcv, all, w.acks, log)
    else if k == 5 then World(unsent, early, all, w.acks, log)
    else if k == 6 then World(unsent, early, all, late, log)
    else World(Sending(10, [b], 1, true, 1, 3, 10, 2, true, [Fin()]), early, all, late, log)
  }

  function EventAt(k: nat, b: byte): Protocol.Event {
    if k == 0 then Write([b])
    else if k == 1 then Push
    else if k == 2 then Close
    else if k == 3 then Push
    else if k == 4 then Deliver(Fin())
    else if k == 5 then Acknowledge
    else DeliverAck(ReceiverMessage(Some(2), 10, false))
  }

  lemma StepFollows(k: nat, b: byte)
    requires k < 7
    ensures Enabled(StateAt(k, b), EventAt(k, b)) && Next(StateAt(k, b), EventAt(k, b)) == StateAt(k + 1, b)
  {
    hide S.Push, S.ReceiveAck, R.Receive;
    AcksBoth(b);
    PushesData(b);
    PushesFin(b);
    ReceivesFin();
    assert [] + [b][..1] == [b];
    assert [Syn()] + [Data(b)] == [Syn(), Data(b)] && [Syn(), Data(b)] + [Fin()] == [Syn(), Data(b), Fin()];
  }

  lemma {:induction false} RunTo(k: nat, b: byte) returns (events: seq<Protocol.Event>)
    requires k <= 7
    ensures Runs(Start(10, 10), events) && After(Start(10, 10), events) == StateAt(k, b)
  {
    hide Enabled, Next, EventAt, Runs, After;
    if k == 0 {
      events := Opening(10, 10);
    } else {
      hide StateAt;
      var before := RunTo(k - 1, b);
      StepFollows(k - 1, b);
      OneMore(Start(10, 10), before, EventAt(k - 1, b));
      events := before + [EventAt(k - 1, b)];
    }
  }

  // What can happen after that.

  /** The byte has left the sender: what it may still send, and all that is on its way but the byte, carries no data. */
  ghost predicate Stuck(v: World, b: byte) {
    && v.snd.input.Valid() && v.snd.synSent && v.snd.finSent && (v.snd.window == [Fin()] || v.snd.window == [])
    && (forall m <- v.net :: m.payload == [] || m == Data(b))
    && v.rcv.asm.out.Valid() && v.rcv.asm.out.accepted == [] && v.rcv.asm.pending == map[]
    && v.rcv.checkpoint == 0 && v.rcv.syn <= 1
  }

  lemma NothingInserted(r: R.State, m: SenderMessage)
    requires r.asm.out.Valid() && r.asm.out.accepted == [] && r.asm.pending == map[] && r.checkpoint == 0 && r.syn <= 1
    requires m.payload == []
    ensures var t := R.Receive(r, m);
      && t.asm.out.Valid() && t.asm.out.accepted == [] && t.asm.pending == map[] && t.checkpoint == 0 && t.syn <= 1
  {
    hide Unwrap, Signed64;
    var o := R.Opened(r, m);
    assert Visible(r.asm, Signed64(R.FirstIndex(o, m)), [], m.fin) == map[];
  }

  lemma QueueOfOne(s: S.State, ackno: u32, windowSize: u16)
    requires s.window == [Fin()] || s.window == []
    ensures var t := S.ReceiveAck(s, ackno, windowSize);
      (t.window == [Fin()] || t.window == []) && t.input == s.input && t.synSent == s.synSent && t.finSent == s.finSent
  {
    hide Unwrap;
    var ack := Unwrap(ackno, s.isn, s.lastAck);
    assert [Fin()][1..] == [];
    assert S.DropAcked([], s.isn, s.lastAck, ack) == [];
  }

  /** Whatever happens next, except that a copy of the lost segment still gets through, changes nothing about that. */
  lemma StaysStuck(v: World, b: byte, e: Protocol.Event)
    requires Stuck(v, b) && Enabled(v, e) && e != Deliver(Data(b))
    ensures Stuck(Next(v, e), b) && (Data(b) in Next(v, e).net ==> Data(b) in v.net)
  {
    hide R.Receive, Unwrap;
    match e
    case Push => NothingAfterFin(v.snd);
    case Deliver(m) => NothingInserted(v.rcv, m);
    case DeliverAck(a) => QueueOfOne(v.snd, a.ackno.value, a.windowSize);
    case _ =>
  }

  lemma {:induction false} StuckForever(v: World, b: byte, more: seq<Protocol.Event>)
    requires Stuck(v, b) && Runs(v, more) && (Deliver(Data(b)) !in more || Data(b) !in v.net)
    ensures Stuck(After(v, more), b) && (Data(b) in After(v, more).net ==> Data(b) in v.net)
    decreases |more|
  {
    hide Stuck, Next;
    if more != [] {
      assert more[0] in more;
      StaysStuck(v, b, more[0]);
      StuckForever(Next(v, more[0]), b, more[1..]);
    }
  }

  /**
   * A run after which a byte is lost for good: the receiver, which never got it, has counted the FIN behind it and
   * closed the stream, and the sender has dropped its segment. Whatever follows, the byte gets in only if a copy of
   * that very segment was still on its way; once the channel has lost it, it is never sent again.
   */
  lemma EarlyFinLosesByte(b: byte) returns (events: seq<Protocol.Event>)
    ensures Runs(Start(10, 10), events) && Starts(Start(10, 10), events)
    ensures var v := After(Start(10, 10), events);
      && v.snd.input.accepted == [b] && v.snd.window == [Fin()] && v.log == [Syn(), Data(b), Fin()]
      && v.rcv.fin == 1 && v.rcv.asm.out.closed && v.rcv.asm.out.accepted == []
      && (forall more | Runs(v, more) && Deliver(Data(b)) !in more :: After(v, more).rcv.asm.out.accepted == [])
      && (forall more | Runs(Lost(v), more) ::
            After(Lost(v), more).rcv.asm.out.accepted == [] && Data(b) !in After(Lost(v), more).net)
  {
    hide Runs, After;
    events := RunTo(7, b);
    var v := StateAt(7, b);
    forall more | Runs(v, more) && Deliver(Data(b)) !in more
      ensures After(v, more).rcv.asm.out.accepted == []
    {
      StuckForever(v, b, more);
    }
    forall more | Runs(Lost(v), more)
      ensures After(Lost(v), more).rcv.asm.out.accepted == [] && Data(b) !in After(Lost(v), more).net
    {
      StuckForever(Lost(v), b, more);
    }
  }
}
