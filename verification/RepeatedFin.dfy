/**
 * When two copies of the FIN arrive before it can be counted: it never is, and its segment is retransmitted for ever.
 */
module RepeatedFin {
  import opened MachineInts
  import opened Wrap32
  import opened ByteStreams
  import opened Assembly
  import opened Segments
  import opened Protocol
  import opened EndToEnd
  import opened Handshake

  /** More FINs have been seen than the one that could still be counted. */
  ghost predicate Overdue(r: R.State) {
    r.syn == 1 && r.fin == 0 && r.needFin >= 2
  }

  lemma StaysOverdue(w: World, e: Protocol.Event)
    requires Enabled(w, e) && Overdue(w.rcv)
    ensures Overdue(Next(w, e).rcv)
  {
    hide S.Push, S.ReceiveAck, Insert, Unwrap;
  }

  /** As long as the FIN is not counted, it cannot be acknowledged. */
  lemma FinOutstanding(w: World)
    requires Protocol.Inv(w) && Overdue(w.rcv)
    ensures w.snd.finSent && w.snd.window != []
  {
    hide SenderLaws.Says, SenderLaws.Chain, Truthful, AckUpTo;
  }

  /** Whatever follows, the FIN is not counted any more, and segments stay outstanding. */
  lemma {:induction false} NeverCounted(w: World, more: seq<Protocol.Event>)
    requires Protocol.Inv(w) && Overdue(w.rcv) && Runs(w, more)
    ensures var v := Protocol.After(w, more); Overdue(v.rcv) && v.snd.window != []
    decreases |more|
  {
    hide Protocol.Inv, Overdue, Enabled, Next;
    if more == [] {
      FinOutstanding(w);
    } else {
      NextOk(w, more[0]);
      StaysOverdue(w, more[0]);
      NeverCounted(Next(w, more[0]), more[1..]);
    }
  }

  // A run that gets there: the first byte is late, and the segment with the second one and the FIN arrives twice.

  function First(a: byte): SenderMessage {
    SenderMessage(1, false, [a], false)
  }

  function Second(b: byte): SenderMessage {
    SenderMessage(2, false, [b], true)
  }

  function Waiting(b: byte, needFin: nat): R.State {
    R.State(Asm(Stream(10, [], 0, false), map[1 := b], At(2)), 0, 0, 1, 1, 0, needFin, false)
  }

  function Complete(a: byte, b: byte): R.State {
    R.State(Asm(Stream(10, [a, b], 0, true), map[], At(2)), 0, 2, 1, 1, 0, 2, false)
  }

  lemma ReceivesSecond(b: byte)
    ensures R.Receive(Receiving(10, 0, 1, 0, false, Unknown), Second(b)) == Waiting(b, 1)
    ensures R.Receive(Waiting(b, 1), Second(b)) == Waiting(b, 2)
  {
    var s, t := Receiving(10, 0, 1, 0, false, Unknown).asm, Waiting(b, 1).asm;
    assert Visible(s, 1, [b], true) == Visible(t, 1, [b], true) == map[1 := b];
    assert s.pending + map[1 := b] == t.pending + map[1 := b] == map[1 := b];
    NothingNew(s.(pending := map[1 := b]), At(2), false);
    NothingNew(t, At(2), false);
    assert Outcome(s, At(2), false, map[1 := b]) == Outcome(t, At(2), false, map[1 := b]) == t;
    assert Insert(s, 1, [b], true) == t && 1 in t.pending;
    assert R.FirstIndex(Receiving(10, 0, 1, 0, false, Unknown), Second(b)) == 1;
  }

  lemma ReceivesFirst(a: byte, b: byte)
    ensures R.Receive(Waiting(b, 2), First(a)) == Complete(a, b)
  {
    var s := Waiting(b, 2).asm;
    assert Visible(s, 0, [a], false) == map[0 := a];
    var known := map[1 := b] + map[0 := a];
    RunIs(known, 0, 2);
    assert Slice(known, 0, 2) == [a, b];
    assert [] + [a, b] == [a, b];
    assert (map i | i in known && 2 <= i :: known[i]) == map[];
  }

  lemma PushesFirst(a: byte)
    ensures S.Push(Sending(10, [a], 0, false, 0, 1, 10, 1, false, []))
      == (Sending(10, [a], 1, false, 1, 2, 10, 1, false, [First(a)]), [First(a)])
  {
    var s := Sending(10, [a], 0, false, 0, 1, 10, 1, false, []);
    var t := Sending(10, [a], 1, false, 1, 2, 10, 1, false, [First(a)]);
    assert s.input.Peek() == [a] && s.input.Peek()[..1] == [a] && s.window + [First(a)] == [First(a)];
    assert S.PushOne(s) == (t, [First(a)]);
    assert S.PushData(t) == (t, []) && S.PushFin(t) == (t, []);
    assert S.PushData(s) == (t, [First(a)] + []);
    assert [] + ([First(a)] + []) + [] == [First(a)];
  }

  lemma PushesSecond(a: byte, b: byte)
    ensures S.Push(Sending(10, [a, b], 1, true, 1, 2, 10, 1, false, [First(a)]))
      == (Sending(10, [a, b], 2, true, 3, 4, 10, 1, true, [First(a), Second(b)]), [Second(b)])
  {
    var s := Sending(10, [a, b], 1, true, 1, 2, 10, 1, false, [First(a)]);
    var t := Sending(10, [a, b], 2, true, 3, 4, 10, 1, true, [First(a), Second(b)]);
    assert [a, b][1..] == [b];
    assert s.input.Peek() == [b] && s.input.Peek()[..1] == [b] && s.window + [Second(b)] == [First(a), Second(b)];
    assert S.PushOne(s) == (t, [Second(b)]);
    assert S.PushData(t) == (t, []) && S.PushFin(t) == (t, []);
    assert S.PushData(s) == (t, [Second(b)] + []);
    assert [] + ([Second(b)] + []) + [] == [Second(b)];
  }

  function StateAt(k: nat, a: byte, b: byte): World {
    var w, one, all := Established(10, 10), {Syn(), First(a)}, {Syn(), First(a), Second(b)};
    var log := [Syn(), First(a), Second(b)];
    var sent := Sending(10, [a, b], 2, true, 3, 4, 10, 1, true, [First(a), Second(b)]);
    if k == 0 then w
    else if k == 1 then w.(snd := Sending(10, [a], 0, false, 0, 1, 10, 1, false, []))
    else if k == 2 then World(Sending(10, [a], 1, false, 1, 2, 10, 1, false, [First(a)]), w.rcv, one, w.acks, log[..2])
    else if k == 3 then World(Sending(10, [a, b], 1, false, 1, 2, 10, 1, false, [First(a)]), w.rcv, one, w.acks,
                               log[..2])
    else if k == 4 then World(Sending(10, [a, b], 1, true, 1, 2, 10, 1, false, [First(a)]), w.rcv, one, w.acks,
                               log[..2])
    else if k == 5 then World(sent, w.rcv, all, w.acks, log)
    else if k == 6 then World(sent, Waiting(b, 1), all, w.acks, log)
    else if k == 7 then World(sent, Waiting(b, 2), all, w.acks, log)
    else World(sent, Complete(a, b), all, w.acks, log)
  }

  function EventAt(k: nat, a: byte, b: byte): Protocol.Event {
    if k == 0 then Write([a])
    else if k == 1 then Push
    else if k == 2 then Write([b])
    else if k == 3 then Close
    else if k == 4 then Push
    else if k == 5 then Deliver(Second(b))
    else if k == 6 then Deliver(Second(b))
    else Deliver(First(a))
  }

  lemma StepFollows(k: nat, a: byte, b: byte)
    requires k < 8
    ensures Enabled(StateAt(k, a, b), EventAt(k, a, b))
    ensures Next(StateAt(k, a, b), EventAt(k, a, b)) == StateAt(k + 1, a, b)
  {
    hide S.Push, S.ReceiveAck, R.Receive;
    PushesFirst(a);
    PushesSecond(a, b);
    ReceivesSecond(b);
    ReceivesFirst(a, b);
    assert [] + [a][..1] == [a] && [a] + [b][..1] == [a, b];
    assert [Syn()] + [First(a)] == [Syn(), First(a)] && [Syn(), First(a)] + [Second(b)] == [Syn(), First(a), Second(b)];
  }

  lemma {:induction false} RunTo(k: nat, a: byte, b: byte) returns (events: seq<Protocol.Event>)
    requires k <= 8
    ensures Runs(Start(10, 10), events) && Protocol.After(Start(10, 10), events) == StateAt(k, a, b)
  {
    hide Enabled, Next, EventAt, Runs, Protocol.After;
    if k == 0 {
      events := Opening(10, 10);
    } else {
      hide StateAt;
      var before := RunTo(k - 1, a, b);
      StepFollows(k - 1, a, b);
      OneMore(Start(10, 10), before, EventAt(k - 1, a, b));
      events := before + [EventAt(k - 1, a, b)];
    }
  }

  /**
   * A run after which everything has been pushed and the receiver's stream is closed, but the FIN, which arrived twice
   * while a byte was missing, will not be counted in any continuation, so that its segment stays in the queue.
   */
  lemma RepeatedFinStaysOutstanding(a: byte, b: byte) returns (events: seq<Protocol.Event>)
    ensures Runs(Start(10, 10), events) && Starts(Start(10, 10), events)
    ensures var v := Protocol.After(Start(10, 10), events);
      && v.snd.input.accepted == [a, b] == v.rcv.asm.out.accepted && v.rcv.asm.out.closed
      && v.snd.window == [First(a), Second(b)] && v.rcv.fin == 0
      && forall more | Runs(v, more) :: Protocol.After(v, more).rcv.fin == 0 && Protocol.After(v, more).snd.window != []
  {
    hide Runs, Protocol.After, Protocol.Inv;
    events := RunTo(8, a, b);
    var v := StateAt(8, a, b);
    assert Starts(Start(10, 10), events);
    InvAlways(Start(10, 10), events);
    forall more | Runs(v, more)
      ensures Protocol.After(v, more).rcv.fin == 0 && Protocol.After(v, more).snd.window != []
    {
      NeverCounted(v, more);
    }
  }
}
