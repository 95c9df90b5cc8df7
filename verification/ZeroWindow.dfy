/** What holds across both modes of the sender, and exactly when a zero-window probe tells the truth. */
module ZeroWindow {
  import opened MachineInts
  import opened Wrap32
  import opened ByteStreams
  import opened Segments
  import opened Sender
  import opened SenderLaws
  import opened Probing
  import P = Protocol
  import E = EndToEnd

  datatype Event = Write(data: seq<byte>) | Close | Push | Tick(ms: u64) | Ack(ackno: u32, windowSize: u16)

  predicate Enabled(f: Full, e: Event) {
    f.base.input.Valid() && (e.Ack? && f.probe ==> f.probes != [])
  }

  function Next(f: Full, e: Event): Full
    requires Enabled(f, e)
  {
    match e
    case Write(data) => f.(base := f.base.(input := f.base.input.Push(data)))
    case Close => f.(base := f.base.(input := f.base.input.(closed := true)))
    case Push => PushAny(f).0
    case Tick(ms) => TickAny(f, ms).0
    case Ack(ackno, windowSize) => ReceiveAny(f, ackno, windowSize)
  }

  ghost predicate Runs(f: Full, events: seq<Event>)
    decreases |events|
  {
    events == [] || (Enabled(f, events[0]) && Runs(Next(f, events[0]), events[1..]))
  }

  ghost function After(f: Full, events: seq<Event>): Full
    requires Runs(f, events)
    decreases |events|
  {
    if events == [] then f else After(Next(f, events[0]), events[1..])
  }

  lemma {:induction false} OneMore(f: Full, events: seq<Event>, e: Event)
    requires Runs(f, events) && Enabled(After(f, events), e)
    ensures Runs(f, events + [e]) && After(f, events + [e]) == Next(After(f, events), e)
    decreases |events|
  {
    hide Enabled, Next;
    if events == [] {
      assert events + [e] == [e] && [e][1..] == [];
      assert After(Next(f, e), []) == Next(f, e);
    } else {
      assert (events + [e])[1..] == events[1..] + [e];
      OneMore(Next(f, events[0]), events[1..], e);
    }
  }

  // The time-out.

  ghost predicate Doubled(s: State) {
    s.rto == s.initialRTO * Pow2(s.crt) % TWO64
  }

  ghost predicate SameTimer(s: State, t: State) {
    t.rto == s.rto && t.crt == s.crt && t.initialRTO == s.initialRTO
  }

  lemma {:induction false} PushDataSameTimer(s: State)
    requires s.input.Valid() && s.synSent
    ensures SameTimer(s, PushData(s).0) && PushData(s).0.windowSize == s.windowSize
    decreases |s.input.accepted| - s.input.popped
  {
    if CanPushData(s) {
      PushOneTakes(s);
      PushDataSameTimer(PushOne(s).0);
    }
  }

  lemma PushSameTimer(s: State)
    requires s.input.Valid()
    ensures SameTimer(s, Sender.Push(s).0) && Sender.Push(s).0.windowSize == s.windowSize
  {
    hide PushOne, PushData;
    PushOneTakes(s);
    var t := if s.synSent then s else PushOne(s).0;
    PushDataSameTimer(t);
    PushOneTakes(PushData(t).0);
  }

  lemma SameStaysDoubled(s: State, t: State)
    requires Doubled(s) && SameTimer(s, t)
    ensures Doubled(t)
  {
  }

  lemma TickDoubles(f: Full, ms: u64)
    requires Doubled(f.base)
    ensures Doubled(TickAny(f, ms).0.base) && TickAny(f, ms).0.base.initialRTO == f.base.initialRTO
  {
    var s := f.base;
    DoubledModulo(s.initialRTO * Pow2(s.crt));
    var x := Pow2(s.crt);
    assert s.initialRTO * Pow2(s.crt + 1) == 2 * (s.initialRTO * x);
  }

  lemma AckDoubles(f: Full, ackno: u32, windowSize: u16)
    requires Doubled(f.base) && (f.probe ==> f.probes != [])
    ensures Doubled(ReceiveAny(f, ackno, windowSize).base)
    ensures ReceiveAny(f, ackno, windowSize).base.initialRTO == f.base.initialRTO
  {
    hide Unwrap, DropAcked, Doubled, Add64, Sub64;
    var s, t := f.base, ReceiveAny(f, ackno, windowSize).base;
    assert SameTimer(s, t) || (t.crt == 0 && t.rto == t.initialRTO == s.initialRTO);
    if SameTimer(s, t) {
      SameStaysDoubled(s, t);
    } else {
      ResetIsDoubled(t);
    }
  }

  lemma ResetIsDoubled(s: State)
    requires s.crt == 0 && s.rto == s.initialRTO
    ensures Doubled(s)
  {
  }

  lemma NextDoubles(f: Full, e: Event)
    requires Enabled(f, e) && Doubled(f.base)
    ensures Doubled(Next(f, e).base) && Next(f, e).base.initialRTO == f.base.initialRTO
  {
    hide Sender.Push, Doubled, TickAny, ReceiveAny, Wrap;
    match e
    case Push =>
      PushSameTimer(f.base);
      SameStaysDoubled(f.base, Next(f, e).base);
    case Tick(ms) => TickDoubles(f, ms);
    case Ack(ackno, windowSize) => AckDoubles(f, ackno, windowSize);
    case _ => SameStaysDoubled(f.base, Next(f, e).base);
  }

  lemma {:induction false} RunDoubles(f: Full, events: seq<Event>)
    requires Doubled(f.base) && Runs(f, events)
    ensures Doubled(After(f, events).base) && After(f, events).base.initialRTO == f.base.initialRTO
    decreases |events|
  {
    hide Enabled, Next, Doubled;
    if events != [] {
      NextDoubles(f, events[0]);
      RunDoubles(Next(f, events[0]), events[1..]);
    }
  }

  function Start(isn: u32, initialRTO: u64, capacity: nat): Full {
    Full(State(isn, initialRTO, Stream(capacity, [], 0, false), 0, 0, 0, 0, 0, false, false, [], 0, initialRTO),
      false, false, [])
  }

  /**
   * In every run, zero windows and probes included, the time-out is the initial one doubled once per retransmission.
   */
  lemma AlwaysDoubled(isn: u32, initialRTO: u64, capacity: nat, events: seq<Event>)
    requires Runs(Start(isn, initialRTO, capacity), events)
    ensures var s := After(Start(isn, initialRTO, capacity), events).base; s.rto == initialRTO * Pow2(s.crt) % TWO64
  {
    hide Runs, After;
    ResetIsDoubled(Start(isn, initialRTO, capacity).base);
    RunDoubles(Start(isn, initialRTO, capacity), events);
  }

  // The probes that are out.

  ghost predicate OneProbe(f: Full) {
    f.base.input.Valid() && |f.probes| == (if f.waiting then 1 else 0) && (f.waiting ==> f.probe)
  }

  lemma NextOneProbe(f: Full, e: Event)
    requires Enabled(f, e) && OneProbe(f)
    ensures OneProbe(Next(f, e))
  {
    hide Sender.Push, DropAcked, Unwrap, Wrap, Cut;
  }

  lemma {:induction false} RunOneProbe(f: Full, events: seq<Event>)
    requires OneProbe(f) && Runs(f, events)
    ensures OneProbe(After(f, events))
    decreases |events|
  {
    hide Enabled, Next, OneProbe;
    if events != [] {
      NextOneProbe(f, events[0]);
      RunOneProbe(Next(f, events[0]), events[1..]);
    }
  }

  /**
   * In every run at most one probe is out, and what the code does with an acknowledgement is defined exactly if it is
   * not probing or has a probe out; so a second acknowledgement right behind the one that closed the window is not.
   */
  lemma AnswersDefined(isn: u32, initialRTO: u64, capacity: nat, events: seq<Event>, ackno: u32, windowSize: u16)
    requires Runs(Start(isn, initialRTO, capacity), events)
    ensures var f := After(Start(isn, initialRTO, capacity), events);
      && |f.probes| <= 1
      && (Enabled(f, Ack(ackno, windowSize)) <==> !f.probe || f.waiting)
      && (!f.probe ==> !Enabled(Next(f, Ack(ackno, 0)), Ack(ackno, windowSize)))
  {
    hide ReceiveAck;
    RunOneProbe(Start(isn, initialRTO, capacity), events);
  }

  // The mode.

  /** The window of the last acknowledgement, if there was one. */
  function LastWindow(events: seq<Event>, before: Option<u16>): Option<u16> {
    if events == [] then before
    else LastWindow(events[1..], if events[0].Ack? then Some(events[0].windowSize) else before)
  }

  /** The sender knows the last window, and probes exactly if that is zero. */
  ghost predicate Follows(f: Full, w: Option<u16>) {
    f.base.windowSize == (if w.Some? then w.value else 0) && (f.probe <==> w == Some(0))
  }

  /** Whatever the mode and the number of probes: after an acknowledgement its window decides. */
  lemma ModeFollowsWindow(f: Full, ackno: u32, windowSize: u16)
    requires f.probe ==> f.probes != []
    ensures var t := ReceiveAny(f, ackno, windowSize);
      && (t.probe <==> windowSize == 0)
      && (windowSize != 0 ==> t.base.windowSize == windowSize && (OneProbe(f) ==> !t.waiting && t.probes == []))
  {
    hide DropAcked, Unwrap;
  }

  lemma NextFollows(f: Full, e: Event, w: Option<u16>)
    requires Enabled(f, e) && Follows(f, w)
    ensures Follows(Next(f, e), if e.Ack? then Some(e.windowSize) else w)
  {
    hide Sender.Push, DropAcked, Unwrap, Wrap, Cut;
    if e.Push? {
      PushSameTimer(f.base);
    }
  }

  lemma {:induction false} RunFollows(f: Full, events: seq<Event>, w: Option<u16>)
    requires Follows(f, w) && Runs(f, events)
    ensures Follows(After(f, events), LastWindow(events, w))
    decreases |events|
  {
    hide Enabled, Next, Follows;
    if events != [] {
      NextFollows(f, events[0], w);
      RunFollows(Next(f, events[0]), events[1..], if events[0].Ack? then Some(events[0].windowSize) else w);
    }
  }

  /** In every run the sender probes if and only if the last acknowledgement closed the window. */
  lemma ProbesWhileClosed(isn: u32, initialRTO: u64, capacity: nat, events: seq<Event>)
    requires Runs(Start(isn, initialRTO, capacity), events)
    ensures var f := After(Start(isn, initialRTO, capacity), events); var w := LastWindow(events, None);
      && (f.probe <==> w == Some(0))
      && f.base.windowSize == (if w.Some? then w.value else 0)
  {
    RunFollows(Start(isn, initialRTO, capacity), events, None);
  }

  // A probe and its answer.

  /** The sender is about to probe, with no empty segment at the front of its queue. */
  predicate ProbeDue(f: Full) {
    && f.base.input.Valid() && f.probe && !f.waiting && f.probes == []
    && (f.base.window != [] ==> f.base.window[0].SequenceLength() > 0)
  }

  lemma ProbeGoesOut(f: Full)
    requires ProbeDue(f)
    ensures var (g, out) := PushAny(f); var s, t, queued := f.base, g.base, f.base.window != [];
      out != [] ==>
        && out == [out[0]] && out[0].SequenceLength() == 1 && out[0].seqno == Wrap(s.nextSeq, s.isn)
        && g == Full(t, true, true, out)
        && t.nextSeq == (if queued then s.nextSeq else Add64(s.nextSeq, 1))
        && t.seqInFlight == (if queued then s.seqInFlight else Add64(s.seqInFlight, 1))
        && t.isn == s.isn && t.lastAck == s.lastAck && t.windowSize == s.windowSize
        && (!queued ==> t.window == [] && t.input.popped == s.input.popped + |out[0].payload|)
  {
    hide Wrap, Add64;
    if f.base.window == [] {
      FreshIsOne(f.base);
    }
    assert [] + PushAny(f).1 == PushAny(f).1;
  }

  lemma FreshIsOne(s: State)
    requires s.input.Valid()
    ensures var (t, m) := Fresh(s);
      && m.seqno == Wrap(s.nextSeq, s.isn)
      && t == s.(input := t.input, synSent := t.synSent, finSent := t.finSent)
      && t.input.popped == s.input.popped + |m.payload|
  {
    hide Wrap;
  }

  lemma AnswerTaken(g: Full, ackno: u32, windowSize: u16)
    requires g.probe && g.waiting && |g.probes| == 1 && g.base.input.Valid()
    ensures PushAny(g) == (g, [])
    ensures var u := ReceiveAny(g, ackno, windowSize);
      && u.probes == [] && !u.waiting && (u.probe <==> windowSize == 0)
      && u.base == g.base.(seqInFlight := Sub64(g.base.seqInFlight, 1), time := 0,
                     lastAck := Unwrap(ackno, g.base.isn, g.base.lastAck),
                     windowSize := if windowSize == 0 then g.base.windowSize else windowSize)
  {
    hide Unwrap, Sub64;
  }

  /**
   * A probe carries one sequence number and is remembered until the answer, which takes it back: a number less is in
   * flight than before the answer, so as many as before a fresh probe, the clock stands at zero, what is acknowledged
   * is what the answer says, and queue and stream stay as the probe has left them.
   */
  lemma ProbeAndAnswer(f: Full, ackno: u32, windowSize: u16)
    requires ProbeDue(f)
    ensures var (g, out) := PushAny(f);
      out != [] ==>
        && out == [out[0]] && out[0].SequenceLength() == 1 && out[0].seqno == Wrap(f.base.nextSeq, f.base.isn)
        && g.probe && g.waiting && g.probes == out && PushAny(g) == (g, [])
        && var u, queued := ReceiveAny(g, ackno, windowSize), f.base.window != [];
        && u.probes == [] && !u.waiting && (u.probe <==> windowSize == 0)
        && u.base.nextSeq == (if queued then f.base.nextSeq else Add64(f.base.nextSeq, 1))
        && u.base.seqInFlight == (if queued then Sub64(f.base.seqInFlight, 1) else f.base.seqInFlight)
        && u.base.lastAck == Unwrap(ackno, f.base.isn, f.base.lastAck)
        && u.base == g.base.(seqInFlight := u.base.seqInFlight, lastAck := u.base.lastAck, time := 0,
                       windowSize := if windowSize == 0 then f.base.windowSize else windowSize)
  {
    hide Unwrap, Wrap, PushAny, ReceiveAny;
    ProbeGoesOut(f);
    if PushAny(f).1 != [] {
      AnswerTaken(PushAny(f).0, ackno, windowSize);
    }
  }

  /**
   * The answer to a fresh probe is taken for an acknowledgement of it, whatever it says. What is acknowledged plus
   * what is in flight is still what was sent, if and only if the answer does acknowledge the probe; otherwise nothing
   * is left of it: it is not in the stream, not in the queue, and not remembered.
   */
  lemma AnswerAccounts(f: Full, ackno: u32, windowSize: u16)
    requires ProbeDue(f) && f.base.window == [] && PushAny(f).1 != []
    requires f.base.lastAck + f.base.seqInFlight == f.base.nextSeq < TWO64 - 1
    ensures var u, ack := ReceiveAny(PushAny(f).0, ackno, windowSize).base, Unwrap(ackno, f.base.isn, f.base.lastAck);
      && (u.lastAck + u.seqInFlight == u.nextSeq <==> ack == f.base.lastAck + 1)
      && u.window == [] && u.input.popped == f.base.input.popped + |PushAny(f).1[0].payload|
  {
    hide Unwrap, Wrap, PushAny, ReceiveAny;
    ProbeGoesOut(f);
    ProbeAndAnswer(f, ackno, windowSize);
  }

  /** While it is not answered, the probe is repeated on every time-out, without back-off; nothing else is sent. */
  lemma ProbeRepeated(f: Full, ms: u64)
    requires f.probe && OneProbe(f)
    ensures var (t, out) := TickAny(f, ms); var fires := f.waiting && f.base.rto <= Add64(f.base.time, ms);
      && out == (if fires then f.probes else [])
      && t == f.(base := f.base.(time := t.base.time))
      && t.base.time == (if fires then 0 else if f.waiting then Add64(f.base.time, ms) else f.base.time)
  {
  }

  /** In every run, a probe that is out goes out again when the rest of the time-out has passed. */
  lemma ProbeTimesOut(isn: u32, initialRTO: u64, capacity: nat, events: seq<Event>)
    requires Runs(Start(isn, initialRTO, capacity), events)
    ensures var f := After(Start(isn, initialRTO, capacity), events);
      f.waiting ==>
        && f.probe && |f.probes| == 1
        && TickAny(f, Remaining(f.base)) == (f.(base := f.base.(time := 0)), f.probes)
  {
    hide TickAny, Runs, After;
    RunOneProbe(Start(isn, initialRTO, capacity), events);
    var f := After(Start(isn, initialRTO, capacity), events);
    if f.waiting {
      ProbeRepeated(f, Remaining(f.base));
    }
  }

  // The first probe.

  /** A probe keeps the queued bytes if and only if the front segment carries the SYN or at most one byte. */
  lemma ProbeKeepsQueuedBytes(f: Full)
    requires f.base.input.Valid() && f.base.window != []
    ensures var front := f.base.window[0];
      Payloads(PushProbe(f).0.base.window) == Payloads(f.base.window) <==> front.syn || |front.payload| <= 1
  {
    hide Wrap, Cut;
    var s, rest := f.base, f.base.window[1..];
    var front := Cut(s, s.window[0]).1;
    CutPayload(s, s.window[0]);
    assert Payloads(s.window) == s.window[0].payload + Payloads(rest);
    assert front.SequenceLength() > 0 ==>
      s.window[0 := front][1..] == rest && Payloads(s.window[0 := front]) == front.payload + Payloads(rest);
    assert front.payload == [] ==> front.payload + Payloads(rest) == Payloads(rest);
    SamePrefix(s.window[0].payload, front.payload, Payloads(rest));
  }

  lemma CutPayload(s: State, front: SenderMessage)
    ensures var left := Cut(s, front).1.payload;
      if front.syn then left == front.payload else left == front.payload[..Min(1, |front.payload|)]
  {
    hide Wrap;
  }

  lemma SamePrefix(a: seq<byte>, b: seq<byte>, rest: seq<byte>)
    ensures a + rest == b + rest <==> a == b
  {
    if a + rest == b + rest {
      assert a == (a + rest)[..|a|] && b == (b + rest)[..|b|];
    }
  }

  /**
   * A probe with something queued repeats the first number of the front of the queue: the SYN, the first byte, or the
   * FIN. Of a payload only that byte stays behind; a SYN or a lone FIN leaves the queue.
   */
  lemma ProbeRepeatsFront(f: Full)
    requires f.base.input.Valid() && f.base.window != [] && f.base.window[0].SequenceLength() > 0
    ensures var (g, out) := PushProbe(f); var front := f.base.window[0];
      && out == [out[0]] && out[0].SequenceLength() == 1
      && (out[0].syn <==> front.syn)
      && (!front.syn ==> out[0].payload == front.payload[..Min(1, |front.payload|)])
      && (out[0].fin <==> !front.syn && front.payload == [])
      && Length(g.base.window) ==
           Length(f.base.window) - (if front.syn || front.payload == [] then 1 else |front.payload| - 1)
      && g.base == f.base.(window := g.base.window)
  {
    hide Wrap;
  }

  /** What is transmitted counting the probe: only a probe made when nothing was queued carries anything new. */
  function WithProbe(s: State, sent: seq<byte>, m: SenderMessage): seq<byte> {
    if s.window == [] then sent + m.payload else sent
  }

  /**
   * A probe made in a state of a normal run says the truth about the transmitted bytes if and only if no segment is
   * outstanding and no FIN was sent. Otherwise it repeats something from the front of the queue, or something written
   * after the close, under the next fresh sequence number.
   */
  lemma ProbeIsTruthful(f: Full, sent: seq<byte>)
    requires SenderLaws.Inv(f.base, sent) && f.base.nextSeq < TWO31
    ensures var (g, out) := PushProbe(f); var s := f.base;
      out != [] ==>
        (P.Truthful(out[0], s.isn, WithProbe(s, sent, out[0]), g.base.finSent) <==> s.window == [] && !s.finSent)
  {
    hide Chain, Wrap, Says, P.Truthful;
    var s := f.base;
    var (g, out) := PushProbe(f);
    if out != [] {
      var m := out[0];
      if s.window == [] && !s.finSent {
        FreshSaysTruth(s, sent);
        Witness(m, s.isn, s.nextSeq, WithProbe(s, sent, m), g.base.finSent);
      } else {
        OnlyPlace(m, s.isn, s.nextSeq, WithProbe(s, sent, m), g.base.finSent);
        ProbeLies(s, sent, g.base.finSent, m);
      }
    }
  }

  lemma Witness(m: SenderMessage, isn: u32, from: nat, sent: seq<byte>, ended: bool)
    requires Says(m, isn, from, sent, ended)
    ensures P.Truthful(m, isn, sent, ended)
  {
  }

  lemma FreshSaysTruth(s: State, sent: seq<byte>)
    requires SenderLaws.Inv(s, sent) && s.nextSeq < TWO31 && s.window == [] && !s.finSent
    ensures var (t, m) := Fresh(s); m.SequenceLength() == 1 ==> Says(m, s.isn, s.nextSeq, sent + m.payload, t.finSent)
  {
  }

  lemma SamePlace(a: nat, b: nat, raw: u32, isn: u32)
    requires a <= TWO31 && b < TWO31 && raw == Wrap(a, isn) == Wrap(b, isn)
    ensures a == b
  {
    hide Wrap;
    WrapsToOffset(a, raw, isn);
    WrapsToOffset(b, raw, isn);
  }

  /** A sequence number below 2^31 belongs to one place in the stream only. */
  lemma OnlyPlace(m: SenderMessage, isn: u32, n: nat, sent: seq<byte>, ended: bool)
    requires n < TWO31 && |sent| <= n && m.seqno == Wrap(n, isn)
    ensures P.Truthful(m, isn, sent, ended) <==> Says(m, isn, n, sent, ended)
  {
    hide Wrap;
    forall from: nat | Says(m, isn, from, sent, ended)
      ensures from == n
    {
      SamePlace(from, n, m.seqno, isn);
    }
  }

  /** The place with the probe's sequence number lies past everything transmitted. */
  lemma ProbeLies(s: State, sent: seq<byte>, ended: bool, m: SenderMessage)
    requires SenderLaws.Inv(s, sent) && (s.window != [] || s.finSent)
    requires m == if s.window == [] then Fresh(s).1 else Cut(s, s.window[0]).0
    ensures !Says(m, s.isn, s.nextSeq, WithProbe(s, sent, m), ended)
  {
  }

  /** The same in every run of the protocol in which a zero window arrives. */
  lemma ProbeAfterRun(w: P.World, events: seq<P.Event>, a: ReceiverMessage)
    requires E.Starts(w, events)
    requires P.Runs(w, events) && a in P.After(w, events).acks && a.ackno.Some?
    ensures var v := P.After(w, events); var s := ReceiveAck(v.snd, a.ackno.value, 0);
      s.input.Valid() &&
      var (g, out) := PushProbe(Full(s, true, false, []));
      out != [] ==>
        (P.Truthful(out[0], s.isn, WithProbe(s, P.Transmitted(v), out[0]), g.base.finSent) <==>
          s.window == [] && !s.finSent)
  {
    hide P.Next, P.Enabled, PushProbe, ReceiveAck, P.Truthful, Unwrap;
    E.InvAlways(w, events);
    var v := P.After(w, events);
    P.SenderBound(v);
    ReceiveAckKeeps(v.snd, P.Transmitted(v), a.ackno.value, 0);
    ProbeIsTruthful(Full(ReceiveAck(v.snd, a.ackno.value, 0), true, false, []), P.Transmitted(v));
  }
}
