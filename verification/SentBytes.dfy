/** Both modes of the sender: whatever it sends was written, and what it forgets is never sent again. */
module SentBytes {
  import opened MachineInts
  import opened Wrap32
  import opened Segments
  import opened Sender
  import opened SenderLaws
  import opened Probing
  import opened ZeroWindow

  predicate StretchAt(m: SenderMessage, text: seq<byte>, i: nat) {
    i + |m.payload| <= |text| && m.payload == text[i..i + |m.payload|]
  }

  /** The payload is a stretch of what the application wrote, not before the index `k`. */
  ghost predicate Written(m: SenderMessage, text: seq<byte>, k: nat) {
    m.payload == [] || exists i: nat :: k <= i && StretchAt(m, text, i)
  }

  ghost predicate AllWritten(msgs: seq<SenderMessage>, text: seq<byte>, k: nat) {
    forall m <- msgs :: Written(m, text, k)
  }

  /** Nothing from before `k` is left in the stream, in the queue or among the probes. */
  ghost predicate FromHere(f: Full, k: nat) {
    && f.base.input.Valid() && k <= f.base.input.popped
    && AllWritten(f.base.window, f.base.input.accepted, k) && AllWritten(f.probes, f.base.input.accepted, k)
  }

  lemma WrittenAt(m: SenderMessage, text: seq<byte>, k: nat, i: nat)
    requires k <= i && StretchAt(m, text, i)
    ensures Written(m, text, k)
  {
  }

  lemma StaysWritten(msgs: seq<SenderMessage>, text: seq<byte>, more: seq<byte>, k: nat)
    requires AllWritten(msgs, text, k)
    ensures AllWritten(msgs, text + more, k)
  {
    forall m | m in msgs
      ensures Written(m, text + more, k)
    {
      if m.payload != [] {
        var i: nat :| k <= i && StretchAt(m, text, i);
        assert (text + more)[i..i + |m.payload|] == m.payload;
        assert StretchAt(m, text + more, i);
      }
    }
  }

  lemma Both(a: seq<SenderMessage>, b: seq<SenderMessage>, text: seq<byte>, k: nat)
    ensures AllWritten(a + b, text, k) <==> AllWritten(a, text, k) && AllWritten(b, text, k)
  {
    assert forall m :: m in a + b <==> m in a || m in b;
  }

  // The normal mode.

  lemma PushOneWritten(s: State, k: nat)
    requires s.input.Valid() && k <= s.input.popped
    ensures AllWritten(PushOne(s).1, s.input.accepted, k)
  {
    hide Wanted, Sub64;
    var (t, out) := PushOne(s);
    if out != [] {
      var m := out[0];
      assert m.payload == s.input.accepted[s.input.popped..s.input.popped + |m.payload|];
      WrittenAt(m, s.input.accepted, k, s.input.popped);
    }
  }

  lemma {:induction false} PushDataWritten(s: State, k: nat)
    requires s.input.Valid() && s.synSent && k <= s.input.popped
    ensures var (t, out) := PushData(s); AllWritten(out, s.input.accepted, k)
    decreases |s.input.accepted| - s.input.popped
  {
    hide PushOne, Written;
    if CanPushData(s) {
      PushOneWritten(s, k);
      PushOneTakes(s);
      PushDataWritten(PushOne(s).0, k);
      Both(PushOne(s).1, PushData(PushOne(s).0).1, s.input.accepted, k);
    }
  }

  lemma PushWritten(s: State, k: nat)
    requires s.input.Valid() && k <= s.input.popped
    ensures var (t, out) := Sender.Push(s);
      && AllWritten(out, s.input.accepted, k) && t.window == s.window + out
      && t.input == s.input.(popped := t.input.popped) && s.input.popped <= t.input.popped
  {
    hide PushOne, PushData, Written, Wanted;
    var (t, syn) := if s.synSent then (s, []) else PushOne(s);
    if !s.synSent {
      PushOneWritten(s, k);
      PushOneTakes(s);
    }
    PushDataWritten(t, k);
    PushDataQueues(t);
    var (u, data) := PushData(t);
    PushOneWritten(u, k);
    PushOneTakes(u);
    PushFinTakesNothing(u);
    Both(syn, data, s.input.accepted, k);
    Both(syn + data, PushFin(u).1, s.input.accepted, k);
    assert s.window + syn + data + PushFin(u).1 == s.window + (syn + data + PushFin(u).1);
  }

  lemma {:induction false} PushDataQueues(s: State)
    requires s.input.Valid() && s.synSent
    ensures var (t, out) := PushData(s);
      && t.window == s.window + out
      && t.input == s.input.(popped := t.input.popped) && s.input.popped <= t.input.popped
    decreases |s.input.accepted| - s.input.popped
  {
    hide PushOne;
    if CanPushData(s) {
      PushOneTakes(s);
      var (t, out) := PushOne(s);
      PushDataQueues(t);
      assert s.window + out + PushData(t).1 == s.window + (out + PushData(t).1);
    }
  }

  lemma {:induction false} DropAckedMembers(window: seq<SenderMessage>, isn: u32, lastAck: u64, ack: u64)
    ensures forall m <- DropAcked(window, isn, lastAck, ack) :: m in window
  {
    hide Unwrap;
    if window != [] {
      DropAckedMembers(window[1..], isn, lastAck, ack);
    }
  }

  // The probing mode.

  lemma CutWritten(s: State, front: SenderMessage, text: seq<byte>, k: nat)
    requires Written(front, text, k)
    ensures Written(Cut(s, front).0, text, k) && Written(Cut(s, front).1, text, k)
  {
    hide Wrap;
    if front.payload != [] {
      var i: nat :| k <= i && StretchAt(front, text, i);
      assert front.payload[..1] == text[i..i + 1];
      assert StretchAt(Cut(s, front).0, text, i) && StretchAt(Cut(s, front).1, text, i);
    }
  }

  lemma ProbeWritten(f: Full, k: nat)
    requires FromHere(f, k)
    ensures var (g, out) := PushProbe(f);
      FromHere(g, k) && AllWritten(out, f.base.input.accepted, k) && g.base.input.accepted == f.base.input.accepted
  {
    hide Written, Cut, Wrap;
    var s, text := f.base, f.base.input.accepted;
    if s.window != [] {
      CutWritten(s, s.window[0], text, k);
    } else {
      FreshWritten(s, k);
    }
  }

  lemma FreshWritten(s: State, k: nat)
    requires s.input.Valid() && k <= s.input.popped
    ensures var (t, m) := Fresh(s);
      && Written(m, s.input.accepted, k) && t.window == s.window
      && t.input == s.input.(popped := t.input.popped) && s.input.popped <= t.input.popped
  {
    hide Wrap;
    var m := Fresh(s).1;
    if m.payload != [] {
      assert m.payload == s.input.accepted[s.input.popped..s.input.popped + 1];
      WrittenAt(m, s.input.accepted, k, s.input.popped);
    }
  }

  // Runs.

  /** What the sender puts out on an event. */
  function Sent(f: Full, e: Event): seq<SenderMessage>
    requires Enabled(f, e)
  {
    match e
    case Push => PushAny(f).1
    case Tick(ms) => TickAny(f, ms).1
    case _ => []
  }

  ghost function SentIn(f: Full, events: seq<Event>): seq<SenderMessage>
    requires Runs(f, events)
    decreases |events|
  {
    if events == [] then [] else Sent(f, events[0]) + SentIn(Next(f, events[0]), events[1..])
  }

  lemma AckWritten(f: Full, ackno: u32, windowSize: u16, k: nat)
    requires FromHere(f, k) && (f.probe ==> f.probes != [])
    ensures FromHere(ReceiveAny(f, ackno, windowSize), k)
  {
    hide Written, Unwrap, DropAcked;
    var s := f.base;
    DropAckedMembers(s.window, s.isn, s.lastAck, Unwrap(ackno, s.isn, s.lastAck));
  }

  lemma NextWritten(f: Full, e: Event, k: nat)
    requires Enabled(f, e) && FromHere(f, k)
    ensures FromHere(Next(f, e), k) && f.base.input.accepted <= Next(f, e).base.input.accepted
    ensures AllWritten(Sent(f, e), f.base.input.accepted, k)
  {
    hide Written, Sender.Push, PushProbe, ReceiveAck;
    match e
    case Write(data) => WriteWritten(f, data, k);
    case Push =>
      ProbeWritten(f, k);
      PushWritten(f.base, k);
      Both(f.base.window, Sender.Push(f.base).1, f.base.input.accepted, k);
    case Ack(ackno, windowSize) => AckInput(f, ackno, windowSize); AckWritten(f, ackno, windowSize, k);
    case _ =>
  }

  lemma WriteWritten(f: Full, data: seq<byte>, k: nat)
    requires FromHere(f, k)
    ensures FromHere(Next(f, Write(data)), k)
  {
    hide AllWritten;
    var text, more := f.base.input.accepted, f.base.input.Push(data).accepted;
    assert more == text + more[|text|..];
    StaysWritten(f.base.window, text, more[|text|..], k);
    StaysWritten(f.probes, text, more[|text|..], k);
  }

  lemma AckInput(f: Full, ackno: u32, windowSize: u16)
    requires f.probe ==> f.probes != []
    ensures ReceiveAny(f, ackno, windowSize).base.input == f.base.input
  {
    hide Unwrap, DropAcked;
  }

  lemma {:induction false} RunWritten(f: Full, events: seq<Event>, k: nat)
    requires FromHere(f, k) && Runs(f, events)
    ensures FromHere(After(f, events), k) && f.base.input.accepted <= After(f, events).base.input.accepted
    ensures AllWritten(SentIn(f, events), After(f, events).base.input.accepted, k)
    decreases |events|
  {
    hide Enabled, Next, Sent, FromHere, AllWritten;
    if events == [] {
      assert AllWritten([], f.base.input.accepted, k) by { NoneWritten(f.base.input.accepted, k); }
    } else {
      var g := Next(f, events[0]);
      NextWritten(f, events[0], k);
      RunWritten(g, events[1..], k);
      var text, all := f.base.input.accepted, After(g, events[1..]).base.input.accepted;
      assert all == text + all[|text|..];
      StaysWritten(Sent(f, events[0]), text, all[|text|..], k);
      Both(Sent(f, events[0]), SentIn(g, events[1..]), all, k);
    }
  }

  lemma NoneWritten(text: seq<byte>, k: nat)
    ensures AllWritten([], text, k)
  {
  }

  /** In every run, probes and retransmissions included, every payload is a stretch of what the application wrote. */
  lemma OnlyWritten(isn: u32, initialRTO: u64, capacity: nat, events: seq<Event>)
    requires Runs(Start(isn, initialRTO, capacity), events)
    ensures var f := Start(isn, initialRTO, capacity);
      AllWritten(SentIn(f, events), After(f, events).base.input.accepted, 0)
  {
    hide Runs, After, SentIn;
    RunWritten(Start(isn, initialRTO, capacity), events, 0);
  }

  /**
   * When the answer to a fresh probe with a byte does not acknowledge it, that byte is forgotten: whatever follows,
   * only bytes behind it are sent.
   */
  lemma RejectedProbeIsForgotten(f: Full, ackno: u32, windowSize: u16, more: seq<Event>)
    requires ProbeDue(f) && f.base.window == [] && PushAny(f).1 != [] && PushAny(f).1[0].payload != []
    requires f.base.lastAck + f.base.seqInFlight == f.base.nextSeq < TWO64 - 1
    requires Unwrap(ackno, f.base.isn, f.base.lastAck) != f.base.lastAck + 1
    requires Runs(ReceiveAny(PushAny(f).0, ackno, windowSize), more)
    ensures var u := ReceiveAny(PushAny(f).0, ackno, windowSize); var k := f.base.input.popped + 1;
      && u.base.lastAck + u.base.seqInFlight != u.base.nextSeq
      && AllWritten(SentIn(u, more), After(u, more).base.input.accepted, k)
  {
    hide Runs, After, SentIn, PushAny, ReceiveAny, Unwrap;
    ProbeInput(f);
    ProbeAndAnswer(f, ackno, windowSize);
    var u := ReceiveAny(PushAny(f).0, ackno, windowSize);
    AnswerAccounts(f, ackno, windowSize);
    NoneWritten(u.base.input.accepted, f.base.input.popped + 1);
    RunWritten(u, more, f.base.input.popped + 1);
  }

  lemma ProbeInput(f: Full)
    requires ProbeDue(f)
    ensures PushAny(f).0.base.input.Valid()
    ensures PushAny(f).1 != [] ==> |PushAny(f).1[0].payload| <= 1
  {
    hide Wrap;
  }
}
