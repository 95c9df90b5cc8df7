/**
 * What comes before the FIN: as long as no FIN has arrived, the receiver holds bytes of the segments before it only,
 * and none of those that share a segment with it.
 */
module FinApart {
  import opened MachineInts
  import opened Wrap32
  import opened Assembly
  import opened OneStream
  import opened Segments
  import opened SenderLaws
  import opened Protocol

  /** The segments in front of the one with the FIN. */
  function Init(log: seq<SenderMessage>): seq<SenderMessage> {
    if log != [] && log[|log| - 1].fin then log[..|log| - 1] else log
  }

  ghost predicate Apart(w: World) {
    && Chain(w.log, w.snd.isn, 0, Transmitted(w), w.snd.finSent)
    && (forall m <- w.net :: m in w.log)
    && (w.rcv.asm.end.Unknown? ==> OfText(w.rcv.asm, Payloads(Init(w.log))))
    && (w.snd.lastAck > 0 ==> w.snd.windowSize > 0)
  }

  // Lists of segments.

  lemma {:induction false} ChainSplit(a: seq<SenderMessage>, b: seq<SenderMessage>, isn: u32, from: nat,
                                      sent: seq<byte>, ended: bool)
    requires Chain(a + b, isn, from, sent, ended)
    ensures Chain(a, isn, from, sent, ended) && Chain(b, isn, from + Length(a), sent, ended)
  {
    hide Says;
    if a == [] {
      assert a + b == b;
    } else {
      assert (a + b)[1..] == a[1..] + b;
      ChainSplit(a[1..], b, isn, from + a[0].SequenceLength(), sent, ended);
    }
  }

  lemma {:induction false} ChainJoin(a: seq<SenderMessage>, b: seq<SenderMessage>, isn: u32, from: nat, sent: seq<byte>,
                                     ended: bool)
    requires Chain(a, isn, from, sent, ended) && Chain(b, isn, from + Length(a), sent, ended)
    ensures Chain(a + b, isn, from, sent, ended)
  {
    hide Says;
    if a == [] {
      assert a + b == b;
    } else {
      assert (a + b)[1..] == a[1..] + b;
      ChainJoin(a[1..], b, isn, from + a[0].SequenceLength(), sent, ended);
    }
  }

  /** Nothing follows a FIN. */
  lemma {:induction false} FinIsLast(w: seq<SenderMessage>, isn: u32, from: nat, sent: seq<byte>, ended: bool, k: nat)
    requires Chain(w, isn, from, sent, ended) && k < |w| && w[k].fin
    ensures k == |w| - 1
  {
    if k > 0 {
      FinIsLast(w[1..], isn, from + w[0].SequenceLength(), sent, ended, k - 1);
    } else {
      assert Chain(w[1..], isn, from + w[0].SequenceLength(), sent, ended);
    }
  }

  /** Segments without a FIN say the truth about any part of the text that they stay in. */
  lemma {:induction false} ChainCut(w: seq<SenderMessage>, isn: u32, from: nat, sent: seq<byte>, ended: bool, n: nat)
    requires Chain(w, isn, from, sent, ended) && (forall m <- w :: !m.fin)
    requires DataIndex(from + Length(w)) <= n <= |sent|
    ensures Chain(w, isn, from, sent[..n], false)
  {
    if w != [] {
      ChainCut(w[1..], isn, from + w[0].SequenceLength(), sent, ended, n);
      assert Says(w[0], isn, from, sent[..n], false);
    }
  }

  lemma NoFinInInit(log: seq<SenderMessage>, isn: u32, sent: seq<byte>, ended: bool)
    requires Chain(log, isn, 0, sent, ended)
    ensures forall m <- Init(log) :: !m.fin
  {
    hide Says;
    forall m | m in Init(log)
      ensures !m.fin
    {
      var k :| 0 <= k < |Init(log)| && Init(log)[k] == m;
      if m.fin {
        FinIsLast(log, isn, 0, sent, ended, k);
      }
    }
  }

  /** Where the list of segments before one with a FIN ends. */
  lemma BeforeFin(init: seq<SenderMessage>, l: SenderMessage, isn: u32, sent: seq<byte>, ended: bool)
    requires Chain(init + [l], isn, 0, sent, ended) && sent == Payloads(init + [l])
    requires l.fin && forall m <- init :: !m.fin
    ensures Payloads(init) <= sent && Chain(init, isn, 0, Payloads(init), false)
    ensures |Payloads(init)| + |l.payload| == |sent| && DataIndex(Length(init)) == |Payloads(init)|
  {
    hide Says, Payloads, Length;
    Concat(init, [l]);
    One(l);
    ChainSplit(init, [l], isn, 0, sent, ended);
    FinSays(l, isn, Length(init), sent, ended);
    var n := |sent| - |l.payload|;
    assert sent[..n] == Payloads(init);
    ChainCut(init, isn, 0, sent, ended, n);
  }

  /** The segments before the FIN are a gap-free list of their own, about the text before the FIN's own payload. */
  lemma InitChain(log: seq<SenderMessage>, isn: u32, sent: seq<byte>, ended: bool)
    requires Chain(log, isn, 0, sent, ended) && sent == Payloads(log)
    ensures (forall m <- Init(log) :: !m.fin)
    ensures Payloads(Init(log)) <= sent && Chain(Init(log), isn, 0, Payloads(Init(log)), false)
    ensures Init(log) != log ==>
      var l := log[|log| - 1];
      && |Payloads(Init(log))| + |l.payload| == |sent| && DataIndex(Length(Init(log))) == |Payloads(Init(log))|
  {
    hide Says, Chain, Payloads, Length;
    NoFinInInit(log, isn, sent, ended);
    if Init(log) == log {
      Unended(log, isn, sent, ended);
    } else {
      assert log == Init(log) + [log[|log| - 1]];
      BeforeFin(Init(log), log[|log| - 1], isn, sent, ended);
    }
  }

  lemma FinSays(m: SenderMessage, isn: u32, from: nat, sent: seq<byte>, ended: bool)
    requires Says(m, isn, from, sent, ended) && m.fin
    ensures DataIndex(from) + |m.payload| == |sent|
  {
  }

  lemma {:induction false} ChainEnd(w: seq<SenderMessage>, isn: u32, from: nat, sent: seq<byte>, ended: bool)
    requires Chain(w, isn, from, sent, ended) && DataIndex(from) <= |sent|
    ensures (forall m <- w :: !m.fin) ==> DataIndex(from + Length(w)) <= |sent|
  {
    if w != [] {
      if !w[0].fin {
        ChainEnd(w[1..], isn, from + w[0].SequenceLength(), sent, ended);
      }
    }
  }

  lemma Unended(log: seq<SenderMessage>, isn: u32, sent: seq<byte>, ended: bool)
    requires Chain(log, isn, 0, sent, ended) && (forall m <- log :: !m.fin)
    ensures Chain(log, isn, 0, sent, false)
  {
    hide Says;
    ChainEnd(log, isn, 0, sent, ended);
    ChainCut(log, isn, 0, sent, ended, |sent|);
    assert sent[..|sent|] == sent;
  }

  // Each event keeps the FIN apart.

  lemma {:induction false} NoFin(log: seq<SenderMessage>)
    requires FinCount(log) == 0
    ensures forall m <- log :: !m.fin
  {
    if log != [] {
      NoFin(log[1..]);
    }
  }

  lemma InitGrows(log: seq<SenderMessage>, out: seq<SenderMessage>)
    requires FinCount(log) == 0
    ensures Payloads(Init(log)) <= Payloads(Init(log + out))
  {
    hide Payloads;
    NoFin(log);
    if out == [] {
      assert log + out == log;
    } else {
      InitOfBoth(log, out);
      Concat(log, out);
      Concat(log, out[..|out| - 1]);
    }
  }

  lemma InitOfBoth(log: seq<SenderMessage>, out: seq<SenderMessage>)
    requires out != []
    ensures Init(log + out) == log + out || Init(log + out) == log + out[..|out| - 1]
  {
    var all := log + out;
    assert all[|all| - 1] == out[|out| - 1] && all[..|all| - 1] == log + out[..|out| - 1];
  }

  /** What is pushed continues the log. */
  lemma LogContinues(log: seq<SenderMessage>, window: seq<SenderMessage>, out: seq<SenderMessage>, isn: u32, from: nat,
                     sent: seq<byte>, ended: bool)
    requires Chain(log, isn, 0, sent, false) && Chain(window + out, isn, from, sent + Payloads(out), ended)
    requires from + Length(window) == Length(log)
    ensures Chain(log + out, isn, 0, sent + Payloads(out), ended)
  {
    hide Says, Chain, Payloads, Length;
    ChainSplit(window, out, isn, from, sent + Payloads(out), ended);
    ChainGrows(log, isn, 0, sent, Payloads(out), ended);
    ChainJoin(log, out, isn, 0, sent + Payloads(out), ended);
  }

  lemma PushChain(s: S.State, sent: seq<byte>, log: seq<SenderMessage>)
    requires SenderLaws.Inv(s, sent) && InRange(s) && s.nextSeq == Length(log)
    requires Chain(log, s.isn, 0, sent, false)
    ensures var (t, out) := S.Push(s);
      Chain(log + out, s.isn, 0, sent + Payloads(out), t.finSent) && t.windowSize == s.windowSize
  {
    hide S.Push, Says, Chain, Payloads, Length;
    var (t, out) := S.Push(s);
    PushKeeps(s, sent);
    Concat(s.window, out);
    LogContinues(log, s.window, out, s.isn, WindowStart(s), sent, t.finSent);
  }

  lemma TextBefore(a: Asm, log: seq<SenderMessage>, out: seq<SenderMessage>)
    requires OfText(a, Payloads(Init(log))) && a.end.Unknown? && FinCount(log) == 0
    ensures OfText(a, Payloads(Init(log + out)))
  {
    hide OfText, Payloads, Init;
    InitGrows(log, out);
    var before, after := Payloads(Init(log)), Payloads(Init(log + out));
    TextGrows(a, before, after[|before|..]);
    assert before + after[|before|..] == after;
  }

  lemma PushApart(w: World)
    requires Protocol.Inv(w) && Apart(w) && Enabled(w, Push)
    ensures Apart(Next(w, Push))
  {
    hide S.Push, Says, Chain, Truthful, AckUpTo, OfText, R.State.Valid, Payloads, Length, Init;
    SenderBound(w);
    var (t, out) := S.Push(w.snd);
    if w.snd.finSent {
      NothingAfterFin(w.snd);
      assert w.log + [] == w.log;
    } else {
      PushChain(w.snd, Transmitted(w), w.log);
      PushKeeps(w.snd, Transmitted(w));
      Concat(w.log, out);
      if w.rcv.asm.end.Unknown? {
        TextBefore(w.rcv.asm, w.log, out);
      }
    }
  }

  lemma DeliverApart(w: World, m: SenderMessage)
    requires Protocol.Inv(w) && Apart(w) && m in w.net && Enabled(w, Deliver(m))
    ensures Apart(Next(w, Deliver(m)))
  {
    hide Says, Chain, AckUpTo, OfText, R.State.Valid, Payloads, Length, Init, Insert, Unwrap, Visible;
    var r, t, before := w.rcv, Next(w, Deliver(m)).rcv, Payloads(Init(w.log));
    SenderBound(w);
    AlwaysReady(w);
    InitChain(w.log, w.snd.isn, Transmitted(w), w.snd.finSent);
    DeliveredEnd(r, m);
    if t.asm.end.Unknown? && t.asm != r.asm {
      assert m in Init(w.log) by { InInit(w.log, m); }
      var from := ChainMember(Init(w.log), m, w.snd.isn, 0, before, false);
      assert Truthful(m, w.snd.isn, before, false);
      Delivered(r, m, w.snd.isn, before, false);
    }
  }

  lemma InInit(log: seq<SenderMessage>, m: SenderMessage)
    requires m in log && !m.fin
    ensures m in Init(log)
  {
  }

  /** A delivered FIN fixes the end of the stream, and nothing else does. */
  lemma DeliveredEnd(r: R.State, m: SenderMessage)
    requires r.checkpoint < TWO63 && r.syn <= 1
    ensures var t := R.Receive(r, m);
      if t.syn == 0 then t.asm == r.asm else t.asm.end.Unknown? <==> r.asm.end.Unknown? && !m.fin
  {
    hide Unwrap, Visible, Run, Slice;
  }

  lemma TickApart(w: World, ms: u64)
    requires Protocol.Inv(w) && Apart(w) && Enabled(w, Tick(ms))
    ensures Apart(Next(w, Tick(ms)))
  {
    hide Says, Chain, Truthful, AckUpTo, OfText, R.State.Valid, Payloads, Length, Init;
  }

  lemma AckApart(w: World, a: ReceiverMessage)
    requires Protocol.Inv(w) && Apart(w) && Enabled(w, DeliverAck(a))
    ensures Apart(Next(w, DeliverAck(a)))
  {
    hide Says, Chain, Truthful, AckUpTo, OfText, R.State.Valid, Payloads, Length, Init, Unwrap, S.DropAcked;
  }

  lemma NextApart(w: World, e: Protocol.Event)
    requires Protocol.Inv(w) && Apart(w) && Enabled(w, e)
    ensures Apart(Next(w, e))
  {
    hide Says, Chain, Truthful, AckUpTo, R.State.Valid, Payloads, Length, Init, S.Push, S.ReceiveAck, S.Tick, R.Receive;
    match e
    case Push => PushApart(w);
    case Deliver(m) => DeliverApart(w, m);
    case Tick(ms) => TickApart(w, ms);
    case DeliverAck(a) => AckApart(w, a);
    case _ =>
  }

  lemma InitialApart(isn: u32, initialRTO: u64, sendCapacity: nat, receiveCapacity: nat)
    ensures Apart(Initial(isn, initialRTO, sendCapacity, receiveCapacity))
  {
  }

  /** In every run, the receiver knows nothing of the FIN's segment before a FIN arrives. */
  lemma {:induction false} RunApart(w: World, events: seq<Protocol.Event>)
    requires Protocol.Inv(w) && Apart(w) && Runs(w, events)
    ensures Apart(Protocol.After(w, events))
    decreases |events|
  {
    hide Protocol.Inv, Enabled, Next, Apart;
    if events != [] {
      NextOk(w, events[0]);
      NextApart(w, events[0]);
      RunApart(Next(w, events[0]), events[1..]);
    }
  }
}
