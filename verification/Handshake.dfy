/** The opening of a connection, as the start of the concrete runs that show where the code goes wrong. */
module Handshake {
  import opened MachineInts
  import opened Wrap32
  import opened ByteStreams
  import opened Assembly
  import opened Segments
  import opened Protocol

  function Syn(): SenderMessage {
    SenderMessage(0, true, [], false)
  }

  /** A sender with a stream of capacity `c`, as it is between two retransmissions. */
  function Sending(c: nat, accepted: seq<byte>, popped: nat, closed: bool, seqInFlight: u64, nextSeq: u64,
                   windowSize: u16, lastAck: u64, finSent: bool, window: seq<SenderMessage>): S.State {
    var input := Stream(c, accepted, popped, closed);
    S.State(0, 1000, input, 0, seqInFlight, nextSeq, windowSize, lastAck, finSent, true, window, 0, 1000)
  }

  /** A receiver of capacity `d` that has pushed nothing yet. */
  function Receiving(d: nat, zeroPoint: u32, syn: nat, fin: nat, closed: bool, end: End): R.State {
    R.State(Asm(Stream(d, [], 0, closed), map[], end), zeroPoint, 0, syn, syn, fin, 0, false)
  }

  function Start(c: nat, d: nat): World {
    Initial(0, 1000, c, d)
  }

  function Established(c: nat, d: u16): World {
    World(Sending(c, [], 0, false, 0, 1, d, 1, false, []), Receiving(d, 0, 1, 0, false, Unknown), {Syn()},
          {ReceiverMessage(Some(1), d, false)}, [Syn()])
  }

  lemma PushesSyn(c: nat, d: nat)
    ensures S.Push(Start(c, d).snd) == (Sending(c, [], 0, false, 1, 1, 0, 0, false, [Syn()]), [Syn()])
  {
    var s := Start(c, d).snd;
    var t := Sending(c, [], 0, false, 1, 1, 0, 0, false, [Syn()]);
    assert s.input.Peek() == [] && s.input.Peek()[..0] == [] && s.window + [Syn()] == [Syn()];
    assert S.PushOne(s) == (t, [Syn()]);
    assert S.PushData(t) == (t, []) && S.PushFin(t) == (t, []);
    assert [Syn()] + [] + [] == [Syn()];
  }

  lemma ReceivesSyn(d: nat)
    ensures R.Receive(Receiving(d, 100, 0, 0, false, Unknown), Syn()) == Receiving(d, 0, 1, 0, false, Unknown)
  {
  }

  lemma AcksSyn(c: nat, d: u16)
    ensures S.ReceiveAck(Sending(c, [], 0, false, 1, 1, 0, 0, false, [Syn()]), 1, d) == Established(c, d).snd
  {
    assert [Syn()][1..] == [];
  }

  /** SYN, its acknowledgement, and an open window. */
  lemma Opening(c: nat, d: u16) returns (events: seq<Event>)
    requires d > 0
    ensures Runs(Start(c, d), events) && After(Start(c, d), events) == Established(c, d)
  {
    hide S.Push, S.PushOne, S.ReceiveAck, R.Receive, Unwrap, Runs, After;
    var w0, answer := Start(c, d), ReceiverMessage(Some(1), d, false);
    NoEvents(w0);
    PushesSyn(c, d);
    OneMore(w0, [], Push);
    var w1 := World(Sending(c, [], 0, false, 1, 1, 0, 0, false, [Syn()]), w0.rcv, {Syn()}, {}, [Syn()]);
    assert w1 == Next(w0, Push);
    ReceivesSyn(d);
    OneMore(w0, [] + [Push], Deliver(Syn()));
    var w2 := w1.(rcv := Receiving(d, 0, 1, 0, false, Unknown));
    assert w2 == Next(w1, Deliver(Syn()));
    OneMore(w0, [] + [Push] + [Deliver(Syn())], Acknowledge);
    var w3 := w2.(acks := {answer});
    assert w3 == Next(w2, Acknowledge);
    AcksSyn(c, d);
    OneMore(w0, [] + [Push] + [Deliver(Syn())] + [Acknowledge], DeliverAck(answer));
    assert Established(c, d) == Next(w3, DeliverAck(answer));
    events := [] + [Push] + [Deliver(Syn())] + [Acknowledge] + [DeliverAck(answer)];
  }
}
