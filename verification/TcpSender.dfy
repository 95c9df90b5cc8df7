/** The sender as the object it is: fields updated in place, with the transmitted segments returned in order. */
module TcpSender {
  import opened MachineInts
  import opened Wrap32
  import opened ByteStreams
  import opened Segments
  import opened Sender
  import opened Probing

  class RetransmissionTimer {
    var time: u64
    var rto: u64

    constructor (initialRTO: u64)
      ensures time == 0 && rto == initialRTO
    {
      time, rto := 0, initialRTO;
    }

    predicate IsTimeout()
      reads this
    {
      time >= rto
    }

    method TimePlus(ms: u64)
      modifies this`time
      ensures time == Add64(old(time), ms)
    {
      time := Add64(time, ms);
    }

    method TimeReset()
      modifies this`time
      ensures time == 0
    {
      time := 0;
    }

    method RTOReset(initialRTO: u64)
      modifies this`rto
      ensures rto == initialRTO
    {
      rto := initialRTO;
    }

    method RTOMulti()
      modifies this`rto
      ensures rto == Add64(old(rto), old(rto))
    {
      rto := Add64(rto, rto);
    }
  }

  class TCPSender {
    const input: ByteStream
    const isn: u32
    const initialRTO: u64
    const timer: RetransmissionTimer
    var crt: int
    var seqInFlight: u64
    var nextSeq: u64
    var windowSize: u16
    var lastAck: u64
    var finSent: bool
    var synSent: bool
    var zeroWindowProbe: bool
    var isProbing: bool
    var probes: seq<SenderMessage>
    var window: seq<SenderMessage>

    ghost predicate Valid()
      reads this, input
    {
      input.Valid() && crt >= 0
    }

    ghost function Abstract(): State
      requires crt >= 0
      reads this, input, timer
    {
      State(isn, initialRTO, input.State(), crt, seqInFlight, nextSeq, windowSize, lastAck, finSent, synSent, window,
            timer.time, timer.rto)
    }

    ghost function Whole(): Full
      requires crt >= 0
      reads this, input, timer
    {
      Full(Abstract(), zeroWindowProbe, isProbing, probes)
    }

    constructor (input: ByteStream, isn: u32, initialRTO: u64)
      requires input.Valid()
      ensures Valid() && this.input == input && fresh(timer)
      ensures Whole() == Full(State(isn, initialRTO, input.State(), 0, 0, 0, 0, 0, false, false, [], 0, initialRTO),
        false, false, [])
    {
      this.input, this.isn, this.initialRTO := input, isn, initialRTO;
      crt, seqInFlight, windowSize, lastAck, finSent, synSent, window := 0, 0, 0, 0, false, false, [];
      nextSeq := Unwrap(isn, isn, 0);
      zeroWindowProbe, isProbing, probes := false, false, [];
      timer := new RetransmissionTimer(initialRTO);
    }

    /** The payload of the next segment: looked at, then removed from the input stream. */
    method TakePayload(used: nat) returns (payload: seq<byte>)
      requires Valid() && used <= 1
      modifies input
      ensures Valid() && |payload| <= READ_BYTES_SIZE
      ensures var wanted, before := Wanted(Sub64(windowSize, seqInFlight), used), old(input.State());
        payload == before.Peek()[..Min(wanted, |before.Peek()|)] && input.State() == before.Pop(wanted)
    {
      hide Sub64;
      payload := [];
      if 0 < Sub64(Sub64(windowSize, seqInFlight), used) <= 1000 {
        payload := input.Peek()[..Min(Sub64(windowSize, seqInFlight), |input.Peek()|)];
        input.Pop(Sub64(windowSize, seqInFlight));
      } else if 1000 < Sub64(Sub64(windowSize, seqInFlight), used) {
        payload := input.Peek()[..Min(1000, |input.Peek()|)];
        input.Pop(1000);
      }
    }

    /** One segment, if there is anything to say. */
    method PushSimple() returns (out: seq<SenderMessage>)
      requires Valid()
      modifies this`seqInFlight, this`nextSeq, this`finSent, this`synSent, this`window, input
      ensures Valid()
      ensures var (t, sent) := PushOne(old(Abstract())); Abstract() == t && out == sent
    {
      hide Sub64, Add64, Wrap, Wanted, Stream.Peek, Stream.Pop, Stream.Finished;
      var m := SenderMessage(Wrap(nextSeq, isn), false, [], false);
      if !synSent {
        m := m.(syn := true);
        synSent := true;
      }
      var payload := TakePayload(m.SequenceLength());
      m := m.(payload := payload);
      if !finSent && Sub64(Sub64(windowSize, seqInFlight), m.SequenceLength()) > 0 && input.IsFinished()
        && input.BytesBuffered() == 0 {
        m := m.(fin := true);
        finSent := true;
      }
      if m.SequenceLength() == 0 {
        return [];
      }
      nextSeq := Add64(nextSeq, m.SequenceLength());
      seqInFlight := Add64(seqInFlight, m.SequenceLength());
      window := window + [m];
      return [m];
    }

    /** The SYN, then segments as long as there is room and there are bytes, then the FIN. */
    method PushWindow() returns (out: seq<SenderMessage>)
      requires Valid()
      modifies this`seqInFlight, this`nextSeq, this`finSent, this`synSent, this`window, input
      ensures Valid()
      ensures var (t, sent) := Sender.Push(old(Abstract())); Abstract() == t && out == sent
    {
      hide Sub64, Signed64, PushOne;
      out := [];
      if !synSent {
        out := PushSimple();
      }
      ghost var (goal, all) := (PushData(Abstract()).0, out + PushData(Abstract()).1);
      while Signed64(Sub64(windowSize, seqInFlight)) > 0 && !finSent && input.BytesBuffered() > 0
        invariant Valid() && synSent
        invariant PushData(Abstract()).0 == goal && out + PushData(Abstract()).1 == all
        decreases |input.accepted| - input.bytesPopped
      {
        var more := PushSimple();
        out := out + more;
      }
      if !finSent && Sub64(windowSize, seqInFlight) > 0 && input.IsFinished() && input.BytesBuffered() == 0 {
        var more := PushSimple();
        out := out + more;
      }
    }

    /** One sequence number taken out of the queue or the stream. */
    method PushProbe() returns (out: seq<SenderMessage>)
      requires Valid()
      modifies this, input
      ensures Valid()
      ensures var (f, sent) := Probing.PushProbe(old(Whole())); Whole() == f && out == sent
    {
      hide Add64, Wrap;
      var m := SenderMessage(Wrap(nextSeq, isn), false, [], false);
      if |window| != 0 {
        var front := window[0];
        if front.syn {
          m := m.(syn := true);
          front := front.(syn := false);
        } else if |front.payload| != 0 {
          m := m.(payload := front.payload[..1]);
          front := front.(payload := front.payload[..1]);
        } else if front.fin {
          m := m.(fin := true);
          front := front.(fin := false);
        }
        window := window[0 := front];
        if window[0].SequenceLength() == 0 {
          window := window[1..];
        }
      } else {
        if !synSent {
          m := m.(syn := true);
          synSent := true;
        } else if input.BytesBuffered() != 0 {
          m := m.(payload := input.Peek()[..1]);
          input.Pop(1);
        } else if input.IsFinished() && !finSent {
          m := m.(fin := true);
          finSent := true;
        }
        if m.SequenceLength() != 1 {
          return [];
        }
        nextSeq := Add64(nextSeq, 1);
        seqInFlight := Add64(seqInFlight, 1);
      }
      isProbing := true;
      probes := probes + [m];
      return [m];
    }

    method Push() returns (out: seq<SenderMessage>)
      requires Valid()
      modifies this, input
      ensures Valid()
      ensures var (f, sent) := PushAny(old(Whole())); Whole() == f && out == sent
    {
      hide Sender.Push, Probing.PushProbe;
      out := [];
      if zeroWindowProbe && !isProbing {
        out := PushProbe();
      } else if !zeroWindowProbe {
        out := PushWindow();
      }
    }

    /** An acknowledgement that does not answer a probe. */
    method ReceiveAckno(ackno: u32, newWindow: u16)
      requires Valid()
      modifies this`windowSize, this`window, this`crt, this`seqInFlight, this`lastAck, timer
      ensures Valid() && Abstract() == ReceiveAck(old(Abstract()), ackno, newWindow)
    {
      hide Unwrap;
      windowSize := newWindow;
      var ack := Unwrap(ackno, isn, lastAck);
      if ack > nextSeq {
      } else if ack > Sub64(nextSeq, seqInFlight) {
        ghost var left := DropAcked(window, isn, lastAck, ack);
        while window != []
          invariant DropAcked(window, isn, lastAck, ack) == left
          decreases |window|
          modifies this`window
        {
          var seqno := Unwrap(window[0].seqno, isn, lastAck);
          if Add64(seqno, window[0].SequenceLength() % TWO64) <= ack {
            window := window[1..];
          } else {
            break;
          }
        }
        crt := 0;
        timer.RTOReset(initialRTO);
        seqInFlight := Sub64(seqInFlight, Sub64(ack, lastAck));
        timer.TimeReset();
        lastAck := ack;
      }
    }

    /** A non-zero window, which ends the probing. Without a probe to answer, taking off the last one is undefined. */
    method ReceiveSimple(ackno: u32, newWindow: u16) returns (defined: bool)
      requires Valid() && newWindow != 0
      modifies this, timer
      ensures Valid() && (defined <==> !(old(zeroWindowProbe) && old(probes) == []))
      ensures defined ==> Whole() == ReceiveAny(old(Whole()), ackno, newWindow)
    {
      hide Unwrap, Sub64, ReceiveAck;
      if zeroWindowProbe {
        if probes == [] {
          return false;
        }
        windowSize := newWindow;
        seqInFlight := Sub64(seqInFlight, 1);
        zeroWindowProbe, isProbing := false, false;
        timer.TimeReset();
        probes := probes[..|probes| - 1];
        lastAck := Unwrap(ackno, isn, lastAck);
      } else {
        ReceiveAckno(ackno, newWindow);
      }
      zeroWindowProbe := false;
      return true;
    }

    /** A zero window: the first one starts the probing, later ones answer probes. */
    method ReceiveProbe(ackno: u32) returns (defined: bool)
      requires Valid()
      modifies this, timer
      ensures Valid() && (defined <==> !(old(zeroWindowProbe) && old(probes) == []))
      ensures defined ==> Whole() == ReceiveAny(old(Whole()), ackno, 0)
    {
      hide Unwrap, Sub64, ReceiveAck;
      if zeroWindowProbe {
        if probes == [] {
          return false;
        }
        isProbing := false;
        seqInFlight := Sub64(seqInFlight, 1);
        timer.TimeReset();
        probes := probes[..|probes| - 1];
        lastAck := Unwrap(ackno, isn, lastAck);
      } else {
        zeroWindowProbe := true;
        ReceiveAckno(ackno, 0);
      }
      return true;
    }

    /** Any acknowledgement; it is undefined what happens when one comes in the probing mode before a probe went out. */
    method Receive(ackno: u32, newWindow: u16) returns (defined: bool)
      requires Valid()
      modifies this, timer
      ensures Valid() && (defined <==> !(old(zeroWindowProbe) && old(probes) == []))
      ensures defined ==> Whole() == ReceiveAny(old(Whole()), ackno, newWindow)
    {
      if newWindow == 0 {
        defined := ReceiveProbe(ackno);
      } else {
        defined := ReceiveSimple(ackno, newWindow);
      }
    }

    method TickSimple(ms: u64) returns (out: seq<SenderMessage>)
      requires Valid()
      modifies this`crt, timer
      ensures Valid()
      ensures var (t, sent) := Sender.Tick(old(Abstract()), ms); Abstract() == t && out == sent
    {
      if |window| == 0 {
        return [];
      }
      timer.TimePlus(ms);
      out := [];
      if timer.IsTimeout() {
        out := Retransmit(window[0]);
      }
    }

    method TickProbe(ms: u64) returns (out: seq<SenderMessage>)
      requires Valid() && zeroWindowProbe
      modifies timer
      ensures Valid()
      ensures var (f, sent) := TickAny(old(Whole()), ms); Whole() == f && out == sent
    {
      if |probes| == 0 {
        return [];
      }
      timer.TimePlus(ms);
      out := [];
      if timer.IsTimeout() {
        out := [probes[0]];
        timer.TimeReset();
      }
    }

    method Tick(ms: u64) returns (out: seq<SenderMessage>)
      requires Valid()
      modifies this`crt, timer
      ensures Valid()
      ensures var (f, sent) := TickAny(old(Whole()), ms); Whole() == f && out == sent
    {
      if zeroWindowProbe {
        out := TickProbe(ms);
      } else {
        out := TickSimple(ms);
      }
    }

    method Retransmit(m: SenderMessage) returns (out: seq<SenderMessage>)
      modifies this`crt, timer
      ensures out == [m] && crt == old(crt) + 1
      ensures timer.time == 0 && timer.rto == Add64(old(timer.rto), old(timer.rto))
    {
      out := [m];
      crt := crt + 1;
      timer.RTOMulti();
      timer.TimeReset();
    }
  }
}
