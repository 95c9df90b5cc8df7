/** The sending endpoint with both of its modes: after a zero window it probes with single sequence numbers. */
module Probing {
  import opened MachineInts
  import opened Wrap32
  import opened Segments
  import opened Sender

  /** `probe` is set by a zero window; `waiting` while a probe is out; `probes` are the probes not answered yet. */
  datatype Full = Full(base: State, probe: bool, waiting: bool, probes: seq<SenderMessage>)

  function Nothing(s: State): SenderMessage {
    SenderMessage(Wrap(s.nextSeq, s.isn), false, [], false)
  }

  /** The probe made from the front of the queue, and what the code leaves of that segment. */
  function Cut(s: State, front: SenderMessage): (SenderMessage, SenderMessage) {
    if front.syn then (Nothing(s).(syn := true), front.(syn := false))
    else if front.payload != [] then (Nothing(s).(payload := front.payload[..1]), front.(payload := front.payload[..1]))
    else if front.fin then (Nothing(s).(fin := true), front.(fin := false))
    else (Nothing(s), front)
  }

  /** The next single sequence number when nothing is queued; nothing is sent if there is none. */
  function Fresh(s: State): (r: (State, SenderMessage))
    requires s.input.Valid()
    ensures r.0.input.Valid() && r.1.SequenceLength() <= 1
  {
    if !s.synSent then (s.(synSent := true), Nothing(s).(syn := true))
    else if s.input.Buffered() != [] then (s.(input := s.input.Pop(1)), Nothing(s).(payload := s.input.Peek()[..1]))
    else if s.input.Finished() && !s.finSent then (s.(finSent := true), Nothing(s).(fin := true))
    else (s, Nothing(s))
  }

  function PushProbe(f: Full): (r: (Full, seq<SenderMessage>))
    requires f.base.input.Valid()
    ensures r.0.base.input.Valid()
  {
    var s := f.base;
    if s.window != [] then
      var (m, front) := Cut(s, s.window[0]);
      var window := if front.SequenceLength() == 0 then s.window[1..] else s.window[0 := front];
      (f.(base := s.(window := window), waiting := true, probes := f.probes + [m]), [m])
    else
      var (t, m) := Fresh(s);
      if m.SequenceLength() != 1 then (f, [])
      else (f.(base := t.(nextSeq := Add64(t.nextSeq, 1), seqInFlight := Add64(t.seqInFlight, 1)),
               waiting := true, probes := f.probes + [m]), [m])
  }

  function PushAny(f: Full): (r: (Full, seq<SenderMessage>))
    requires f.base.input.Valid()
    ensures r.0.base.input.Valid()
  {
    if f.probe then (if f.waiting then (f, []) else PushProbe(f))
    else var (t, out) := Sender.Push(f.base); (f.(base := t), out)
  }

  /** The answer to a probe: it is taken as it is, and gives back one sequence number. */
  function Answered(f: Full, ackno: u32): Full
    requires f.probes != []
  {
    var s := f.base;
    f.(base := s.(seqInFlight := Sub64(s.seqInFlight, 1), time := 0, lastAck := Unwrap(ackno, s.isn, s.lastAck)),
       waiting := false, probes := f.probes[..|f.probes| - 1])
  }

  /** Any acknowledgement; taking the last probe off an empty list is undefined in the code. */
  function ReceiveAny(f: Full, ackno: u32, windowSize: u16): Full
    requires f.probe ==> f.probes != []
  {
    if windowSize == 0 then
      if f.probe then Answered(f, ackno)
      else f.(base := ReceiveAck(f.base, ackno, 0), probe := true)
    else
      if f.probe then
        var t := Answered(f, ackno);
        t.(base := t.base.(windowSize := windowSize), probe := false)
      else f.(base := ReceiveAck(f.base, ackno, windowSize))
  }

  function TickAny(f: Full, ms: u64): (Full, seq<SenderMessage>) {
    if f.probe then
      if f.probes == [] then (f, []) else
        var time := Add64(f.base.time, ms);
        if time >= f.base.rto then (f.(base := f.base.(time := 0)), [f.probes[0]])
        else (f.(base := f.base.(time := time)), [])
    else
      var (t, out) := Sender.Tick(f.base, ms);
      (f.(base := t), out)
  }
}
