/**
 * The sending endpoint in its normal mode: segmentation, the queue of outstanding segments, cumulative
 * acknowledgement and the retransmission timer. The other mode, probing a zero window, is in Probing.
 */
module Sender {
  import opened MachineInts
  import opened Wrap32
  import opened ByteStreams
  import opened Segments

  const MAX_PAYLOAD: nat := 1000

  datatype State = State(isn: u32, initialRTO: u64, input: Stream, crt: nat, seqInFlight: u64, nextSeq: u64,
                         windowSize: u16, lastAck: u64, finSent: bool, synSent: bool,
                         window: seq<SenderMessage>, time: u64, rto: u64)

  /** The 64-bit difference the code computes; it wraps around when more is in flight than the window allows. */
  function Room(s: State): u64 {
    Sub64(s.windowSize, s.seqInFlight)
  }

  /** How many bytes one segment asks the input stream for. */
  function Wanted(room: u64, used: nat): nat
    requires used < TWO64
  {
    var left := Sub64(room, used);
    if 0 < left <= 1000 then room else if 1000 < left then MAX_PAYLOAD else 0
  }

  /** One attempt to send a segment; an empty segment is not sent. */
  function PushOne(s: State): (r: (State, seq<SenderMessage>))
    requires s.input.Valid()
    ensures r.0.input.Valid() && r.0.synSent
    ensures s.synSent && CanPushData(s) ==>
      s.input.popped < r.0.input.popped <= |r.0.input.accepted| == |s.input.accepted|
  {
    var used := if s.synSent then 0 else 1;
    var wanted := Wanted(Room(s), used);
    var payload := s.input.Peek()[..Min(wanted, |s.input.Peek()|)];
    var input := s.input.Pop(wanted);
    var fin := !s.finSent && Sub64(Room(s), used + |payload|) > 0 && input.Finished();
    var m := SenderMessage(Wrap(s.nextSeq, s.isn), !s.synSent, payload, fin);
    var len := m.SequenceLength();
    if len == 0 then (s.(input := input), [])
    else (s.(input := input, synSent := true, finSent := s.finSent || fin,
             nextSeq := Add64(s.nextSeq, len), seqInFlight := Add64(s.seqInFlight, len), window := s.window + [m]), [m])
  }

  predicate CanPushData(s: State)
    requires s.input.Valid()
  {
    Signed64(Room(s)) > 0 && !s.finSent && s.input.Buffered() != []
  }

  /** Segments as long as there is room and there are bytes. */
  function PushData(s: State): (r: (State, seq<SenderMessage>))
    requires s.input.Valid() && s.synSent
    ensures r.0.input.Valid() && r.0.synSent
    decreases |s.input.accepted| - s.input.popped
  {
    if CanPushData(s) then
      var (t, sent) := PushOne(s);
      var (u, more) := PushData(t);
      (u, sent + more)
    else (s, [])
  }

  function PushFin(s: State): (r: (State, seq<SenderMessage>))
    requires s.input.Valid()
    ensures r.0.input.Valid()
  {
    if !s.finSent && Room(s) > 0 && s.input.Finished() then PushOne(s) else (s, [])
  }

  function Push(s: State): (r: (State, seq<SenderMessage>))
    requires s.input.Valid()
    ensures r.0.input.Valid()
  {
    var (t, syn) := if s.synSent then (s, []) else PushOne(s);
    var (u, data) := PushData(t);
    var (v, fin) := PushFin(u);
    (v, syn + data + fin)
  }

  /** The queue without the segments at its front that are wholly acknowledged. */
  function DropAcked(window: seq<SenderMessage>, isn: u32, lastAck: u64, ack: u64): seq<SenderMessage> {
    if window != [] && Add64(Unwrap(window[0].seqno, isn, lastAck), window[0].SequenceLength() % TWO64) <= ack
    then DropAcked(window[1..], isn, lastAck, ack)
    else window
  }

  /** An acknowledgement with a non-zero window. */
  function ReceiveAck(s: State, ackno: u32, windowSize: u16): State {
    var ack := Unwrap(ackno, s.isn, s.lastAck);
    var t := s.(windowSize := windowSize);
    if ack <= s.nextSeq && ack > Sub64(s.nextSeq, s.seqInFlight) then
      t.(window := DropAcked(s.window, s.isn, s.lastAck, ack), crt := 0, rto := s.initialRTO,
         seqInFlight := Sub64(s.seqInFlight, Sub64(ack, s.lastAck)), time := 0, lastAck := ack)
    else t
  }

  function Tick(s: State, ms: u64): (State, seq<SenderMessage>) {
    if s.window == [] then (s, []) else
      var time := Add64(s.time, ms);
      if time >= s.rto then (s.(time := 0, crt := s.crt + 1, rto := Add64(s.rto, s.rto)), [s.window[0]])
      else (s.(time := time), [])
  }
}
