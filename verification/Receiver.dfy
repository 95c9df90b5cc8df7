/** The receiving endpoint: maps sequence numbers to stream indices and acknowledges what has been pushed. */
module Receiver {
  import opened MachineInts
  import opened Wrap32
  import opened ByteStreams
  import opened Assembly
  import opened Segments
  import V2 = ReassemblerV2

  /** `error` is the error flag of the stream, which the receiver sets and the reassembler never looks at. */
  datatype State = State(asm: Asm, zeroPoint: u32, checkpoint: nat, syn: nat, synBefore: nat, fin: nat, needFin: nat,
                         error: bool) {
    ghost predicate Valid() {
      && asm.Valid()
      && checkpoint == |asm.out.accepted|
      && syn <= 1 && synBefore == syn && fin <= 1
      && (syn == 0 ==> asm.out.accepted == [] && asm.pending == map[] && asm.end.Unknown? && !asm.out.closed)
      && (syn == 0 ==> fin == needFin == 0)
      && (fin > 0 || needFin > 0 ==> asm.end.At?)
    }

    /** Room for every index computation in 64 bits. */
    ghost predicate InRange() {
      asm.out.Tail() < 0x4000_0000_0000_0000
    }
  }

  /** The zero point, the SYN count and the error flag after a message; only a SYN may come before the SYN. */
  function Opened(r: State, m: SenderMessage): State {
    if m.syn then r.(zeroPoint := if r.syn == 0 then m.seqno else r.zeroPoint,
                     syn := if r.syn == 0 then 1 else r.syn,
                     synBefore := if r.synBefore == 0 then 1 else r.synBefore)
    else if r.syn == 0 then r.(error := true)
    else r
  }

  /** The 64-bit index handed to the reassembler; a SYN takes up a sequence number but no index. */
  function FirstIndex(r: State, m: SenderMessage): u64
    requires r.checkpoint < TWO64 && r.syn < TWO64
  {
    var absolute := Unwrap(m.seqno, r.zeroPoint, r.checkpoint);
    if m.syn then absolute else Sub64(absolute, r.syn)
  }

  /** The state after a message, when the reassembler ends up as `asm`. */
  function ReceiveInto(r: State, m: SenderMessage, asm: Asm): State {
    var o := Opened(r, m);
    if o.syn == 0 then o else
      var needFin := o.needFin + (if m.fin then 1 else 0);
      var counts := asm.pending == map[] && o.fin == 0 && needFin == 1;
      o.(asm := asm,
         checkpoint := o.checkpoint + Max(0, |asm.out.accepted| - |r.asm.out.accepted|),
         fin := if counts then o.fin + 1 else o.fin,
         needFin := if counts then needFin - 1 else needFin)
  }

  ghost predicate Received(r: State, m: SenderMessage, t: State)
    requires r.checkpoint < TWO63 && r.syn <= 1
  {
    var o := Opened(r, m);
    t == ReceiveInto(r, m, t.asm) &&
    (o.syn != 0 ==> Inserted(r.asm, Signed64(FirstIndex(o, m)), m.payload, m.fin, t.asm))
  }

  function Receive(r: State, m: SenderMessage): State
    requires r.checkpoint < TWO63 && r.syn <= 1
  {
    var o := Opened(r, m);
    ReceiveInto(r, m, if o.syn == 0 then r.asm else Insert(r.asm, Signed64(FirstIndex(o, m)), m.payload, m.fin))
  }

  function Reply(r: State): ReceiverMessage
    requires r.asm.out.Valid()
  {
    ReceiverMessage(if r.synBefore > 0 then Some(Wrap((r.checkpoint + r.syn + r.fin) % TWO64, r.zeroPoint)) else None,
                    Min(r.asm.out.Available(), 0xFFFF), r.error)
  }

  /** What a message leaves alone: the checkpoint counts pushed bytes, and nothing acknowledged is taken back. */
  lemma ReceiveKeepsValid(r: State, m: SenderMessage, t: State)
    requires r.Valid() && r.InRange() && Received(r, m, t)
    ensures t.Valid() && t.InRange()
    ensures r.asm.out.accepted <= t.asm.out.accepted && r.syn <= t.syn && r.fin <= t.fin
    ensures r.syn > 0 ==> t.zeroPoint == r.zeroPoint
    ensures t.error <==> r.error || t.syn == 0
  {
    var o := Opened(r, m);
    if o.syn > 0 {
      InsertMeaning(r.asm, Signed64(FirstIndex(o, m)), m.payload, m.fin, t.asm);
    }
  }

  /**
   * The acknowledgement number is the wrapped count of the SYN, the bytes pushed and the FIN if counted, and a
   * sender that is not 2^31 away unwraps it back.
   */
  lemma AckCountsPushed(r: State, checkpoint: u64)
    requires r.Valid() && r.InRange() && checkpoint < TWO63
    ensures Reply(r).ackno.Some? <==> r.syn == 1
    ensures var n := |r.asm.out.accepted| + 1 + r.fin;
      r.syn == 1 && Distance(n, checkpoint) < TWO31 ==> Unwrap(Reply(r).ackno.value, r.zeroPoint, checkpoint) == n
  {
    hide Unwrap, Wrap;
    var n := |r.asm.out.accepted| + 1 + r.fin;
    WrapUnwrap(n, r.zeroPoint, checkpoint);
  }

  /**
   * The window of an answer is all the room there is, up to 16 bits: the indices from the awaited one on that the
   * reassembler can hold. And the answer carries a reset exactly if the stream is in error.
   */
  lemma WindowIsRoom(r: State)
    requires r.Valid()
    ensures var n := |r.asm.out.accepted| + Reply(r).windowSize;
      n <= r.asm.out.Tail() && (n == r.asm.out.Tail() || Reply(r).windowSize == 0xFFFF)
    ensures Reply(r).rst <==> r.error
  {
  }

  lemma AllVisible(a: Asm, data: seq<byte>, last: bool)
    requires a.Valid() && a.end.Unknown? && |data| <= a.out.Available()
    ensures var at, visible := |a.out.accepted|, Visible(a, |a.out.accepted|, data, last);
      forall i: nat | at <= i < at + |data| :: i in visible && visible[i] == data[i - at]
  {
  }

  lemma KnownOf(a: Asm)
    requires a.Valid()
    ensures |a.out.accepted| !in a.Known()
    ensures forall i: nat | i < |a.out.accepted| :: i in a.Known() && a.Known()[i] == a.out.accepted[i]
  {
  }

  lemma WholePushed(a: Asm, data: seq<byte>, last: bool, t: Asm)
    requires a.Valid() && a.end.Unknown? && |data| <= a.out.Available()
    requires Inserted(a, |a.out.accepted|, data, last, t)
    ensures |t.out.accepted| >= |a.out.accepted| + |data|
    ensures Agree(a.pending, Visible(a, |a.out.accepted|, data, last)) ==> a.out.accepted + data <= t.out.accepted
  {
    hide Run, Visible, Asm.Known, Inserted, Agree;
    var at, visible := |a.out.accepted|, Visible(a, |a.out.accepted|, data, last);
    InsertMeaning(a, at, data, last, t);
    AllVisible(a, data, last);
    KnownOf(t);
    assert at + |data| <= |t.out.accepted|;
    if Agree(a.pending, visible) {
      NewBytes(a, visible, at, |data|);
      assert forall i: nat | at <= i < at + |data| :: t.out.accepted[i] == data[i - at];
    }
  }

  /** Behind what has been pushed, only pending bytes can contradict. */
  lemma NewBytes(a: Asm, visible: map<nat, byte>, at: nat, n: nat)
    requires a.Valid() && at == |a.out.accepted| && Agree(a.pending, visible)
    ensures forall i: nat | at <= i < at + n && i in a.Known() && i in visible :: a.Known()[i] == visible[i]
  {
  }

  /**
   * A segment at the acknowledged number and within the window of an answer is pushed whole, with the bytes that it has
   * unless others came for the same places before; and behind the window nothing is kept.
   */
  lemma OfferIsTaken(r: State, m: SenderMessage, t: State)
    requires r.Valid() && r.InRange() && Received(r, m, t)
    requires r.syn == 1 && r.fin == 0 && r.asm.end.Unknown?
    requires !m.syn && m.seqno == Reply(r).ackno.value
    ensures |m.payload| <= Reply(r).windowSize ==>
      && |t.asm.out.accepted| >= |r.asm.out.accepted| + |m.payload|
      && (Agree(r.asm.pending, Visible(r.asm, |r.asm.out.accepted|, m.payload, m.fin)) ==>
            r.asm.out.accepted + m.payload <= t.asm.out.accepted)
    ensures Reply(r).windowSize < 0xFFFF ==>
      forall i: nat | |r.asm.out.accepted| + Reply(r).windowSize <= i :: i !in t.asm.Known()
  {
    hide Unwrap, Wrap, Visible, Run, Insert, Reply;
    var at := |r.asm.out.accepted|;
    AckCountsPushed(r, r.checkpoint);
    WindowIsRoom(r);
    assert FirstIndex(r, m) == at;
    InsertMeaning(r.asm, at, m.payload, m.fin, t.asm);
    if |m.payload| <= Reply(r).windowSize {
      WholePushed(r.asm, m.payload, m.fin, t.asm);
    }
  }

  /** What comes while the window is closed changes no answer, as long as no FIN has been seen. */
  lemma ClosedWindowRejects(r: State, m: SenderMessage, t: State)
    requires r.Valid() && r.InRange() && Received(r, m, t)
    requires r.syn == 1 && r.asm.out.Available() == 0 && r.needFin == 0 && !m.fin
    ensures Reply(r).windowSize == 0 && Reply(t) == Reply(r)
  {
    hide Unwrap, Wrap, Visible, Run, Insert;
    InsertMeaning(r.asm, Signed64(FirstIndex(r, m)), m.payload, m.fin, t.asm);
  }

  /** Acknowledgements never go back, whatever arrives in whatever order. */
  lemma AckMonotone(r: State, m: SenderMessage, t: State)
    requires r.Valid() && r.InRange() && Received(r, m, t)
    ensures r.checkpoint + r.syn + r.fin <= t.checkpoint + t.syn + t.fin
    ensures t.checkpoint == |t.asm.out.accepted|
  {
  }

  lemma IndexFits(r: State, m: SenderMessage)
    requires r.Valid() && r.InRange()
    ensures r.checkpoint < 0x4000_0000_0000_0000
    ensures Signed64(FirstIndex(Opened(r, m), m)) < 0x4000_0000_0000_0000 + 2 * TWO32
  {
  }

  lemma CountedInto(r: State, m: SenderMessage, asm: Asm, t: State)
    requires r.asm.out.accepted <= asm.out.accepted && Opened(r, m).syn != 0
    requires var o := Opened(r, m); var need := o.needFin + (if m.fin then 1 else 0);
      var counts := |asm.pending| == 0 && o.fin == 0 && need == 1;
      && t == o.(asm := asm, checkpoint := t.checkpoint, fin := t.fin, needFin := t.needFin)
      && t.checkpoint == o.checkpoint + |asm.out.accepted| - |r.asm.out.accepted|
      && t.fin == (if counts then 1 else o.fin) && t.needFin == (if counts then 0 else need)
    ensures t == ReceiveInto(r, m, asm)
  {
  }

  lemma Unopened(r: State, m: SenderMessage)
    requires Opened(r, m).syn == 0
    ensures ReceiveInto(r, m, r.asm) == Opened(r, m)
  {
  }

  class TCPReceiver {
    const reassembler: V2.Reassembler
    var zeroPoint: u32
    var checkpoint: int
    var syn: int
    var synBefore: int
    var fin: int
    var needFin: int
    var error: bool

    ghost predicate Valid()
      reads this, reassembler, reassembler.output
    {
      && reassembler.Valid()
      && checkpoint >= 0 && syn >= 0 && synBefore >= 0 && fin >= 0 && needFin >= 0
      && Abstract().Valid()
    }

    ghost function Abstract(): State
      requires checkpoint >= 0 && syn >= 0 && synBefore >= 0 && fin >= 0 && needFin >= 0
      reads this, reassembler, reassembler.output
    {
      State(reassembler.State(), zeroPoint, checkpoint, syn, synBefore, fin, needFin, error)
    }

    constructor (reassembler: V2.Reassembler)
      requires reassembler.Valid() && reassembler.State().pending == map[] && reassembler.State().end.Unknown?
      requires reassembler.output.accepted == [] && !reassembler.output.closed
      ensures Valid() && this.reassembler == reassembler
      ensures Abstract() == State(reassembler.State(), 100, 0, 0, 0, 0, 0, false)
    {
      hide V2.Reassembler.Valid, V2.Reassembler.State;
      reassembler.OutputState();
      this.reassembler := reassembler;
      zeroPoint, checkpoint, syn, synBefore, fin, needFin, error := 100, 0, 0, 0, 0, 0, false;
    }

    method Receive(m: SenderMessage)
      requires Valid() && Abstract().InRange() && |m.payload| < TWO32
      modifies this, reassembler, reassembler.output
      ensures Valid() && Received(old(Abstract()), m, Abstract())
    {
      hide V2.Reassembler.Valid, V2.Reassembler.State, Asm.Valid, Asm.Known, Visible, Limit, Outcome, Run,
        ByteStream.Valid, ByteStream.State, Inserted, Unwrap, Signed64, Sub64, Assembly.Merged;
      ghost var r := Abstract();
      IndexFits(r, m);
      reassembler.OutputState();
      Open(m);
      assert reassembler.State() == r.asm && reassembler.Valid();
      ghost var o := Opened(r, m);
      assert Abstract() == o;
      hide Opened, ReceiveInto;
      if syn == 0 {
        Unopened(r, m);
      } else {
        var oldPushed := reassembler.BytesPushed();
        var absolute := Unwrap(m.seqno, zeroPoint, checkpoint);
        reassembler.Insert(if m.syn then absolute else Sub64(absolute, syn), m.payload, m.fin);
        ghost var asm, index := reassembler.State(), Signed64(FirstIndex(o, m));
        assert Abstract() == o.(asm := asm);
        assert Inserted(r.asm, index, m.payload, m.fin, asm);
        InsertMeaning(r.asm, index, m.payload, m.fin, asm);
        var newPushed := reassembler.BytesPushed();
        var pending := reassembler.BytesPending();
        Count(newPushed - oldPushed, m.fin, pending);
        assert reassembler.State() == asm && reassembler.Valid();
        CountedInto(r, m, asm, Abstract());
      }
      assert Abstract() == ReceiveInto(r, m, reassembler.State());
      ReceiveKeepsValid(r, m, Abstract());
    }

    /** The first SYN fixes the zero point; whatever comes before it is an error. */
    method Open(m: SenderMessage)
      modifies this`zeroPoint, this`syn, this`synBefore, this`error
      ensures zeroPoint == if m.syn && old(syn) == 0 then m.seqno else old(zeroPoint)
      ensures syn == if m.syn && old(syn) == 0 then 1 else old(syn)
      ensures synBefore == if m.syn && old(synBefore) == 0 then 1 else old(synBefore)
      ensures error == (old(error) || (!m.syn && old(syn) == 0))
    {
      if !m.syn && syn == 0 {
        error := true;
      }
      if m.syn && syn == 0 {
        zeroPoint := m.seqno;
        syn := syn + 1;
      }
      if m.syn && synBefore == 0 {
        synBefore := synBefore + 1;
      }
    }

    /** Counts pushed bytes, and the FIN once nothing is waiting in the reassembler. */
    method Count(grown: int, isFin: bool, pending: int)
      modifies this`checkpoint, this`fin, this`needFin
      ensures checkpoint == old(checkpoint) + grown
      ensures var need := old(needFin) + (if isFin then 1 else 0);
        var counts := pending == 0 && old(fin) == 0 && need == 1;
        fin == (if counts then 1 else old(fin)) && needFin == (if counts then 0 else need)
    {
      checkpoint := checkpoint + grown;
      if isFin {
        needFin := needFin + 1;
      }
      if pending == 0 && fin == 0 && needFin == 1 {
        fin := fin + 1;
        needFin := needFin - 1;
      }
    }

    method Send() returns (msg: ReceiverMessage)
      requires Valid()
      ensures msg == Reply(Abstract()) && (msg.rst <==> error)
      ensures reassembler.output.bytesPushed + msg.windowSize <= reassembler.output.State().Tail()
      ensures msg.windowSize < 0xFFFF ==>
        reassembler.output.bytesPushed + msg.windowSize == reassembler.output.State().Tail()
    {
      var available := reassembler.output.AvailableCapacity();
      var windowSize := if available > 0xFFFF then 0xFFFF else available;
      var ackno := if synBefore != 0 then Some(Wrap((checkpoint + syn + fin) % TWO64, zeroPoint)) else None;
      msg := ReceiverMessage(ackno, windowSize, error);
    }
  }
}
