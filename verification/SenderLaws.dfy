/** What every run of the sender keeps. */
module SenderLaws {
  import opened MachineInts
  import opened Wrap32
  import opened ByteStreams
  import opened Segments
  import opened Sender

  function Payloads(msgs: seq<SenderMessage>): seq<byte> {
    if msgs == [] then [] else msgs[0].payload + Payloads(msgs[1..])
  }

  function Length(msgs: seq<SenderMessage>): nat {
    if msgs == [] then 0 else msgs[0].SequenceLength() + Length(msgs[1..])
  }

  function DataIndex(from: nat): nat {
    if from == 0 then 0 else from - 1
  }

  /** A segment whose first sequence number is `from` says the truth about the transmitted bytes. */
  ghost predicate Says(m: SenderMessage, isn: u32, from: nat, sent: seq<byte>, ended: bool) {
    && from < TWO63
    && m.seqno == Wrap(from, isn)
    && (m.syn <==> from == 0)
    && 0 < m.SequenceLength() <= MAX_PAYLOAD + 2
    && DataIndex(from) + |m.payload| <= |sent|
    && m.payload == sent[DataIndex(from)..DataIndex(from) + |m.payload|]
    && (m.fin ==> ended && DataIndex(from) + |m.payload| == |sent|)
  }

  /** A gap-free list of segments starting at `from`. */
  ghost predicate Chain(w: seq<SenderMessage>, isn: u32, from: nat, sent: seq<byte>, ended: bool) {
    w != [] ==> Says(w[0], isn, from, sent, ended) && Chain(w[1..], isn, from + w[0].SequenceLength(), sent, ended)
  }

  function WindowStart(s: State): int {
    s.nextSeq - Length(s.window)
  }

  /**
   * The outstanding queue, for every run with non-zero windows: `sent` is everything ever put into a segment.
   * A segment stays whole at the front until all of it is acknowledged.
   */
  ghost predicate Inv(s: State, sent: seq<byte>) {
    && s.input.Valid()
    && s.seqInFlight <= s.nextSeq && s.nextSeq - s.seqInFlight == s.lastAck
    && s.seqInFlight <= 0xFFFF + (if s.finSent then 1 else 0)
    && s.nextSeq == (if s.synSent then 1 else 0) + |sent| + (if s.finSent then 1 else 0)
    && (!s.synSent ==> sent == [] && !s.finSent)
    && 0 <= WindowStart(s) <= s.lastAck
    && Chain(s.window, s.isn, WindowStart(s), sent, s.finSent)
    && (s.window != [] ==> s.lastAck < WindowStart(s) + s.window[0].SequenceLength())
    && (s.window == [] ==> s.seqInFlight == 0)
  }

  /** Sequence numbers stay well inside 64 bits. */
  predicate InRange(s: State) {
    s.lastAck + 0x2_0000 < TWO63
  }

  lemma {:induction false} Concat(a: seq<SenderMessage>, b: seq<SenderMessage>)
    ensures Length(a + b) == Length(a) + Length(b)
    ensures Payloads(a + b) == Payloads(a) + Payloads(b)
  {
    if a == [] {
      assert a + b == b;
    } else {
      assert (a + b)[1..] == a[1..] + b;
      Concat(a[1..], b);
    }
  }

  lemma Nothing(w: seq<SenderMessage>, sent: seq<byte>)
    ensures sent + Payloads([]) == sent && w + [] == w && Length([]) == 0
  {
  }

  lemma One(m: SenderMessage)
    ensures Length([m]) == m.SequenceLength() && Payloads([m]) == m.payload
  {
  }

  lemma {:induction false} ChainGrows(w: seq<SenderMessage>, isn: u32, from: nat, sent: seq<byte>, more: seq<byte>,
                                      ended: bool)
    requires Chain(w, isn, from, sent, false)
    ensures Chain(w, isn, from, sent + more, ended)
  {
    if w != [] {
      ChainGrows(w[1..], isn, from + w[0].SequenceLength(), sent, more, ended);
    }
  }

  lemma {:induction false} ChainLast(w: seq<SenderMessage>, m: SenderMessage, isn: u32, from: nat, sent: seq<byte>,
                                     ended: bool)
    requires Chain(w, isn, from, sent, ended)
    requires Says(m, isn, from + Length(w), sent, ended)
    ensures Chain(w + [m], isn, from, sent, ended)
  {
    if w == [] {
      assert w + [m] == [m] && [m][1..] == [];
    } else {
      assert (w + [m])[1..] == w[1..] + [m];
      ChainLast(w[1..], m, isn, from + w[0].SequenceLength(), sent, ended);
    }
  }

  lemma {:induction false} ChainMember(w: seq<SenderMessage>, m: SenderMessage, isn: u32, from: nat, sent: seq<byte>,
                                       ended: bool)
    returns (at: nat)
    requires Chain(w, isn, from, sent, ended) && m in w
    ensures Says(m, isn, at, sent, ended)
  {
    if m == w[0] {
      at := from;
    } else {
      at := ChainMember(w[1..], m, isn, from + w[0].SequenceLength(), sent, ended);
    }
  }

  // Push.

  /** How much one segment takes from the stream and how much of it ends up in the payload. */
  lemma PushOneTakes(s: State)
    requires s.input.Valid()
    ensures var (t, out) := PushOne(s); var wanted := Wanted(Room(s), if s.synSent then 0 else 1);
      && t.input == s.input.(popped := t.input.popped)
      && t.input.popped - s.input.popped == Min(wanted, |s.input.Buffered()|)
      && |Payloads(out)| == Min(t.input.popped - s.input.popped, READ_BYTES_SIZE)
      && Payloads(out) <= s.input.accepted[s.input.popped..t.input.popped]
      && t.synSent
      && t == s.(input := t.input, synSent := t.synSent, finSent := t.finSent, nextSeq := t.nextSeq,
                 seqInFlight := t.seqInFlight, window := s.window + out)
  {
  }

  /** The counters advance by the length of the segment. */
  lemma FreshCounts(s: State)
    requires s.input.Valid() && !s.finSent && s.nextSeq < TWO63 && s.seqInFlight <= 0xFFFF
    ensures var (t, out) := PushOne(s);
      && t.nextSeq == s.nextSeq + Length(out) && t.seqInFlight == s.seqInFlight + Length(out)
      && Length(out) == |Payloads(out)| + (if t.synSent && !s.synSent then 1 else 0) + (if t.finSent then 1 else 0)
      && (out == [] ==> t.synSent == s.synSent) && (out != [] ==> out == [out[0]] && t.synSent && Length(out) > 0)
      && Length(out) <= MAX_PAYLOAD + 2
  {
    hide Wrap;
    var (t, out) := PushOne(s);
    if out != [] {
      One(out[0]);
    }
  }

  /**
   * How much one segment asks of the stream, in plain numbers. Behind the SYN it asks for the whole window, SYN
   * included, if that is at most 1001; and into a window not known yet, or overrun, it asks for 1000 bytes.
   */
  lemma SegmentAsks(s: State, sent: seq<byte>)
    requires Inv(s, sent) && InRange(s)
    ensures var taken := PushOne(s).0.input.popped - s.input.popped; var room := s.windowSize - s.seqInFlight;
      taken == Min(|s.input.Buffered()|,
        if s.synSent then (if room < 0 then 1000 else Min(room, 1000))
        else if s.windowSize == 0 then 1000
        else if s.windowSize == 1 then 0
        else if s.windowSize <= 1001 then s.windowSize
        else 1000)
  {
    hide Chain;
    PushOneTakes(s);
    hide PushOne;
  }

  lemma FreshTruth(s: State, sent: seq<byte>)
    requires s.input.Valid() && !s.finSent && s.nextSeq < TWO63
    requires s.nextSeq == (if s.synSent then 1 else 0) + |sent| && (!s.synSent ==> sent == [])
    ensures var (t, out) := PushOne(s);
      out != [] ==> Says(out[0], s.isn, s.nextSeq, sent + out[0].payload, t.finSent)
  {
    hide Wrap;
    var (t, out) := PushOne(s);
    if out != [] {
      var text := sent + out[0].payload;
      assert text[|sent|..] == out[0].payload && |text| == |sent| + |out[0].payload|;
    }
  }

  lemma FreshSays(s: State, sent: seq<byte>)
    requires Inv(s, sent) && InRange(s) && !s.finSent
    ensures var (t, out) := PushOne(s);
      out != [] ==> out == [out[0]] && Says(out[0], s.isn, s.nextSeq, sent + out[0].payload, t.finSent)
    ensures var (t, out) := PushOne(s);
      && t.nextSeq == s.nextSeq + Length(out) && t.seqInFlight == s.seqInFlight + Length(out)
      && Length(out) == |Payloads(out)| + (if t.synSent && !s.synSent then 1 else 0) + (if t.finSent then 1 else 0)
      && (out == [] ==> t.synSent == s.synSent) && (out != [] ==> t.synSent && Length(out) > 0)
      && Length(out) <= MAX_PAYLOAD + 2
  {
    hide Chain, PushOne, Says, Length, Payloads;
    FreshCounts(s);
    FreshTruth(s, sent);
  }

  /** One segment keeps the queue whole, as long as the bytes in flight stay within the 16-bit window. */
  lemma PushOneKeeps(s: State, sent: seq<byte>)
    requires Inv(s, sent) && InRange(s) && !s.finSent
    requires var (t, out) := PushOne(s); s.seqInFlight + Length(out) <= 0xFFFF + (if t.finSent then 1 else 0)
    ensures var (t, out) := PushOne(s);
      Inv(t, sent + Payloads(out)) && t.lastAck == s.lastAck && t.nextSeq == s.nextSeq + Length(out)
  {
    hide PushOne, Says, Chain, Length, Payloads, Wanted;
    var (t, out) := PushOne(s);
    PushOneTakes(s);
    FreshSays(s, sent);
    if out == [] {
      Nothing(s.window, sent);
    } else {
      One(out[0]);
      QueueGrows(s, sent, out[0], t.finSent);
    }
  }

  lemma QueueGrows(s: State, sent: seq<byte>, m: SenderMessage, ended: bool)
    requires Inv(s, sent) && !s.finSent && Says(m, s.isn, s.nextSeq, sent + m.payload, ended)
    ensures Chain(s.window + [m], s.isn, WindowStart(s), sent + m.payload, ended)
    ensures Length(s.window + [m]) == Length(s.window) + m.SequenceLength()
    ensures s.window == [] ==> WindowStart(s) == s.lastAck == s.nextSeq
  {
    hide Chain, Says;
    One(m);
    Concat(s.window, [m]);
    ChainGrows(s.window, s.isn, WindowStart(s), sent, m.payload, ended);
    ChainLast(s.window, m, s.isn, WindowStart(s), sent + m.payload, ended);
  }

  /** With room and bytes, one segment stays within the window and takes at least one byte. */
  lemma DataStaysInWindow(s: State)
    requires s.input.Valid() && s.synSent && s.seqInFlight <= 0x1_0000 && CanPushData(s)
    ensures var (t, out) := PushOne(s);
      && t.seqInFlight == s.seqInFlight + Length(out) <= s.windowSize
      && t.input.popped > s.input.popped && t.synSent
  {
  }

  lemma PushDataStep(s: State, sent: seq<byte>)
    requires s.input.Valid() && s.synSent && CanPushData(s) && Inv(s, sent) && InRange(s)
    ensures var (t, out) := PushOne(s);
      && Inv(t, sent + Payloads(out)) && t.lastAck == s.lastAck && t.seqInFlight <= t.windowSize
      && t.nextSeq == s.nextSeq + Length(out)
      && t == s.(input := t.input, finSent := t.finSent, nextSeq := t.nextSeq, seqInFlight := t.seqInFlight,
        window := s.window + out)
      && t.input == s.input.(popped := t.input.popped) && s.input.popped < t.input.popped
  {
    hide Chain, PushOne, Says, Wanted;
    DataStaysInWindow(s);
    PushOneTakes(s);
    PushOneKeeps(s, sent);
  }

  lemma {:induction false} PushDataKeeps(s: State, sent: seq<byte>)
    requires s.input.Valid() && s.synSent && Inv(s, sent) && InRange(s)
    ensures var (t, out) := PushData(s);
      && Inv(t, sent + Payloads(out)) && t.lastAck == s.lastAck
      && t.window == s.window + out && t.nextSeq == s.nextSeq + Length(out)
      && t == s.(input := t.input, finSent := t.finSent, nextSeq := t.nextSeq, seqInFlight := t.seqInFlight,
        window := t.window)
      && t.input == s.input.(popped := t.input.popped) && s.input.popped <= t.input.popped
      && (s.seqInFlight <= s.windowSize ==> t.seqInFlight <= t.windowSize)
    decreases |s.input.accepted| - s.input.popped
  {
    hide Chain, PushOne, Says, Inv, CanPushData, Length, Payloads;
    if CanPushData(s) {
      var (t, out) := PushOne(s);
      PushDataStep(s, sent);
      PushDataKeeps(t, sent + Payloads(out));
      var more := PushData(t).1;
      Concat(out, more);
      assert (sent + Payloads(out)) + Payloads(more) == sent + Payloads(out + more);
      assert (s.window + out) + more == s.window + (out + more);
    } else {
      Nothing(s.window, sent);
    }
  }

  /** A FIN alone; it may go out even though the window is overrun, because the difference wraps around. */
  lemma PushFinKeeps(s: State, sent: seq<byte>)
    requires Inv(s, sent) && InRange(s) && s.synSent
    ensures var (t, out) := PushFin(s);
      && Inv(t, sent + Payloads(out)) && t.lastAck == s.lastAck && Payloads(out) == []
      && t.nextSeq == s.nextSeq + Length(out)
      && t == s.(finSent := t.finSent, nextSeq := t.nextSeq, seqInFlight := t.seqInFlight, window := s.window + out)
      && (s.seqInFlight <= s.windowSize ==> t.seqInFlight <= t.windowSize)
  {
    hide Chain, PushOne, Says;
    if !s.finSent && Room(s) > 0 && s.input.Finished() {
      PushOneTakes(s);
      FreshSays(s, sent);
      PushOneKeeps(s, sent);
    } else {
      assert sent + Payloads([]) == sent && s.window + [] == s.window;
    }
  }

  lemma PushSynKeeps(s: State, sent: seq<byte>)
    requires Inv(s, sent) && InRange(s) && !s.synSent
    ensures var (t, out) := PushOne(s);
      && Inv(t, sent + Payloads(out)) && t.synSent && t.lastAck == s.lastAck && t.window == s.window + out
      && t.nextSeq == s.nextSeq + Length(out) && out != [] && out[0].syn
  {
    hide Chain, Says;
    PushOneTakes(s);
    FreshSays(s, sent);
    PushOneKeeps(s, sent);
  }

  lemma PushRestKeeps(s: State, sent: seq<byte>)
    requires s.input.Valid() && s.synSent && Inv(s, sent) && InRange(s)
    ensures var (u, data) := PushData(s); var (t, fin) := PushFin(u); var out := data + fin;
      && Inv(t, sent + Payloads(out)) && t.lastAck == s.lastAck && t.window == s.window + out
      && t.nextSeq == s.nextSeq + Length(out)
      && t.input == s.input.(popped := t.input.popped) && s.input.popped <= t.input.popped
      && t == s.(input := t.input, finSent := t.finSent, nextSeq := t.nextSeq, seqInFlight := t.seqInFlight,
        window := t.window)
      && (s.seqInFlight <= s.windowSize ==> t.seqInFlight <= t.windowSize)
      && Payloads(out) == Payloads(data)
  {
    hide Chain, Says, PushOne, PushData, PushFin, Inv;
    var (u, data) := PushData(s);
    PushDataKeeps(s, sent);
    PushFinKeeps(u, sent + Payloads(data));
    var (t, fin) := PushFin(u);
    Concat(data, fin);
    assert Payloads(data) + [] == Payloads(data);
    assert sent + Payloads(data) + [] == sent + Payloads(data);
    assert s.window + data + fin == s.window + (data + fin);
  }

  /**
   * Every push: what was transmitted so far grows by the new payloads, the new segments join the queue in order,
   * and a sender that was within its window stays within it.
   */
  lemma PushKeeps(s: State, sent: seq<byte>)
    requires s.input.Valid() && Inv(s, sent) && InRange(s)
    ensures var (t, out) := Push(s);
      && Inv(t, sent + Payloads(out)) && t.synSent && t.lastAck == s.lastAck && t.window == s.window + out
      && t.nextSeq == s.nextSeq + Length(out) && (!s.synSent ==> out != [] && out[0].syn)
      && t.input == s.input.(popped := t.input.popped) && s.input.popped <= t.input.popped
      && t == s.(input := t.input, synSent := true, finSent := t.finSent, nextSeq := t.nextSeq,
                 seqInFlight := t.seqInFlight, window := t.window)
      && (s.synSent && s.seqInFlight <= s.windowSize ==> t.seqInFlight <= t.windowSize)
  {
    hide Chain, Says, PushOne, PushData, PushFin, Inv;
    var (t, syn) := if s.synSent then (s, []) else PushOne(s);
    if s.synSent {
      assert sent + Payloads(syn) == sent && s.window + syn == s.window;
    } else {
      PushSynKeeps(s, sent);
      PushOneTakes(s);
    }
    PushRestKeeps(t, sent + Payloads(syn));
    var (u, data) := PushData(t);
    var (v, fin) := PushFin(u);
    Concat(syn, data + fin);
    assert syn + data + fin == syn + (data + fin);
    assert sent + Payloads(syn) + Payloads(data + fin) == sent + Payloads(syn + data + fin);
    assert s.window + syn + (data + fin) == s.window + (syn + data + fin);
  }

  lemma {:induction false} PushDataFills(s: State, sent: seq<byte>)
    requires s.input.Valid() && s.synSent && Inv(s, sent) && InRange(s)
    ensures var t := PushData(s).0; t.finSent || t.input.Buffered() == [] || t.windowSize <= t.seqInFlight
    decreases |s.input.accepted| - s.input.popped
  {
    hide Chain, PushOne, Says, Length, Payloads;
    if CanPushData(s) {
      PushDataStep(s, sent);
      PushDataFills(PushOne(s).0, sent + Payloads(PushOne(s).1));
    }
  }

  lemma PushFinFills(s: State, sent: seq<byte>)
    requires Inv(s, sent) && InRange(s) && s.synSent
    ensures var t := PushFin(s).0;
      && (t.finSent || !t.input.Finished() || t.windowSize == t.seqInFlight)
      && (s.finSent ==> t.finSent) && t.input == s.input && t.windowSize == s.windowSize &&
           s.seqInFlight <= t.seqInFlight
  {
    hide Chain, Says, Wrap;
    PushFinKeeps(s, sent);
  }

  /**
   * A push leaves nothing that it could send: bytes stay in the stream only when the window is full, and the FIN of a
   * finished stream stays behind only when the window is filled exactly.
   */
  lemma PushFillsWindow(s: State, sent: seq<byte>)
    requires s.input.Valid() && Inv(s, sent) && InRange(s)
    ensures var t := Push(s).0;
      && (t.finSent || t.input.Buffered() == [] || t.windowSize <= t.seqInFlight)
      && (t.finSent || !t.input.Finished() || t.windowSize == t.seqInFlight)
  {
    hide Chain, Says, PushOne, PushData, PushFin, Inv;
    var (t, syn) := if s.synSent then (s, []) else PushOne(s);
    if s.synSent {
      assert sent + Payloads(syn) == sent;
    } else {
      PushSynKeeps(s, sent);
      PushOneTakes(s);
    }
    PushDataKeeps(t, sent + Payloads(syn));
    PushDataFills(t, sent + Payloads(syn));
    var (u, data) := PushData(t);
    PushFinFills(u, sent + Payloads(syn) + Payloads(data));
  }

  /**
   * When a segment takes the FIN along: exactly when the stream is done, and the window has room for one more number
   * behind the rest of the segment, or is overrun.
   */
  lemma FinTakenAlong(s: State, sent: seq<byte>)
    requires Inv(s, sent) && InRange(s) && !s.finSent
    ensures var (t, out) := PushOne(s);
      t.finSent <==>
        t.input.Finished() && s.windowSize != s.seqInFlight + (if s.synSent then 0 else 1) + |Payloads(out)|
  {
    hide Chain, Wrap, Wanted, Room, Stream.Pop, Stream.Peek;
    PushOneTakes(s);
    var (t, out) := PushOne(s);
    if out != [] {
      One(out[0]);
    }
    RoomBehind(s, (if s.synSent then 0 else 1) + |Payloads(out)|);
  }

  lemma RoomBehind(s: State, used: nat)
    requires s.seqInFlight <= 0xFFFF && used <= MAX_PAYLOAD
    ensures Sub64(Room(s), used) > 0 <==> s.windowSize != s.seqInFlight + used
  {
  }

  /**
   * Once the SYN is sent, a push neither starts nor ends an overrun of the window. While the window is overrun, the
   * unsigned difference of the code has wrapped around, and a push sends something exactly when the FIN is still to be
   * sent and the stream is done. The push that sends the SYN, into a window still zero, always starts an overrun.
   */
  lemma OverrunSendsOnlyFin(s: State, sent: seq<byte>)
    requires Inv(s, sent) && InRange(s)
    ensures var (t, out) := Push(s);
      && (s.synSent ==> (t.seqInFlight <= t.windowSize <==> s.seqInFlight <= s.windowSize))
      && (!s.synSent && s.windowSize == 0 ==> t.seqInFlight > t.windowSize)
      && (s.synSent && s.seqInFlight > s.windowSize ==>
            (out != [] <==> !s.finSent && s.input.Finished())
            && (out != [] ==> |out| == 1 && out[0].fin && out[0].payload == []))
  {
    hide Chain, Says, PushOne;
    PushKeeps(s, sent);
    if s.synSent && s.seqInFlight > s.windowSize {
      assert PushData(s) == (s, []);
      OverrunFin(s, sent);
      var none: seq<SenderMessage> := [];
      assert none + none + PushFin(s).1 == PushFin(s).1;
    }
  }

  lemma OverrunFin(s: State, sent: seq<byte>)
    requires Inv(s, sent) && InRange(s) && s.synSent && s.seqInFlight > s.windowSize
    ensures var (t, out) := PushFin(s);
      && t.seqInFlight >= s.seqInFlight && t.windowSize == s.windowSize
      && (out != [] <==> !s.finSent && s.input.Finished())
      && (out != [] ==> |out| == 1 && out[0].fin && out[0].payload == [])
  {
    hide Chain, Says, Wrap;
    PushFinKeeps(s, sent);
  }

  // Conservation of bytes. `peek` shows at most 128 bytes, but one segment may remove up to 1000.

  predicate Exact(s: State, t: State, out: seq<SenderMessage>)
    requires s.input.Valid()
  {
    s.input.popped <= t.input.popped <= |s.input.accepted| &&
      Payloads(out) == s.input.accepted[s.input.popped..t.input.popped]
  }

  /** The first segment of a push asks for more bytes than `peek` shows, and they are there. */
  predicate AsksTooMuch(s: State)
    requires s.input.Valid()
  {
    && (s.synSent ==> CanPushData(s))
    && READ_BYTES_SIZE < Min(Wanted(Room(s), if s.synSent then 0 else 1), |s.input.Buffered()|)
  }

  lemma {:induction false} PushDataLength(s: State)
    requires s.input.Valid() && s.synSent
    ensures var (t, out) := PushData(s);
      t.input == s.input.(popped := t.input.popped) && |Payloads(out)| <= t.input.popped - s.input.popped
    decreases |s.input.accepted| - s.input.popped
  {
    if CanPushData(s) {
      PushOneTakes(s);
      var (t, out) := PushOne(s);
      PushDataLength(t);
      Concat(out, PushData(t).1);
    }
  }

  /** After a segment that took no more than `peek` shows, either the room or the buffer is used up. */
  lemma UsedUp(s: State)
    requires s.input.Valid() && s.seqInFlight <= 0xFFFF && (s.synSent ==> CanPushData(s)) && !s.finSent
    requires !s.synSent ==> s.seqInFlight == 0
    requires !AsksTooMuch(s)
    ensures var (t, out) := PushOne(s); t.input.Valid() && t.synSent && !CanPushData(t)
  {
  }

  lemma PushDataExact(s: State)
    requires s.input.Valid() && s.synSent && s.seqInFlight <= 0x1_0000
    ensures var (t, out) := PushData(s); Exact(s, t, out) <==> !(CanPushData(s) && AsksTooMuch(s))
  {
    hide Wanted, PushOne;
    if CanPushData(s) {
      PushOneTakes(s);
      var (t, out) := PushOne(s);
      PushDataLength(t);
      Concat(out, PushData(t).1);
      if !AsksTooMuch(s) {
        UsedUp(s);
        assert PushData(t) == (t, []);
      }
    }
  }

  lemma PushFinTakesNothing(s: State)
    requires s.input.Valid()
    ensures PushFin(s).0.input == s.input && Payloads(PushFin(s).1) == []
  {
  }

  lemma PushLength(s: State)
    requires s.input.Valid()
    ensures var (t, out) := Push(s); |Payloads(out)| <= t.input.popped - s.input.popped
  {
    hide Wanted;
    PushOneTakes(s);
    var (t, syn) := if s.synSent then (s, []) else PushOne(s);
    PushDataLength(t);
    var (u, data) := PushData(t);
    PushFinTakesNothing(u);
    Concat(syn, data);
    Concat(syn + data, PushFin(u).1);
  }

  /**
   * A push transmits exactly the bytes it removes from the input stream, if and only if its first segment does not
   * ask for more than `peek` shows.
   */
  lemma PushConserves(s: State, sent: seq<byte>)
    requires s.input.Valid() && Inv(s, sent)
    ensures var (t, out) := Push(s); Exact(s, t, out) <==> !AsksTooMuch(s)
  {
    hide Chain, Says, Wanted, PushOne, PushData, PushFin;
    PushOneTakes(s);
    var (t, syn) := if s.synSent then (s, []) else PushOne(s);
    var (u, data) := PushData(t);
    PushFinTakesNothing(u);
    Concat(syn, data);
    Concat(syn + data, PushFin(u).1);
    assert Payloads(syn + data) + [] == Payloads(syn + data);
    PushDataLength(t);
    if s.synSent {
      PushDataExact(s);
      assert syn + data == data;
    } else {
      SynExact(s);
    }
  }

  /** The first segment carries data too; whatever follows it can only remove more. */
  lemma SynExact(s: State)
    requires s.input.Valid() && !s.synSent && !s.finSent && s.seqInFlight == 0
    ensures var (t, syn) := PushOne(s); var (u, data) := PushData(t);
      && t.synSent && t.input.Valid() && t.input.capacity == s.input.capacity
      && (Exact(s, u, syn + data) <==> !AsksTooMuch(s))
  {
    PushOneTakes(s);
    var (t, syn) := PushOne(s);
    var (u, data) := PushData(t);
    PushDataLength(t);
    Concat(syn, data);
    if !AsksTooMuch(s) {
      UsedUp(s);
      assert (u, data) == (t, []) && syn + [] == syn;
    }
  }

  /** A push whose first segment asks for more removes more than it transmits. */
  lemma PushLoses(s: State)
    requires s.input.Valid() && AsksTooMuch(s)
    ensures var (t, out) := Push(s); |Payloads(out)| < t.input.popped - s.input.popped
  {
    hide Wanted, PushOne, PushData, PushFin;
    PushOneTakes(s);
    if s.synSent {
      DataLoses(s);
    }
    var (t, syn) := if s.synSent then (s, []) else PushOne(s);
    PushDataLength(t);
    var (u, data) := PushData(t);
    PushFinTakesNothing(u);
    Concat(syn, data);
    Concat(syn + data, PushFin(u).1);
  }

  lemma DataLoses(s: State)
    requires s.input.Valid() && s.synSent && AsksTooMuch(s)
    ensures var (t, out) := PushData(s); |Payloads(out)| < t.input.popped - s.input.popped
  {
    hide Wanted, PushOne;
    PushOneTakes(s);
    var (t, out) := PushOne(s);
    PushDataLength(t);
    Concat(out, PushData(t).1);
  }

  /** A stream that never holds more than `peek` shows loses nothing. */
  lemma SmallStreamConserves(s: State, sent: seq<byte>)
    requires s.input.Valid() && Inv(s, sent) && s.input.capacity <= READ_BYTES_SIZE
    ensures Exact(s, Push(s).0, Push(s).1)
  {
    PushConserves(s, sent);
  }

  /** 129 buffered bytes and a window of 1000: one byte is removed from the stream and never transmitted. */
  lemma LosesOneByte(isn: u32, data: seq<byte>)
    requires |data| == 129
    ensures var s := State(isn, 1000, Stream(200, data, 0, false), 0, 0, 1, 1000, 1, false, true, [], 0, 1000);
      Inv(s, []) && Push(s).0.input.popped == 129 && Payloads(Push(s).1) == data[..128]
  {
    var s := State(isn, 1000, Stream(200, data, 0, false), 0, 0, 1, 1000, 1, false, true, [], 0, 1000);
    PushOneTakes(s);
    var (t, out) := PushOne(s);
    assert !CanPushData(t);
    assert PushData(t) == (t, []) && PushFin(t) == (t, []);
    assert out + [] == out && [] + out + [] == out;
  }

  // The FIN.

  function FinCount(msgs: seq<SenderMessage>): nat {
    if msgs == [] then 0 else (if msgs[0].fin then 1 else 0) + FinCount(msgs[1..])
  }

  lemma {:induction false} FinConcat(a: seq<SenderMessage>, b: seq<SenderMessage>)
    ensures FinCount(a + b) == FinCount(a) + FinCount(b)
  {
    if a == [] {
      assert a + b == b;
    } else {
      assert (a + b)[1..] == a[1..] + b;
      FinConcat(a[1..], b);
    }
  }

  function Sent01(s: State): nat {
    if s.finSent then 1 else 0
  }

  lemma {:induction false} PushDataFins(s: State)
    requires s.input.Valid() && s.synSent
    ensures FinCount(PushData(s).1) == Sent01(PushData(s).0) - Sent01(s)
    decreases |s.input.accepted| - s.input.popped
  {
    if CanPushData(s) {
      var (t, out) := PushOne(s);
      PushDataFins(t);
      FinConcat(out, PushData(t).1);
    }
  }

  /** New FINs are counted by the flag, so over a whole run at most one fresh segment carries a FIN. */
  lemma PushFins(s: State)
    requires s.input.Valid() && (!s.synSent ==> !s.finSent)
    ensures FinCount(Push(s).1) == Sent01(Push(s).0) - Sent01(s)
  {
    var (t, syn) := if s.synSent then (s, []) else PushOne(s);
    OneFin(s);
    PushDataFins(t);
    var (u, data) := PushData(t);
    OneFin(u);
    FinConcat(syn, data);
    FinConcat(syn + data, PushFin(u).1);
  }

  lemma OneFin(s: State)
    requires s.input.Valid()
    ensures FinCount(PushOne(s).1) == Sent01(PushOne(s).0) - Sent01(s)
  {
  }

  // Acknowledgements.

  /** Exactly the wholly acknowledged segments leave the queue; a partly acknowledged one stays whole. */
  lemma {:induction false} DropAckedExact(w: seq<SenderMessage>, isn: u32, from: nat, lastAck: u64, ack: u64,
                                          sent: seq<byte>, ended: bool)
    requires Chain(w, isn, from, sent, ended)
    requires lastAck + 0x2_0000 < TWO63 && lastAck <= from + MAX_PAYLOAD + 2 && from + Length(w) <= lastAck + 0x1_0000
    requires from <= ack <= from + Length(w)
    ensures var d := DropAcked(w, isn, lastAck, ack); var start := from + Length(w) - Length(d);
      && |d| <= |w| && d == w[|w| - |d|..]
      && from <= start <= ack && Chain(d, isn, start, sent, ended)
      && (d != [] ==> ack < start + d[0].SequenceLength())
  {
    hide Unwrap, Wrap;
    if w != [] {
      WrapUnwrap(from, isn, lastAck);
      var len := w[0].SequenceLength();
      assert Unwrap(w[0].seqno, isn, lastAck) == from && Add64(from, len % TWO64) == from + len;
      if from + len <= ack {
        DropAckedExact(w[1..], isn, from + len, lastAck, ack, sent, ended);
      }
    }
  }

  /**
   * Whatever acknowledgement arrives: it counts exactly when it acknowledges something new and nothing unsent;
   * then the queue loses exactly what is wholly acknowledged.
   */
  lemma ReceiveAckKeeps(s: State, sent: seq<byte>, ackno: u32, windowSize: u16)
    requires Inv(s, sent) && InRange(s)
    ensures var t := ReceiveAck(s, ackno, windowSize); var ack := Unwrap(ackno, s.isn, s.lastAck);
      && Inv(t, sent)
      && t.lastAck == (if s.lastAck < ack <= s.nextSeq then ack else s.lastAck)
      && t.nextSeq == s.nextSeq && t.windowSize == windowSize
      && WindowStart(s) <= WindowStart(t) <= t.lastAck
      && |t.window| <= |s.window| && t.window == s.window[|s.window| - |t.window|..]
      && t == s.(windowSize := windowSize, window := t.window, crt := t.crt, rto := t.rto,
                 seqInFlight := t.seqInFlight, time := t.time, lastAck := t.lastAck)
  {
    hide Unwrap, Wrap, Chain, Says, DropAcked, Length, Payloads, Inv, WindowStart;
    var ack, t := Unwrap(ackno, s.isn, s.lastAck), ReceiveAck(s, ackno, windowSize);
    InFlight(s, sent);
    if s.lastAck < ack <= s.nextSeq {
      AckTaken(s, sent, ack);
      SameQueue(s.(window := t.window, seqInFlight := t.seqInFlight, lastAck := ack), t, sent);
    } else {
      SameQueue(s, t, sent);
    }
  }

  lemma InFlight(s: State, sent: seq<byte>)
    requires Inv(s, sent)
    ensures s.lastAck == s.nextSeq - s.seqInFlight && WindowStart(s) <= s.lastAck
  {
  }

  /** The invariant is about the queue and the counters only. */
  lemma SameQueue(s: State, t: State, sent: seq<byte>)
    requires Inv(s, sent)
    requires t == s.(windowSize := t.windowSize, crt := t.crt, rto := t.rto, time := t.time)
    ensures Inv(t, sent) && WindowStart(t) == WindowStart(s)
  {
    hide Chain;
  }

  lemma AckTaken(s: State, sent: seq<byte>, ack: u64)
    requires Inv(s, sent) && InRange(s) && s.lastAck < ack <= s.nextSeq
    ensures var d := DropAcked(s.window, s.isn, s.lastAck, ack);
      var t := s.(window := d, seqInFlight := s.seqInFlight - (ack - s.lastAck), lastAck := ack);
      && Inv(t, sent) && WindowStart(s) <= WindowStart(t) <= ack
      && |d| <= |s.window| && d == s.window[|s.window| - |d|..]
  {
    hide Chain, Says, DropAcked, Payloads;
    ChainHead(s, sent);
    Nothing(s.window, sent);
    DropAckedExact(s.window, s.isn, WindowStart(s), s.lastAck, ack, sent, s.finSent);
  }

  lemma ChainHead(s: State, sent: seq<byte>)
    requires Inv(s, sent)
    ensures s.lastAck <= WindowStart(s) + MAX_PAYLOAD + 2
  {
  }

  lemma {:induction false} ChainUnwraps(w: seq<SenderMessage>, isn: u32, from: nat, lastAck: u64, sent: seq<byte>,
                                        ended: bool, k: nat)
    requires Chain(w, isn, from, sent, ended) && k < |w|
    requires lastAck + 0x2_0000 < TWO63 && lastAck <= from + MAX_PAYLOAD + 2 && from + Length(w) <= lastAck + 0x1_0000
    ensures Unwrap(w[k].seqno, isn, lastAck) == from + Length(w[..k])
  {
    hide Unwrap, Wrap;
    if k == 0 {
      WrapUnwrap(from, isn, lastAck);
    } else {
      ChainUnwraps(w[1..], isn, from + w[0].SequenceLength(), lastAck, sent, ended, k - 1);
      assert w[1..][k - 1] == w[k] && w[..k][1..] == w[1..][..k - 1];
    }
  }

  /**
   * What the queue invariant says: the queue is empty exactly when nothing is in flight, and every queued sequence
   * number unwraps to where its segment starts, so that the comparison with an acknowledgement is exact.
   */
  lemma QueueMeans(s: State, sent: seq<byte>)
    requires Inv(s, sent) && InRange(s)
    ensures (s.window == [] <==> s.seqInFlight == 0) && s.seqInFlight <= 0x1_0000
    ensures forall k | 0 <= k < |s.window| ::
      Unwrap(s.window[k].seqno, s.isn, s.lastAck) == WindowStart(s) + Length(s.window[..k])
  {
    hide Unwrap, Wrap, Says;
    ChainHead(s, sent);
    forall k | 0 <= k < |s.window|
      ensures Unwrap(s.window[k].seqno, s.isn, s.lastAck) == WindowStart(s) + Length(s.window[..k])
    {
      ChainUnwraps(s.window, s.isn, WindowStart(s), s.lastAck, sent, s.finSent, k);
    }
  }

  // The timer.

  function Pow2(n: nat): nat {
    if n == 0 then 1 else 2 * Pow2(n - 1)
  }

  /**
   * The time-out doubles with every consecutive retransmission, in 64-bit arithmetic; the clock stays below it
   * unless the doubling has wrapped around to zero, and stands still at zero when nothing is outstanding.
   */
  ghost predicate TimerInv(s: State) {
    && s.rto == s.initialRTO * Pow2(s.crt) % TWO64
    && (s.rto == 0 || s.time < s.rto)
    && (s.window == [] ==> s.time == 0)
  }

  lemma Remainder(x: int, q: int, r: int)
    requires x == TWO64 * q + r && 0 <= r < TWO64
    ensures x % TWO64 == r
  {
  }

  lemma DoubledModulo(x: nat)
    ensures Add64(x % TWO64, x % TWO64) == 2 * x % TWO64
  {
    var q, r := x / TWO64, x % TWO64;
    if TWO64 <= 2 * r {
      Remainder(2 * x, 2 * q + 1, 2 * r - TWO64);
    } else {
      Remainder(2 * x, 2 * q, 2 * r);
    }
  }

  lemma TickKeepsTimer(s: State, ms: u64)
    requires TimerInv(s)
    ensures var (t, out) := Tick(s, ms); var fires := s.window != [] && s.rto <= Add64(s.time, ms);
      && TimerInv(t) && t.window == s.window
      && out == (if fires then [s.window[0]] else [])
      && t.crt == (if fires then s.crt + 1 else s.crt)
      && t.time == (if fires then 0 else if s.window == [] then s.time else Add64(s.time, ms))
      && t == s.(time := t.time, crt := t.crt, rto := if fires then Add64(s.rto, s.rto) else s.rto)
  {
    DoubledModulo(s.initialRTO * Pow2(s.crt));
    var x := Pow2(s.crt);
    assert s.initialRTO * Pow2(s.crt + 1) == 2 * (s.initialRTO * x);
  }

  /** How long the timer still has to run. */
  function Remaining(s: State): u64 {
    if s.rto <= s.time then 0 else s.rto - s.time
  }

  /** Waiting that long makes the front of the queue go out again, and leaves the rest of the sender alone. */
  lemma TimeOutFires(s: State)
    requires TimerInv(s) && s.window != []
    ensures var (t, out) := Tick(s, Remaining(s));
      out == [s.window[0]] && TimerInv(t) && t == s.(time := 0, crt := s.crt + 1, rto := t.rto)
  {
    TickKeepsTimer(s, Remaining(s));
  }

  /** Only an acknowledgement of something new resets the retransmission count and the time-out. */
  lemma AckKeepsTimer(s: State, ackno: u32, windowSize: u16)
    requires TimerInv(s) && s.seqInFlight <= s.nextSeq && s.lastAck == s.nextSeq - s.seqInFlight
    ensures var t := ReceiveAck(s, ackno, windowSize);
      && TimerInv(t)
      && (t.lastAck != s.lastAck <==> s.lastAck < Unwrap(ackno, s.isn, s.lastAck) <= s.nextSeq)
      && (t.lastAck != s.lastAck ==> t.crt == 0 && t.rto == s.initialRTO && t.time == 0)
      && (t.lastAck == s.lastAck ==> t.crt == s.crt && t.rto == s.rto && t.time == s.time && t.window == s.window)
  {
    hide Unwrap;
  }

  lemma PushKeepsTimer(s: State, sent: seq<byte>)
    requires s.input.Valid() && Inv(s, sent) && InRange(s) && TimerInv(s)
    ensures TimerInv(Push(s).0) && Push(s).0.crt == s.crt
  {
    hide Push, Chain;
    PushKeeps(s, sent);
  }

  /**
   * The clock is below the time-out after a tick, except if the time-out is zero already, or doubles to zero because
   * this tick fires with a time-out of 2^63.
   */
  lemma ClockBelowTimeout(s: State, ms: u64)
    requires TimerInv(s)
    ensures var t := Tick(s, ms).0;
      t.time >= t.rto <==> s.rto == 0 || (s.rto == TWO63 && s.window != [] && s.rto <= Add64(s.time, ms))
  {
    hide Pow2;
  }
}
