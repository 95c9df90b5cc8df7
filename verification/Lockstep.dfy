/** Both reassemblers, side by side on the same substrings and reads. */
module Lockstep {
  import opened MachineInts
  import opened ByteStreams
  import opened Assembly
  import opened Intervals
  import opened OneStream
  import V1 = ReassemblerV1
  import V2 = ReassemblerV2

  /**
   * What a user of a reassembler can see: the bytes offered to the reader, how many were pushed, how many wait, the
   * close.
   */
  datatype Observation = Observation(buffered: seq<byte>, pushed: nat, pending: int, closed: bool)

  function Observe(s: Asm): Observation
    requires s.out.Valid()
  {
    Observation(s.out.Buffered(), |s.out.accepted|, |s.pending|, s.out.closed)
  }

  function Empty(capacity: nat): Asm {
    Asm(Stream(capacity, [], 0, false), map[], Unknown)
  }

  ghost predicate Shows(capacity: nat, events: seq<Event>, o: Observation) {
    var s := After(Empty(capacity), events);
    s.out.Valid() && o == Observe(s)
  }

  // Where the two versions differ.

  /** A piece of the text that ends with it, but is not marked as the last one. */
  predicate Unmarked(text: seq<byte>, sub: Substring) {
    !sub.last && sub.first + |sub.data| == |text|
  }

  /** The first version drops such a piece once it knows the end, though it has something new to show. */
  ghost predicate Drops(s: Asm, text: seq<byte>, sub: Substring) {
    s.end.At? && Unmarked(text, sub) && exists i <- Visible(s, sub.first, sub.data, sub.last) :: i !in s.pending
  }

  /** The first version closes the stream for an empty last piece, new as such, when everything has been pushed. */
  predicate FirstCloses(s: Asm, sub: Substring) {
    s.end.Unknown? && sub.last && sub.data == [] && sub.first == |s.out.accepted|
  }

  /** The second version closes the stream for an empty piece, and the first does not. */
  predicate LeavesOpen(s: Asm, sub: Substring) {
    ClosesAtOnce(s, sub.first, sub.data, sub.last) && !s.out.closed && !FirstCloses(s, sub)
  }

  ghost predicate Differs(s: Asm, text: seq<byte>, sub: Substring) {
    Drops(s, text, sub) || LeavesOpen(s, sub)
  }

  /** What the first version makes of a piece of the text. */
  ghost function FirstArrival(s: Asm, text: seq<byte>, sub: Substring): Asm {
    var t := Arrival(s, sub);
    if Drops(s, text, sub) then s else if LeavesOpen(s, sub) then t.(out := t.out.(closed := false)) else t
  }

  /**
   * On a piece of the text the first version does what is specified of the second, if and only if it drops nothing and
   * leaves nothing open.
   */
  lemma FirstDiffers(s: Asm, text: seq<byte>, sub: Substring, keep: set<nat>, t: Asm)
    requires OfText(s, text) && PieceOf(text, sub)
    requires V1.Taken(s, sub.first, sub.data, sub.last, FirstCloses(s, sub), keep, t)
    ensures t == Arrival(s, sub) <==> !Differs(s, text, sub)
    ensures t == FirstArrival(s, text, sub)
  {
    hide Insert, Visible, V1.Taken;
    if sub.data == [] {
      EmptyArrives(s, sub);
      EmptyTaken(s, sub, FirstCloses(s, sub), keep, t);
    } else {
      ArrivalInserted(s, sub, text);
      PieceKeepsText(s, text, sub, Arrival(s, sub));
      if V1.Refuses(s, sub.first, sub.data, sub.last) {
        RefusedStays(s, sub, keep, t);
        VisibleUnknown(s, sub);
        if forall i <- Visible(s, sub.first, sub.data, sub.last) :: i in s.pending {
          NothingArrives(s, text, sub);
        }
      } else {
        V1.TakenIsInserted(s, sub.first, sub.data, sub.last, keep, t);
        PieceKeepsText(s, text, sub, t);
      }
    }
  }

  /**
   * The first version never closes the stream before its end; and it closes a stream for an empty last piece exactly if
   * the second does, unless that is too early or too late for it.
   */
  lemma FirstClosesAtEnd(s: Asm, text: seq<byte>, sub: Substring)
    requires OfText(s, text) && PieceOf(text, sub)
    ensures var t := FirstArrival(s, text, sub);
      && (t.out.closed && !s.out.closed ==> t.out.accepted == text)
      && (FirstCloses(s, sub) ==> t.out.closed && t == Arrival(s, sub))
  {
    hide Insert, Visible;
    if !Drops(s, text, sub) {
      PushedGrows(s, text, sub);
      ArrivalCloses(s, text, sub);
      if sub.data == [] {
        EmptyArrives(s, sub);
      }
    }
  }

  /** An empty stream is closed by its one piece, in both versions. */
  lemma EmptyStreamCloses(capacity: nat, keep: set<nat>, t: Asm)
    requires var s, sub := Empty(capacity), Substring(0, [], true);
      V1.Taken(s, 0, [], true, FirstCloses(s, sub), keep, t)
    ensures t == Arrival(Empty(capacity), Substring(0, [], true)) == Asm(Stream(capacity, [], 0, true), map[], At(0))
  {
    hide V1.Taken, Insert;
    var s, sub := Empty(capacity), Substring(0, [], true);
    assert s.end.Unknown? && !Drops(s, [], sub);
    FirstDiffers(s, [], sub, keep, t);
    EmptyArrives(s, sub);
  }

  lemma EmptyArrives(s: Asm, sub: Substring)
    requires s.Valid() && sub.data == []
    ensures Visible(s, sub.first, sub.data, sub.last) == map[]
    ensures var atOnce := ClosesAtOnce(s, sub.first, sub.data, sub.last);
      Arrival(s, sub) == Asm(s.out.(closed := s.out.closed || atOnce), s.pending,
        Learn(s.end, sub.first, sub.data, sub.last))
  {
    assert Visible(s, sub.first, sub.data, sub.last) == map[];
    assert s.pending + map[] == s.pending;
    NothingNew(s, Learn(s.end, sub.first, sub.data, sub.last), ClosesAtOnce(s, sub.first, sub.data, sub.last));
  }

  lemma EmptyTaken(s: Asm, sub: Substring, atOnce: bool, keep: set<nat>, t: Asm)
    requires s.Valid() && sub.data == [] && V1.Taken(s, sub.first, sub.data, sub.last, atOnce, keep, t)
    requires atOnce ==> s.end.Unknown?
    ensures t == Asm(s.out.(closed := s.out.closed || atOnce), s.pending, Learn(s.end, sub.first, sub.data, sub.last))
  {
    hide Outcome;
    if !V1.Refuses(s, sub.first, sub.data, sub.last) {
      var end := Learn(s.end, sub.first, sub.data, sub.last);
      var known :| Resolved(known, s.pending, Visible(s, sub.first, sub.data, sub.last), keep) &&
        t == Outcome(s, end, atOnce, known);
      assert known == s.pending;
      NothingNew(s, end, atOnce);
    }
  }

  lemma RefusedStays(s: Asm, sub: Substring, keep: set<nat>, t: Asm)
    requires V1.Refuses(s, sub.first, sub.data, sub.last) && V1.Taken(s, sub.first, sub.data, sub.last, false, keep, t)
    ensures t == s
  {
  }

  lemma VisibleUnknown(s: Asm, sub: Substring)
    requires s.Valid()
    ensures forall i <- Visible(s, sub.first, sub.data, sub.last) :: i !in s.pending ==> i !in s.Known()
  {
  }

  lemma NothingArrives(s: Asm, text: seq<byte>, sub: Substring)
    requires OfText(s, text) && PieceOf(text, sub) && sub.data != [] && s.end.At?
    requires forall i <- Visible(s, sub.first, sub.data, sub.last) :: i in s.pending
    ensures Arrival(s, sub) == s
  {
    var visible := Visible(s, sub.first, sub.data, sub.last);
    assert forall i <- visible :: visible[i] == text[i] == s.pending[i];
    assert s.pending + visible == s.pending;
    NothingNew(s, s.end, false);
  }

  /** What is dropped can be seen: fewer bytes have been pushed or are pending. */
  lemma DroppedShows(s: Asm, text: seq<byte>, sub: Substring)
    requires OfText(s, text) && PieceOf(text, sub) && Drops(s, text, sub)
    ensures Arrival(s, sub).Valid()
    ensures |s.out.accepted| + |s.pending| < |Arrival(s, sub).out.accepted| + |Arrival(s, sub).pending|
  {
    hide Insert, Visible, Asm.Known;
    ArrivalInserted(s, sub, text);
    PieceKeepsText(s, text, sub, Arrival(s, sub));
    VisibleUnknown(s, sub);
    KnownSize(s);
    KnownSize(Arrival(s, sub));
    Larger(s.Known().Keys, Arrival(s, sub).Known().Keys);
  }

  lemma Larger(a: set<nat>, b: set<nat>)
    requires a < b
    ensures |a| < |b|
  {
    assert b == a + (b - a);
  }

  lemma KnownSize(s: Asm)
    requires s.Valid()
    ensures |s.Known().Keys| == |s.out.accepted| + |s.pending|
  {
    var acc := s.out.accepted;
    var pushed := Entry(0, |acc|, acc).Bytes();
    EntrySize(0, acc);
    KnownSplits(s, pushed);
    DisjointSize(pushed, s.pending);
    hide Asm.Known;
    assert |s.Known().Keys| == |s.Known()|;
  }

  lemma KnownSplits(s: Asm, pushed: map<nat, byte>)
    requires s.Valid() && pushed == Entry(0, |s.out.accepted|, s.out.accepted).Bytes()
    ensures s.Known() == pushed + s.pending && pushed.Keys !! s.pending.Keys
  {
    assert (map i: nat | i < |s.out.accepted| :: s.out.accepted[i]) == pushed;
  }

  // Runs of both.

  /** With the text pushed and its end unknown, nothing can be cached. */
  lemma NothingCached(r: V1.Reassembler, text: seq<byte>, sub: Substring)
    requires r.Valid() && OfText(r.State(), text) && r.reach <= |text| && PieceOf(text, sub)
    ensures r.AtOnce(sub.first, sub.data, sub.last) <==> FirstCloses(r.State(), sub)
  {
    hide Bytes, Total;
    assert r.cache != [] ==> r.cache[0].Consistent() && r.waitingIndex <= r.cache[0].first;
  }

  method StepFirst(r: V1.Reassembler, text: seq<byte>, e: Event)
    requires r.Valid() && r.Settled() && OfText(r.State(), text) && r.reach <= |text|
    requires PieceEvent(text, e) && r.output.capacity + |text| < TWO63
    modifies r, r.output
    ensures r.Valid() && r.Settled() && OfText(r.State(), text) && r.reach <= |text|
    ensures r.State() ==
      if e.Arrive? then FirstArrival(old(r.State()), text, e.sub) else Step(old(r.State()), e)
  {
    hide Ordered, Within, Bytes, Total, Insert, Drops, LeavesOpen, V1.Taken, V1.Absorbed, KeptByFirst;
    ghost var s := r.State();
    StepKeepsText(s, text, e);
    match e {
      case Arrive(sub) =>
        ghost var keep := r.Keeps(sub.first, sub.data);
        NothingCached(r, text, sub);
        EndIsBeyond(s, text, sub);
        r.Insert(sub.first, sub.data, sub.last);
        FirstDiffers(s, text, sub, keep, r.State());
        OpenKeepsText(s, text, sub);
      case Read(n) => r.Read(n);
    }
  }

  lemma OpenKeepsText(s: Asm, text: seq<byte>, sub: Substring)
    requires OfText(s, text) && OfText(Arrival(s, sub), text)
    ensures OfText(FirstArrival(s, text, sub), text)
  {
    hide Insert, Drops;
  }

  method StepSecond(r: V2.Reassembler, text: seq<byte>, e: Event)
    requires r.Valid() && OfText(r.State(), text)
    requires PieceEvent(text, e) && r.output.capacity + |text| < TWO63
    modifies r, r.output
    ensures r.Valid() && OfText(r.State(), text)
    ensures r.State() == Step(old(r.State()), e)
  {
    hide Ordered, Within, Bytes, Total, Insert, Inserted, InsertedKeeping, KeptBySecond;
    ghost var s := r.State();
    StepKeepsText(s, text, e);
    match e {
      case Arrive(sub) =>
        r.Insert(sub.first, sub.data, sub.last);
        PieceKeepsText(s, text, sub, r.State());
      case Read(n) => r.Read(n);
    }
  }

  lemma EndIsBeyond(s: Asm, text: seq<byte>, sub: Substring)
    requires OfText(s, text) && PieceOf(text, sub)
    ensures V1.EndFits(s, sub.first, sub.data, sub.last)
  {
  }

  lemma SeenFirst(r: V1.Reassembler)
    requires r.Valid()
    ensures r.State().out.Valid()
    ensures Observation(r.output.buffer, r.output.bytesPushed, r.BytesPending(), r.output.closed) == Observe(r.State())
  {
  }

  lemma SeenSecond(r: V2.Reassembler)
    requires r.Valid()
    ensures r.State().out.Valid()
    ensures Observation(r.output.buffer, r.output.bytesPushed, r.BytesPending(), r.output.closed) == Observe(r.State())
  {
  }

  /** One event on both; neither sees the other. What they show differs if the first drops a piece or leaves it open. */
  method StepBoth(r1: V1.Reassembler, r2: V2.Reassembler, text: seq<byte>, e: Event)
    returns (o1: Observation, o2: Observation)
    requires r1.output != r2.output && r1.output.capacity == r2.output.capacity
    requires r1.Valid() && r1.Settled() && OfText(r1.State(), text) && r1.reach <= |text|
    requires r2.Valid() && OfText(r2.State(), text)
    requires PieceEvent(text, e) && r1.output.capacity + |text| < TWO63
    modifies r1, r2, r1.output, r2.output
    ensures r1.Valid() && r1.Settled() && OfText(r1.State(), text) && r1.reach <= |text|
    ensures r2.Valid() && OfText(r2.State(), text)
    ensures r2.State() == Step(old(r2.State()), e)
    ensures r1.State().out.Valid() && r2.State().out.Valid() && o1 == Observe(r1.State()) && o2 == Observe(r2.State())
    ensures var differs := e.Arrive? && Differs(old(r2.State()), text, e.sub);
      old(r1.State()) == old(r2.State()) ==> if differs then o1 != o2 else r1.State() == r2.State()
  {
    hide Ordered, Within, Bytes, Total, Insert, OfText, PieceEvent, Drops, LeavesOpen, V1.Reassembler.Valid,
      V1.Reassembler.State, V1.Reassembler.Settled, V2.Reassembler.Valid, V2.Reassembler.State;
    ghost var s := r2.State();
    StepFirst(r1, text, e);
    StepSecond(r2, text, e);
    SeenFirst(r1);
    SeenSecond(r2);
    o1 := Observation(r1.output.buffer, r1.output.bytesPushed, r1.BytesPending(), r1.output.closed);
    o2 := Observation(r2.output.buffer, r2.output.bytesPushed, r2.BytesPending(), r2.output.closed);
    if e.Arrive? && Differs(s, text, e.sub) {
      ArrivesPiece(text, e);
      DifferenceShows(s, text, e.sub);
    }
  }

  lemma ArrivesPiece(text: seq<byte>, e: Event)
    requires PieceEvent(text, e) && e.Arrive?
    ensures PieceOf(text, e.sub)
  {
  }

  lemma DifferenceShows(s: Asm, text: seq<byte>, sub: Substring)
    requires OfText(s, text) && PieceOf(text, sub) && Differs(s, text, sub)
    ensures var t, u := FirstArrival(s, text, sub), Arrival(s, sub);
      t.out.Valid() && u.out.Valid() ==> Observe(t) != Observe(u)
  {
    hide Insert, Visible, Drops;
    if Drops(s, text, sub) {
      DroppedShows(s, text, sub);
    } else {
      EmptyArrives(s, sub);
    }
  }

  /** Event `i` of a run is a piece on which the versions differ. */
  ghost predicate DiffersAt(capacity: nat, text: seq<byte>, events: seq<Event>, i: nat) {
    i < |events| && events[i].Arrive? && Differs(After(Empty(capacity), events[..i]), text, events[i].sub)
  }

  /**
   * The two implementations split overlaps into different cases and have different rules for the end. On every
   * interleaving of pieces of one text with reads, the second shows after every step what the sparse-map specification
   * says, and the first shows the same throughout if and only if it drops nothing and leaves nothing open.
   */
  method Compare(capacity: nat, text: seq<byte>, events: seq<Event>)
    returns (trace1: seq<Observation>, trace2: seq<Observation>)
    requires capacity + |text| < TWO63
    requires forall e <- events :: PieceEvent(text, e)
    ensures |trace1| == |trace2| == |events|
    ensures forall i | 0 <= i < |events| :: Shows(capacity, events[..i + 1], trace2[i])
    ensures trace1 == trace2 <==> forall i | 0 <= i < |events| :: !DiffersAt(capacity, text, events, i)
  {
    hide Ordered, Within, Bytes, Total, Insert, OfText, After, PieceEvent, Differs, Observe, V1.Reassembler.Valid,
      V1.Reassembler.State, V1.Reassembler.Settled, V2.Reassembler.Valid, V2.Reassembler.State;
    var out1 := new ByteStream(capacity);
    var out2 := new ByteStream(capacity);
    var r1 := new V1.Reassembler(out1);
    var r2 := new V2.Reassembler(out2);
    trace1, trace2 := [], [];
    AfterNothing(capacity, text);
    for i := 0 to |events|
      invariant fresh(r1) && fresh(r2) && fresh(out1) && fresh(out2) && out1 != out2
      invariant r1.output == out1 && r2.output == out2 && out1.capacity == out2.capacity == capacity
      invariant r1.Valid() && r1.Settled() && r2.Valid() && r2.State() == After(Empty(capacity), events[..i])
      invariant OfText(r1.State(), text) && r1.reach <= |text| && OfText(r2.State(), text)
      invariant |trace1| == |trace2| == i
      invariant forall k | 0 <= k < i :: Shows(capacity, events[..k + 1], trace2[k])
      invariant trace1 == trace2 <==> forall k | 0 <= k < i :: !DiffersAt(capacity, text, events, k)
      invariant trace1 == trace2 ==> r1.State() == r2.State()
    {
      assert events[..i + 1] == events[..i] + [events[i]];
      AfterLast(Empty(capacity), events[..i], events[i]);
      ghost var differs := DiffersAt(capacity, text, events, i);
      var o1, o2 := StepBoth(r1, r2, text, events[i]);
      assert Shows(capacity, events[..i + 1], o2);
      Extended(trace1, trace2, o1, o2);
      trace1, trace2 := trace1 + [o1], trace2 + [o2];
    }
  }

  lemma Extended(t1: seq<Observation>, t2: seq<Observation>, o1: Observation, o2: Observation)
    requires |t1| == |t2|
    ensures t1 + [o1] == t2 + [o2] <==> t1 == t2 && o1 == o2
  {
    var n := |t1|;
    assert (t1 + [o1])[..n] == t1 && (t2 + [o2])[..n] == t2 && (t1 + [o1])[n] == o1 && (t2 + [o2])[n] == o2;
  }

  lemma AfterNothing(capacity: nat, text: seq<byte>)
    ensures After(Empty(capacity), []) == Empty(capacity) && OfText(Empty(capacity), text)
  {
  }
}
