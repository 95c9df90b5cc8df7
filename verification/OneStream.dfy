/** Reassembling the substrings of one text, in any order and with any overlaps. */
module OneStream {
  import opened MachineInts
  import opened ByteStreams
  import opened Assembly

  datatype Substring = Substring(first: nat, data: seq<byte>, last: bool)

  datatype Event = Arrive(sub: Substring) | Read(n: nat)

  ghost predicate PieceOf(text: seq<byte>, sub: Substring) {
    && sub.first + |sub.data| <= |text|
    && sub.data == text[sub.first..sub.first + |sub.data|]
    && (sub.last ==> sub.first + |sub.data| == |text|)
  }

  /** Everything known is a byte of the text at its own index. */
  ghost predicate OfText(s: Asm, text: seq<byte>) {
    && s.Valid()
    && s.out.accepted <= text
    && (forall i <- s.pending :: i < |text| && s.pending[i] == text[i])
    && (s.end.At? ==> s.end.index == |text|)
  }

  function Arrival(s: Asm, sub: Substring): Asm {
    Insert(s, sub.first, sub.data, sub.last)
  }

  lemma PieceKeepsText(s: Asm, text: seq<byte>, sub: Substring, t: Asm)
    requires OfText(s, text) && PieceOf(text, sub)
    requires Inserted(s, sub.first, sub.data, sub.last, t)
    ensures t == Arrival(s, sub)
    ensures OfText(t, text)
    ensures t.Known().Keys == s.Known().Keys + Visible(s, sub.first, sub.data, sub.last).Keys
  {
    var visible := Visible(s, sub.first, sub.data, sub.last);
    assert forall i <- visible :: visible[i] == text[i];
    InsertedAgree(s, sub.first, sub.data, sub.last, t);
    InsertMeaning(s, sub.first, sub.data, sub.last, t);
    KnownOfText(s, t, text, visible);
  }

  lemma KnownOfText(s: Asm, t: Asm, text: seq<byte>, visible: map<nat, byte>)
    requires OfText(s, text)
    requires forall i <- visible :: i < |text| && visible[i] == text[i]
    requires Merged(t.Known(), s.Known(), visible) && t.Valid()
    ensures t.out.accepted <= text && forall i <- t.pending :: i < |text| && t.pending[i] == text[i]
  {
    assert forall i <- t.Known() :: i < |text| && t.Known()[i] == text[i];
    var acc := t.out.accepted;
    assert forall i: nat | i < |acc| :: i in t.Known() && t.Known()[i] == acc[i];
    assert |text| !in t.Known();
    assert forall i <- t.pending :: i in t.Known();
  }

  /** Two reassemblers of one text that know the same indices are in the same state. */
  lemma SameKnowledge(a: Asm, b: Asm, text: seq<byte>)
    requires OfText(a, text) && OfText(b, text)
    requires a.Known().Keys == b.Known().Keys
    requires a.out.capacity == b.out.capacity && a.out.popped == b.out.popped && a.out.closed == b.out.closed &&
      a.end == b.end
    ensures a == b
  {
    assert |a.out.accepted| !in a.Known() && |b.out.accepted| !in b.Known();
    assert |a.out.accepted| !in b.Known() && |b.out.accepted| !in a.Known();
    assert |a.out.accepted| == |b.out.accepted|;
    assert forall i: nat :: i in a.pending <==> i in a.Known() && |a.out.accepted| <= i;
    assert forall i: nat :: i in b.pending <==> i in b.Known() && |b.out.accepted| <= i;
  }

  // Order independence.

  function ArriveAll(s: Asm, subs: seq<Substring>): Asm {
    if subs == [] then s else Arrival(ArriveAll(s, subs[..|subs| - 1]), subs[|subs| - 1])
  }

  ghost predicate Covered(subs: seq<Substring>, i: nat) {
    exists sub <- subs :: Covers(sub.first, sub.data, i)
  }

  /** What is known after a list of arrivals: what was known before, and everything they cover below the tail. */
  lemma {:induction false} KnownAfter(s: Asm, text: seq<byte>, subs: seq<Substring>)
    requires OfText(s, text)
    requires forall sub <- subs :: PieceOf(text, sub) && !sub.last
    requires s.end.Unknown?
    ensures var t := ArriveAll(s, subs);
      && OfText(t, text) && t.out == s.out.(accepted := t.out.accepted) && t.end.Unknown?
      && forall i: nat :: i in t.Known() <==> i in s.Known() || (i < s.out.Tail() && Covered(subs, i))
  {
    hide Asm.Known, Visible, Run, Insert, PieceOf;
    if subs != [] {
      var n := |subs| - 1;
      var init, sub := subs[..n], subs[n];
      KnownAfter(s, text, init);
      var u := ArriveAll(s, init);
      ArrivalInserted(u, sub, text);
      PieceKeepsText(u, text, sub, Arrival(u, sub));
      CoveredLast(init, sub);
      assert subs == init + [sub];
      ArrivalFrame(u, sub);
      KnownGrows(u, sub);
    }
  }

  lemma ArrivalFrame(u: Asm, sub: Substring)
    requires !sub.last && u.end.Unknown?
    ensures var t := Arrival(u, sub); t.out == u.out.(accepted := t.out.accepted) && t.end.Unknown?
  {
  }

  lemma ArrivalInserted(u: Asm, sub: Substring, text: seq<byte>)
    requires OfText(u, text) && PieceOf(text, sub)
    ensures Inserted(u, sub.first, sub.data, sub.last, Arrival(u, sub))
  {
  }

  lemma KnownGrows(u: Asm, sub: Substring)
    requires u.end.Unknown? && !sub.last && u.out.Valid()
    ensures forall i: nat ::
      (i in u.Known() || i in Visible(u, sub.first, sub.data, sub.last))
        <==> i in u.Known() || (i < u.out.Tail() && Covers(sub.first, sub.data, i))
  {
  }

  lemma CoveredLast(init: seq<Substring>, sub: Substring)
    ensures forall i: nat :: Covered(init + [sub], i) <==> Covered(init, i) || Covers(sub.first, sub.data, i)
  {
  }

  /** Without reads in between, the order in which substrings arrive does not matter, nor do repetitions. */
  lemma CoverageDecides(s: Asm, text: seq<byte>, a: seq<Substring>, b: seq<Substring>)
    requires OfText(s, text) && s.end.Unknown?
    requires forall sub <- a + b :: PieceOf(text, sub) && !sub.last
    requires forall i: nat | i < s.out.Tail() :: Covered(a, i) <==> Covered(b, i)
    ensures ArriveAll(s, a) == ArriveAll(s, b)
  {
    assert forall sub <- a :: sub in a + b;
    assert forall sub <- b :: sub in a + b;
    KnownAfter(s, text, a);
    KnownAfter(s, text, b);
    SameKnowledge(ArriveAll(s, a), ArriveAll(s, b), text);
  }

  lemma OrderIndependent(s: Asm, text: seq<byte>, a: seq<Substring>, b: seq<Substring>)
    requires OfText(s, text) && s.end.Unknown?
    requires forall sub <- a :: PieceOf(text, sub) && !sub.last
    requires multiset(a) == multiset(b)
    ensures ArriveAll(s, a) == ArriveAll(s, b)
  {
    forall sub
      ensures sub in a <==> sub in b
    {
      assert sub in a <==> sub in multiset(a);
      assert sub in b <==> sub in multiset(b);
    }
    CoverageDecides(s, text, a, b);
  }

  /** From the empty state, the pushed bytes are the longest covered prefix of the window. */
  lemma LongestCoveredPrefix(capacity: nat, text: seq<byte>, subs: seq<Substring>)
    requires forall sub <- subs :: PieceOf(text, sub) && !sub.last
    ensures var t := ArriveAll(Asm(Stream(capacity, [], 0, false), map[], Unknown), subs);
      && t.out.accepted <= text
      && (forall i: nat | i < |t.out.accepted| :: Covered(subs, i))
      && (|t.out.accepted| == capacity || !Covered(subs, |t.out.accepted|))
      && (forall i: nat :: i in t.pending <==> |t.out.accepted| < i < capacity && Covered(subs, i))
  {
    var s := Asm(Stream(capacity, [], 0, false), map[], Unknown);
    KnownAfter(s, text, subs);
    var t := ArriveAll(s, subs);
    assert forall i: nat :: i in t.Known() <==> i < capacity && Covered(subs, i);
    assert forall i: nat | i < |t.out.accepted| :: i in t.Known();
    assert forall i: nat :: i in t.pending <==> i in t.Known() && |t.out.accepted| <= i;
  }

  function Step(s: Asm, e: Event): Asm {
    match e
    case Arrive(sub) => Arrival(s, sub)
    case Read(n) => Pop(s, n)
  }

  function After(s: Asm, events: seq<Event>): Asm
    decreases |events|
  {
    if events == [] then s else After(Step(s, events[0]), events[1..])
  }

  ghost predicate PieceEvent(text: seq<byte>, e: Event) {
    e.Arrive? ==> PieceOf(text, e.sub)
  }

  lemma {:induction false} AfterLast(s: Asm, events: seq<Event>, e: Event)
    ensures After(s, events + [e]) == Step(After(s, events), e)
    decreases |events|
  {
    if events == [] {
      assert [e][1..] == [];
    } else {
      assert (events + [e])[1..] == events[1..] + [e];
      AfterLast(Step(s, events[0]), events[1..], e);
    }
  }

  lemma StepKeepsText(s: Asm, text: seq<byte>, e: Event)
    requires OfText(s, text) && PieceEvent(text, e)
    ensures OfText(Step(s, e), text)
  {
    if e.Arrive? {
      ArrivalInserted(s, e.sub, text);
      PieceKeepsText(s, text, e.sub, Step(s, e));
    }
  }

  // The end of the stream.

  /** The end is known and the stream is closed exactly when everything has been pushed. */
  ghost predicate ClosedAtEnd(s: Asm, text: seq<byte>) {
    s.end.At? && (s.out.closed <==> |s.out.accepted| == |text|)
  }

  /** The end was learned when everything had been pushed already: the stream is not closed. */
  ghost predicate EndMissed(s: Asm, text: seq<byte>) {
    s.end.At? && |s.out.accepted| == |text| && !s.out.closed
  }

  lemma PushedGrows(s: Asm, text: seq<byte>, sub: Substring)
    requires OfText(s, text) && PieceOf(text, sub)
    ensures var t := Arrival(s, sub); OfText(t, text) && |s.out.accepted| <= |t.out.accepted| <= |text|
  {
    ArrivalInserted(s, sub, text);
    PieceKeepsText(s, text, sub, Arrival(s, sub));
    InsertMeaning(s, sub.first, sub.data, sub.last, Arrival(s, sub));
  }

  lemma ArrivalCloses(s: Asm, text: seq<byte>, sub: Substring)
    requires OfText(s, text) && PieceOf(text, sub)
    ensures var t := Arrival(s, sub);
      && t.end == Learn(s.end, sub.first, sub.data, sub.last)
      && t.out.closed == (s.out.closed || ClosesAtOnce(s, sub.first, sub.data, sub.last)
                          || (t.end.At? && |s.out.accepted| < |text| == |t.out.accepted|))
  {
    PushedGrows(s, text, sub);
  }

  lemma {:induction false} ClosedAtEndStays(s: Asm, text: seq<byte>, events: seq<Event>)
    requires OfText(s, text)
    requires forall e <- events :: PieceEvent(text, e) && (e.Arrive? ==> e.sub.data != [])
    ensures var t := After(s, events);
      && OfText(t, text)
      && (ClosedAtEnd(s, text) ==> ClosedAtEnd(t, text))
      && (EndMissed(s, text) ==> EndMissed(t, text))
    decreases |events|
  {
    if events != [] {
      var e := events[0];
      var u := Step(s, e);
      StepKeepsText(s, text, e);
      if e.Arrive? {
        PushedGrows(s, text, e.sub);
        ArrivalCloses(s, text, e.sub);
      }
      ClosedAtEndStays(u, text, events[1..]);
    }
  }

  /**
   * Once the last substring has been seen, in any later state reached through non-empty substrings and reads the
   * stream is closed exactly when all of it has been pushed -- if and only if something was still missing when the
   * last substring arrived.
   */
  lemma ClosesExactlyAtEnd(s: Asm, text: seq<byte>, sub: Substring, events: seq<Event>)
    requires OfText(s, text) && s.end.Unknown? && !s.out.closed
    requires PieceOf(text, sub) && sub.last && sub.data != []
    requires forall e <- events :: PieceEvent(text, e) && (e.Arrive? ==> e.sub.data != [])
    ensures var t := After(Arrival(s, sub), events);
      && |t.out.accepted| <= |text|
      && (ClosedAtEnd(t, text) <==> |s.out.accepted| < |text|)
  {
    PushedGrows(s, text, sub);
    ArrivalCloses(s, text, sub);
    ClosedAtEndStays(Arrival(s, sub), text, events);
  }

  /**
   * An empty substring can close the stream too early: it does so exactly when the end is known, nothing is
   * pending, and bytes before the end have not been pushed.
   */
  lemma ClosesTooEarly(s: Asm, text: seq<byte>, sub: Substring)
    requires OfText(s, text) && !s.out.closed && PieceOf(text, sub)
    ensures var t := Arrival(s, sub);
      (t.out.closed && |t.out.accepted| < |text|)
        <==> sub.data == [] && (s.end.At? || sub.last) && s.pending == map[] && |s.out.accepted| < |text|
  {
  }
}
