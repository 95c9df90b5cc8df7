/**
 * What a reassembler must do, independent of any cache: it knows a sparse map from stream index to byte,
 * has pushed the longest run known without a gap, and holds the rest as pending.
 */
module Assembly {
  import opened MachineInts
  import opened ByteStreams

  datatype End = Unknown | At(index: int)

  datatype Asm = Asm(out: Stream, pending: map<nat, byte>, end: End) {
    ghost predicate Valid() {
      && out.Valid()
      && forall i <- pending :: |out.accepted| < i < out.Tail()
    }

    /** Every byte known so far: those pushed, and those waiting behind a gap. */
    ghost function Known(): map<nat, byte> {
      (map i: nat | i < |out.accepted| :: out.accepted[i]) + pending
    }
  }

  predicate Covers(first: int, data: seq<byte>, i: int) {
    first <= i < first + |data|
  }

  /** The bytes of a substring that fall at indices in [lo, hi). */
  function Clip(first: int, data: seq<byte>, lo: nat, hi: int): map<nat, byte> {
    map i: nat | lo <= i < hi && Covers(first, data, i) :: data[i - first]
  }

  /** `m` knows exactly what `a` or `b` knows, and takes every byte from one of them. */
  ghost predicate Merged(m: map<nat, byte>, a: map<nat, byte>, b: map<nat, byte>) {
    && m.Keys == a.Keys + b.Keys
    && forall i <- m :: (i in a && m[i] == a[i]) || (i in b && m[i] == b[i])
  }

  /**
   * The same, and of two bytes for one index that of `a` stays if the index is in `keep`, and that of `b` wins if
   * not.
   */
  ghost predicate Resolved(m: map<nat, byte>, a: map<nat, byte>, b: map<nat, byte>, keep: set<nat>) {
    && m.Keys == a.Keys + b.Keys
    && forall i <- m :: if i in a && (i !in b || i in keep) then m[i] == a[i] else i in b && m[i] == b[i]
  }

  lemma ResolvedIsMerged(m: map<nat, byte>, a: map<nat, byte>, b: map<nat, byte>, keep: set<nat>)
    requires Resolved(m, a, b, keep)
    ensures Merged(m, a, b)
  {
  }

  ghost predicate Agree(a: map<nat, byte>, b: map<nat, byte>) {
    forall i | i in a && i in b :: a[i] == b[i]
  }

  lemma MergedAgree(m: map<nat, byte>, a: map<nat, byte>, b: map<nat, byte>)
    requires Merged(m, a, b) && Agree(a, b)
    ensures m == a + b == b + a
  {
  }

  function Above(known: map<nat, byte>, from: nat): set<nat> {
    set i | i in known.Keys && from <= i
  }

  /** The first index from `from` on that is not known. */
  function Run(known: map<nat, byte>, from: nat): (end: nat)
    ensures from <= end && end !in known
    ensures forall i: nat | from <= i < end :: i in known
    decreases Above(known, from)
  {
    if from in known then
      assert from in Above(known, from) && from !in Above(known, from + 1);
      Run(known, from + 1)
    else from
  }

  lemma RunIs(known: map<nat, byte>, from: nat, end: nat)
    requires from <= end && end !in known
    requires forall i: nat | from <= i < end :: i in known
    ensures Run(known, from) == end
  {
  }

  function Slice(known: map<nat, byte>, from: nat, end: nat): seq<byte>
    requires from <= end
    requires forall i: nat | from <= i < end :: i in known
  {
    seq(end - from, k requires 0 <= k < end - from => assert from <= from + k < end; known[from + k])
  }

  /** Push everything that is known without a gap. */
  function Settle(out: Stream, known: map<nat, byte>, end: End): Asm {
    var w := |out.accepted|;
    var e := Run(known, w);
    Asm(out.(accepted := out.accepted + Slice(known, w, e)), map i | i in known && e <= i :: known[i], end)
  }

  /** The end of the stream as far as known once this substring has been seen. */
  function Learn(end: End, first: int, data: seq<byte>, last: bool): End {
    if end.Unknown? && last then At(first + |data|) else end
  }

  /** The first index that is not wanted: beyond the window, or beyond the end of the stream. */
  function Limit(s: Asm, first: int, data: seq<byte>, last: bool): (n: int)
    ensures n <= s.out.Tail()
  {
    var end := Learn(s.end, first, data, last);
    if end.At? then Min(s.out.Tail(), end.index) else s.out.Tail()
  }

  /** The bytes of the substring inside the window and before the end of the stream. */
  function Visible(s: Asm, first: int, data: seq<byte>, last: bool): map<nat, byte> {
    Clip(first, data, |s.out.accepted|, Limit(s, first, data, last))
  }

  /** An empty substring arriving with the end known and nothing pending closes the stream at once. */
  predicate ClosesAtOnce(s: Asm, first: int, data: seq<byte>, last: bool) {
    Learn(s.end, first, data, last).At? && |data| == 0 && s.pending == map[]
  }

  /** Everything contiguous is pushed, and the stream is closed when that reaches its end. */
  function Outcome(s: Asm, end: End, atOnce: bool, known: map<nat, byte>): Asm {
    var t := Settle(s.out, known, end);
    var crossed := end.At? && |s.out.accepted| < end.index <= |t.out.accepted|;
    t.(out := t.out.(closed := s.out.closed || atOnce || crossed))
  }

  /** The state after a substring, when `known` is what the pending bytes and the visible bytes merged into. */
  function InsertKnowing(s: Asm, first: int, data: seq<byte>, last: bool, known: map<nat, byte>): Asm {
    Outcome(s, Learn(s.end, first, data, last), ClosesAtOnce(s, first, data, last), known)
  }

  function Insert(s: Asm, first: int, data: seq<byte>, last: bool): Asm {
    InsertKnowing(s, first, data, last, s.pending + Visible(s, first, data, last))
  }

  function Pop(s: Asm, n: nat): Asm {
    s.(out := s.out.Pop(n))
  }

  /** A substring that may contradict earlier ones: each byte is one that some substring gave for that index. */
  ghost predicate Inserted(s: Asm, first: int, data: seq<byte>, last: bool, t: Asm) {
    exists known ::
      Merged(known, s.pending, Visible(s, first, data, last)) && t == InsertKnowing(s, first, data, last, known)
  }

  /** The same, where bytes that are contradicted stay exactly at the indices in `keep`: only one state is left. */
  ghost predicate InsertedKeeping(s: Asm, first: int, data: seq<byte>, last: bool, keep: set<nat>, t: Asm) {
    exists known ::
      Resolved(known, s.pending, Visible(s, first, data, last), keep) && t == InsertKnowing(s, first, data, last, known)
  }

  lemma KeepingIsInserted(s: Asm, first: int, data: seq<byte>, last: bool, keep: set<nat>, t: Asm)
    requires InsertedKeeping(s, first, data, last, keep, t)
    ensures Inserted(s, first, data, last, t)
  {
    var known :| Resolved(known, s.pending, Visible(s, first, data, last), keep) &&
      t == InsertKnowing(s, first, data, last, known);
    ResolvedIsMerged(known, s.pending, Visible(s, first, data, last), keep);
  }

  lemma KeepingIsUnique(s: Asm, first: int, data: seq<byte>, last: bool, keep: set<nat>, t: Asm, u: Asm)
    requires InsertedKeeping(s, first, data, last, keep, t) && InsertedKeeping(s, first, data, last, keep, u)
    ensures t == u
  {
    hide InsertKnowing, Visible;
    var visible := Visible(s, first, data, last);
    var k :| Resolved(k, s.pending, visible, keep) && t == InsertKnowing(s, first, data, last, k);
    var l :| Resolved(l, s.pending, visible, keep) && u == InsertKnowing(s, first, data, last, l);
    assert k == l;
  }

  lemma InsertedAgree(s: Asm, first: int, data: seq<byte>, last: bool, t: Asm)
    requires Inserted(s, first, data, last, t)
    requires Agree(s.pending, Visible(s, first, data, last))
    ensures t == Insert(s, first, data, last)
  {
    var known :| Merged(known, s.pending, Visible(s, first, data, last)) &&
      t == InsertKnowing(s, first, data, last, known);
    MergedAgree(known, s.pending, Visible(s, first, data, last));
  }

  lemma SettleShape(out: Stream, known: map<nat, byte>, end: End)
    requires out.Valid()
    requires forall i <- known :: |out.accepted| <= i < out.Tail()
    ensures var t := Settle(out, known, end); var w, e := |out.accepted|, |t.out.accepted|;
      && e == Run(known, w) && w <= e <= out.Tail() && e !in known
      && out.accepted <= t.out.accepted
      && (forall i: nat | w <= i < e :: i in known && t.out.accepted[i] == known[i])
      && (forall i: nat :: i in t.pending <==> i in known && e <= i)
      && (forall i <- t.pending :: t.pending[i] == known[i])
      && t.out == out.(accepted := t.out.accepted)
      && t.Valid()
  {
    var e := Run(known, |out.accepted|);
    assert e <= out.Tail() by {
      assert out.Tail() !in known;
    }
  }

  /** Settling keeps every known byte, and leaves a gap right after the pushed ones. */
  lemma SettleKeeps(s: Asm, known: map<nat, byte>, t: Asm)
    requires s.out.accepted <= t.out.accepted
    requires var w, e := |s.out.accepted|, |t.out.accepted|;
      && (forall i <- known :: w <= i)
      && (forall i: nat | w <= i < e :: i in known && t.out.accepted[i] == known[i])
      && (forall i: nat :: i in t.pending <==> i in known && e <= i)
      && (forall i <- t.pending :: t.pending[i] == known[i])
      && e !in known
    ensures t.Known() == s.(pending := known).Known()
    ensures |t.out.accepted| == Run(t.Known(), 0)
  {
    var all := s.(pending := known).Known();
    forall i: nat
      ensures i in t.Known() <==> i in all
      ensures i in all ==> t.Known()[i] == all[i]
    {
    }
    RunIs(all, 0, |t.out.accepted|);
  }

  /** Cutting the string at the end of the stream is cutting the window there. */
  lemma VisibleCut(s: Asm, first: int, data: seq<byte>, last: bool)
    ensures var end := Learn(s.end, first, data, last);
      Visible(s, first, data, last) ==
        if end.Unknown? then Clip(first, data, |s.out.accepted|, s.out.Tail())
        else if end.index <= first then map[]
        else Clip(first, data[..Min(|data|, end.index - first)], |s.out.accepted|, s.out.Tail())
    ensures data == [] ==> Visible(s, first, data, last) == map[]
  {
  }

  lemma NoBytes(first: int, data: seq<byte>, lo: nat, hi: int)
    requires first + |data| <= lo || hi <= first
    ensures Clip(first, data, lo, hi) == map[]
  {
  }

  lemma ResolvedNothing(a: map<nat, byte>, keep: set<nat>)
    ensures Resolved(a, a, map[], keep)
  {
  }

  /** What the loop has pushed and left behind is the outcome, once the close that the end asks for is made. */
  lemma SomethingNew(s: Asm, end: End, known: map<nat, byte>, t: Asm)
    requires var settled := Settle(s.out, known, Unknown);
      && t.end == end && t.pending == settled.pending
      && t.out == (if end.At? && end.index <= |settled.out.accepted| then settled.out.(closed := true) else settled.out)
      && (end.At? ==> |s.out.accepted| < end.index)
    ensures t == Outcome(s, end, false, known)
  {
  }

  lemma KnownMerges(s: Asm, known: map<nat, byte>, visible: map<nat, byte>)
    requires s.Valid() && Merged(known, s.pending, visible)
    requires forall i <- visible :: |s.out.accepted| <= i
    ensures Merged(s.(pending := known).Known(), s.Known(), visible)
  {
  }

  /** With nothing new to show no byte changes; the end may be revealed and the stream closed. */
  lemma NothingNew(s: Asm, end: End, atOnce: bool)
    requires s.Valid()
    ensures Outcome(s, end, atOnce, s.pending) == Asm(s.out.(closed := s.out.closed || atOnce), s.pending, end)
  {
  }

  /** An insertion step by step: what is known, up to where it has no gap, and what is left. */
  lemma InsertIs(s: Asm, first: int, data: seq<byte>, last: bool, known: map<nat, byte>, run: seq<byte>,
                 rest: map<nat, byte>)
    requires known == s.pending + Visible(s, first, data, last)
    requires var w := |s.out.accepted|;
      && w + |run| !in known
      && (forall i: nat | w <= i < w + |run| :: i in known && known[i] == run[i - w])
      && (forall i: nat :: i in rest <==> i in known && w + |run| <= i)
      && (forall i <- rest :: rest[i] == known[i])
    ensures var end := Learn(s.end, first, data, last); var w := |s.out.accepted|;
      Insert(s, first, data, last) ==
        Asm(s.out.(accepted := s.out.accepted + run,
                   closed := s.out.closed || ClosesAtOnce(s, first, data, last)
                             || (end.At? && w < end.index <= w + |run|)), rest, end)
  {
    hide Visible, Learn, ClosesAtOnce, Run;
    var w := |s.out.accepted|;
    RunIs(known, w, w + |run|);
    assert Slice(known, w, w + |run|) == run;
    assert (map i | i in known && w + |run| <= i :: known[i]) == rest;
  }

  /** The first substring marked as the last decides where the stream ends; nothing changes that later. */
  lemma EndLearnedOnce(s: Asm, first: int, data: seq<byte>, last: bool, t: Asm)
    requires Inserted(s, first, data, last, t)
    ensures s.end.At? || !last ==> t.end == s.end
    ensures s.end.Unknown? && last ==> t.end == At(first + |data|)
  {
    hide Settle, Visible, Merged;
    var known :| Merged(known, s.pending, Visible(s, first, data, last)) &&
      t == InsertKnowing(s, first, data, last, known);
    EndOf(s.out, known, Learn(s.end, first, data, last));
  }

  lemma EndOf(out: Stream, known: map<nat, byte>, end: End)
    ensures Settle(out, known, end).end == end
  {
    hide Run, Slice;
  }

  /**
   * The meaning of one insertion. Known bytes become old union new cut to the window, the pushed length is the
   * least unknown index, and what was pushed before stays.
   */
  lemma InsertMeaning(s: Asm, first: int, data: seq<byte>, last: bool, t: Asm)
    requires s.Valid() && Inserted(s, first, data, last, t)
    ensures t.Valid()
    ensures Merged(t.Known(), s.Known(), Visible(s, first, data, last))
    ensures |t.out.accepted| == Run(t.Known(), 0)
    ensures s.out.accepted <= t.out.accepted
    ensures t.out.popped == s.out.popped && t.out.capacity == s.out.capacity
  {
    hide Run, Asm.Known, Slice;
    var known :| Merged(known, s.pending, Visible(s, first, data, last)) &&
      t == InsertKnowing(s, first, data, last, known);
    SettleShape(s.out, known, t.end);
    var settled := Settle(s.out, known, t.end);
    assert t == settled.(out := settled.out.(closed := t.out.closed));
    SettleKeeps(s, known, t);
    KnownMerges(s, known, Visible(s, first, data, last));
  }
}
