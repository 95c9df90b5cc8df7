/**
 * The first reassembler, over an ordered map from first index to string, with its own rules for the end of the
 * stream.
 */
module ReassemblerV1 {
  import opened MachineInts
  import opened ByteStreams
  import opened Assembly
  import opened Intervals

  /**
   * Once the end is known, a substring reaching beyond it is dropped whole, and so is one that ends there without being
   * marked as the last.
   */
  predicate Refuses(s: Asm, first: int, data: seq<byte>, last: bool) {
    s.end.At? && (s.end.index < first + |data| || (s.end.index == first + |data| && !last))
  }

  /** Nothing is pending at or beyond the end that is, or becomes, known. */
  ghost predicate EndFits(s: Asm, first: int, data: seq<byte>, last: bool) {
    var end := Learn(s.end, first, data, last);
    end.At? ==> forall i <- s.pending :: i < end.index
  }

  /**
   * What a substring does in every case: nothing if it is refused. Otherwise the known bytes become old and new ones,
   * some of them are pushed in order, and pushing stops at a gap, or behind a string that reaches the end of the
   * stream, which is then closed.
   */
  ghost predicate Absorbed(s: Asm, first: int, data: seq<byte>, last: bool, atOnce: bool, keep: set<nat>, t: Asm) {
    if Refuses(s, first, data, last) then t == s
    else
      && t.end == Learn(s.end, first, data, last)
      && (exists known ::
            && Resolved(known, s.pending, Visible(s, first, data, last), keep)
            && Drained(s.out, known, t.out.(closed := s.out.closed), t.pending))
      && (|t.out.accepted| in t.pending ==> t.out.closed && t.end.At? && t.end.index <= |t.out.accepted|)
      && (t.out.closed ==> s.out.closed || atOnce || (t.end.At? && t.end.index <= |t.out.accepted|))
      && (t.end.At? && |s.out.accepted| < t.end.index <= |t.out.accepted| ==> t.out.closed)
  }

  lemma AbsorbedBy(s: Asm, first: int, data: seq<byte>, last: bool, atOnce: bool, keep: set<nat>, known: map<nat, byte>,
                   t: Asm)
    requires !Refuses(s, first, data, last) && t.end == Learn(s.end, first, data, last)
    requires Resolved(known, s.pending, Visible(s, first, data, last), keep)
    requires Drained(s.out, known, t.out.(closed := s.out.closed), t.pending)
    requires |t.out.accepted| in t.pending ==> t.out.closed && t.end.At? && t.end.index <= |t.out.accepted|
    requires t.out.closed ==> s.out.closed || atOnce || (t.end.At? && t.end.index <= |t.out.accepted|)
    requires t.end.At? && |s.out.accepted| < t.end.index <= |t.out.accepted| ==> t.out.closed
    ensures Absorbed(s, first, data, last, atOnce, keep, t)
  {
  }

  /** The state after a substring that does not contradict the end; `atOnce` closes it when learned. */
  ghost predicate Taken(s: Asm, first: int, data: seq<byte>, last: bool, atOnce: bool, keep: set<nat>, t: Asm) {
    if Refuses(s, first, data, last) then t == s
    else exists known ::
      && Resolved(known, s.pending, Visible(s, first, data, last), keep)
      && t == Outcome(s, Learn(s.end, first, data, last), atOnce, known)
  }

  lemma TakenBy(s: Asm, first: int, data: seq<byte>, last: bool, atOnce: bool, keep: set<nat>, known: map<nat, byte>,
                t: Asm)
    requires !Refuses(s, first, data, last)
    requires Resolved(known, s.pending, Visible(s, first, data, last), keep)
    requires t == Outcome(s, Learn(s.end, first, data, last), atOnce, known)
    ensures Taken(s, first, data, last, atOnce, keep, t)
  {
  }

  lemma RefusedTaken(s: Asm, first: int, data: seq<byte>, last: bool, atOnce: bool, keep: set<nat>)
    requires Refuses(s, first, data, last)
    ensures Taken(s, first, data, last, atOnce, keep, s) && Absorbed(s, first, data, last, atOnce, keep, s)
  {
  }

  /** What is not refused need not be cut at the end of the stream. */
  lemma VisibleWhole(s: Asm, first: int, data: seq<byte>, last: bool)
    requires !Refuses(s, first, data, last)
    ensures Visible(s, first, data, last) == Clip(first, data, |s.out.accepted|, s.out.Tail())
  {
  }

  lemma KnownFits(s: Asm, first: int, data: seq<byte>, last: bool, keep: set<nat>, known: map<nat, byte>)
    requires EndFits(s, first, data, last) && Resolved(known, s.pending, Visible(s, first, data, last), keep)
    ensures var end := Learn(s.end, first, data, last); end.At? ==> forall i <- known :: i < end.index
  {
  }

  lemma DrainedOpen(out0: Stream, known: map<nat, byte>, out: Stream, pending: map<nat, byte>)
    requires Drained(out0, known, out, pending)
    ensures out.closed == out0.closed
  {
  }

  /** The state after the loop, whether it found a gap or closed the stream. */
  lemma AfterLoop(s: Asm, end: End, known: map<nat, byte>, drained: Stream, pending: map<nat, byte>, reached: bool)
    requires Drained(s.out, known, drained, pending)
    requires end.At? ==> |s.out.accepted| < end.index && forall i <- known :: i < end.index
    requires reached <==> end.At? && end.index <= |drained.accepted|
    requires !reached ==> |drained.accepted| !in pending
    ensures |drained.accepted| !in pending && (end.At? ==> forall i <- pending :: i < end.index)
    ensures Outcome(s, end, false, known) == Asm(drained.(closed := drained.closed || reached), pending, end)
  {
    hide Settle, Outcome;
    DrainedIsSettled(s.out, known, drained, pending);
    SomethingNew(s, end, known, Asm(drained.(closed := drained.closed || reached), pending, end));
  }

  /** A substring that misses the window. */
  lemma Missed(s: Asm, first: int, data: seq<byte>, last: bool, atOnce: bool, keep: set<nat>, t: Asm)
    requires !Refuses(s, first, data, last) && Visible(s, first, data, last) == map[]
    requires t == Asm(s.out.(closed := s.out.closed || atOnce), s.pending, Learn(s.end, first, data, last))
    requires Drained(s.out, s.pending, s.out, s.pending)
    requires |s.out.accepted| in s.pending ==> s.out.closed && s.end.At? && s.end.index <= |s.out.accepted|
    ensures Absorbed(s, first, data, last, atOnce, keep, t)
    ensures s.Valid() ==> Taken(s, first, data, last, atOnce, keep, t)
    ensures EndFits(s, first, data, last) ==> EndFits(t, 0, [], false)
  {
    hide Visible, Outcome, Drained;
    ResolvedNothing(s.pending, keep);
    assert t.out.(closed := s.out.closed) == s.out;
    if s.Valid() {
      NothingNew(s, t.end, atOnce);
      TakenBy(s, first, data, last, atOnce, keep, s.pending, t);
    }
  }

  /** A substring that reaches beyond what has been pushed, after the loop. */
  lemma Wrote(s: Asm, first: int, data: seq<byte>, last: bool, keep: set<nat>, known: map<nat, byte>, t: Asm,
              reached: bool)
    requires !Refuses(s, first, data, last) && |s.out.accepted| < first + |data| &&
      t.end == Learn(s.end, first, data, last)
    requires Resolved(known, s.pending, Visible(s, first, data, last), keep)
    requires Drained(s.out, known, t.out.(closed := s.out.closed), t.pending) &&
      t.out.closed == (s.out.closed || reached)
    requires reached ==> t.end.At? && t.end.index <= |t.out.accepted|
    requires !reached ==> |t.out.accepted| !in t.pending
    requires !reached && t.end.At? && |s.out.accepted| < t.end.index ==> |t.out.accepted| < t.end.index
    ensures Absorbed(s, first, data, last, false, keep, t)
    ensures EndFits(s, first, data, last) ==>
      && |t.out.accepted| !in t.pending && EndFits(t, 0, [], false)
      && Taken(s, first, data, last, false, keep, t)
  {
    hide Visible, Outcome, Drained, Resolved, Taken, Absorbed;
    AbsorbedBy(s, first, data, last, false, keep, known, t);
    if EndFits(s, first, data, last) {
      KnownFits(s, first, data, last, keep, known);
      AfterLoop(s, t.end, known, t.out.(closed := s.out.closed), t.pending, reached);
      TakenBy(s, first, data, last, false, keep, known, t);
    }
  }

  /** For non-empty substrings that are not refused, the rules of both versions agree on the end. */
  lemma TakenIsInserted(s: Asm, first: int, data: seq<byte>, last: bool, keep: set<nat>, t: Asm)
    requires Taken(s, first, data, last, false, keep, t) && !Refuses(s, first, data, last)
    requires data != [] || Learn(s.end, first, data, last).Unknown?
    ensures InsertedKeeping(s, first, data, last, keep, t) && Inserted(s, first, data, last, t)
  {
    hide Visible, Outcome;
    KeepingIsInserted(s, first, data, last, keep, t);
  }

  class Reassembler {
    const output: ByteStream
    var waitingIndex: int
    var endWindowIndex: int
    var size: int
    var cache: Cache
    // The first and the end index of the last substring, or -1.
    var closedFirst: int
    var closedSecond: int
    // The greatest end of all substrings so far.
    ghost var reach: nat

    ghost predicate CacheValid()
      reads this
    {
      Ordered(cache) && size == Total(cache)
    }

    /** A cached byte can be at the awaited index only if the loop has left it there when it closed the stream. */
    ghost predicate Valid()
      reads this, output
    {
      && output.Valid()
      && CacheValid()
      && waitingIndex == output.bytesPushed
      && Within(cache, waitingIndex, Min(output.State().Tail(), reach))
      && (closedFirst == -1 && cache != [] ==> cache[0].first != waitingIndex)
      && (waitingIndex in Bytes(cache) ==> output.closed && closedFirst != -1 && closedSecond <= waitingIndex)
    }

    /** No two substrings so far have contradicted each other about the end. */
    ghost predicate Settled()
      reads this, output
    {
      waitingIndex !in Bytes(cache) && EndFits(State(), 0, [], false)
    }

    ghost function State(): Asm
      reads this, output
    {
      Asm(output.State(), Bytes(cache), if closedFirst == -1 then Unknown else At(closedSecond))
    }

    /** Over a stream that has been written to before, the awaited index is wrong from the start. */
    constructor (output: ByteStream)
      requires output.Valid()
      ensures this.output == output && (Valid() <==> output.accepted == []) && Settled() && reach == 0
      ensures State() == Asm(output.State(), map[], Unknown)
    {
      this.output := output;
      waitingIndex, endWindowIndex := 0, output.AvailableCapacity();
      size, cache := 0, [];
      closedFirst, closedSecond := -1, -1;
      reach := 0;
    }

    lemma OutputState()
      requires Valid() && Settled()
      ensures State().out == output.State() && State().Valid()
    {
      hide Bytes, Within;
      CacheWithin();
      BytesWithin(cache, waitingIndex, output.State().Tail());
    }

    lemma CacheWithin()
      requires Valid()
      ensures Within(cache, waitingIndex, output.State().Tail())
    {
      WithinMore(cache, waitingIndex, Min(output.State().Tail(), reach), output.State().Tail());
    }

    /** The number of distinct indices that are known but not yet pushed. */
    function BytesPending(): (n: int)
      requires Valid()
      reads this, output
      ensures n == |State().pending|
    {
      TotalCounts(cache);
      size
    }

    /** Cuts a string to the window and merges it into the cache. */
    method CutCacheIn(first0: nat, data0: seq<byte>, ghost hi: nat)
      requires 0 <= waitingIndex <= endWindowIndex
      requires CacheValid() && Within(cache, waitingIndex, hi) && Min(first0 + |data0|, endWindowIndex) <= hi
      requires waitingIndex < first0 + |data0| && first0 < endWindowIndex
      modifies this`cache, this`size
      ensures CacheValid() && Within(cache, waitingIndex, hi)
      ensures Resolved(Bytes(cache), old(Bytes(cache)), Clip(first0, data0, waitingIndex, endWindowIndex),
                       KeptByFirst(old(cache), Max(first0, waitingIndex), Min(first0 + |data0|, endWindowIndex)))
    {
      hide Ordered, Resolved, Within, Total, MapAssign, Walking, Bytes, Entry.Bytes, Covers, Clip, KeptByFirst, NewWins;
      var first: nat, data := first0, data0;
      if first < waitingIndex {
        data := data[waitingIndex - first..];
        first := waitingIndex;
      }
      if first + |data| > endWindowIndex {
        data := data[..endWindowIndex - first];
      }
      CutToWindow(first0, data0, waitingIndex, endWindowIndex, first, data);
      ghost var keep := KeptByFirst(cache, first, first + |data|);
      ghost var w := WalkStart(cache, Entry(first, first + |data|, data), keep, waitingIndex, hi);
      ghost var w0 := w;
      var it := 0;
      while it < |cache|
        invariant 0 <= first && it <= |cache|
        invariant Walking(w, cache, it, size, Entry(first, first + |data|, data))
        invariant SameWalk(w0, w)
        decreases |w.right| - w.passed
      {
        var curFirst := cache[it].first;
        var curEnd := cache[it].first + |cache[it].data|;
        ghost var x, cur := Entry(first, first + |data|, data), cache[it];
        WalkAt(w, cache, it, size, x);
        if curFirst <= first && first + |data| <= curEnd {
          WalkContained(w, cache, it, size, x);
          return;
        }
        WinsInFirst(w, cache, it, size, x);
        if curFirst <= first && first < curEnd && curEnd <= first + |data| {
          ghost var y := JoinsLeft(cur, x, keep);
          w := WalkTake(w, cache, it, size, x, y);
          data := cache[it].data[..first - curFirst] + data;
          first := cache[it].first;
          size := size - |cache[it].data|;
          cache := cache[..it] + cache[it + 1..];
        } else if first <= curFirst && curFirst < first + |data| && first + |data| <= curEnd {
          ghost var y := JoinsRight(cur, x, keep);
          w := WalkTake(w, cache, it, size, x, y);
          data := data + cache[it].data[|cache[it].data| - (curEnd - (first + |data|))..];
          size := size - |cache[it].data|;
          cache := cache[..it] + cache[it + 1..];
        } else if first < curFirst && curEnd < first + |data| {
          SwallowsAll(cur, x, keep);
          w := WalkTake(w, cache, it, size, x, x);
          size := size - |cache[it].data|;
          cache := cache[..it] + cache[it + 1..];
        } else if first == curEnd {
          w := WalkOver(w, cache, it, size, x);
          it := it + 1;
          continue;
        } else if first + |data| == curFirst {
          break;
        } else {
          w := WalkOver(w, cache, it, size, x);
          it := it + 1;
        }
      }
      assert w.lo == waitingIndex && w.hi == hi && w.all == old(cache) && w.keep == keep;
      WalkEnd(w, cache, it, size, Entry(first, first + |data|, data));
      cache := MapAssign(cache, Entry(first, first + |data|, data));
      size := size + |data|;
    }

    /** Which contradicted bytes stay: those of strings that contain the new one. */
    ghost function Keeps(first: int, data: seq<byte>): set<nat>
      reads this, output
    {
      KeptByFirst(cache, Max(first, |State().out.accepted|), Min(first + |data|, State().out.Tail()))
    }

    /** Drops a substring because of the end of the stream, or learns that end. */
    method EndOfStream(first: u64, data: seq<byte>, last: bool) returns (refused: bool)
      requires Valid() && first + |data| < TWO64 && (last || State().end.At? ==> first + |data| < TWO63)
      modifies this`closedFirst, this`closedSecond, output`closed
      ensures refused <==> Refuses(old(State()), first, data, last)
      ensures State() == if refused then old(State()) else
        old(State()).(end := Learn(old(State()).end, first, data, last),
                      out := old(State()).out.(closed := old(output.closed) || old(AtOnce(first, data, last))))
      ensures output.Valid() && (old(closedFirst) != -1 || !last ==> output.closed == old(output.closed))
      ensures old(closedFirst) == -1 && last ==>
        output.closed == (old(output.closed) || (cache == [] && data == [] && first == waitingIndex))
    {
      if closedFirst != -1 && closedSecond < Signed64(Add64(first, |data|)) {
        return true;
      }
      if closedFirst != -1 && Signed64(Add64(first, |data|)) == closedSecond && !last {
        return true;
      }
      if closedFirst == -1 && last {
        closedFirst, closedSecond := first, first + |data|;
        if cache == [] && first == waitingIndex && |data| == 0 {
          output.Close();
        }
      }
      return false;
    }

    /** An empty last substring at the awaited index closes the stream at once, if the map is empty. */
    predicate AtOnce(first: int, data: seq<byte>, last: bool)
      reads this
    {
      closedFirst == -1 && last && cache == [] && first == waitingIndex && data == []
    }

    /**
     * Accepts a substring, pushing everything that has become contiguous. When an end is learned that has been reached
     * already, the stream is closed for an empty substring at the awaited index with nothing cached, and for no other.
     */
    method Insert(first: u64, data: seq<byte>, last: bool)
      requires Valid() && first + |data| < TWO64 && (last || State().end.At? ==> first + |data| < TWO63)
      modifies this, output
      ensures Valid()
      ensures var atOnce, keep := old(AtOnce(first, data, last)), old(Keeps(first, data));
        && Absorbed(old(State()), first, data, last, atOnce, keep, State())
        && (old(Settled()) && EndFits(old(State()), first, data, last) ==>
              Settled() && Taken(old(State()), first, data, last, atOnce, keep, State()))
      ensures old(State()).end.Unknown? && last && first + |data| <= |old(State()).out.accepted| ==>
        output.closed ==
          (old(output.closed) || (old(cache) == [] && data == [] && first == |old(State()).out.accepted|))
      ensures reach == Max(old(reach), first + |data|)
    {
      hide Ordered, Within, Resolved, Bytes, Total, Settle, Outcome, Visible, Clip, Entry.Bytes, Drained, KeptByFirst,
        Taken, Absorbed, EndFits, ByteStream.Valid, ByteStream.State, Stream.Valid;
      Where();
      ghost var s, keep, atOnce := State(), Keeps(first, data), AtOnce(first, data, last);
      ghost var end := Learn(s.end, first, data, last);
      if Settled() {
        OutputState();
      }
      ghost var hi := Min(s.out.Tail(), Max(reach, first + |data|));
      WithinMore(cache, waitingIndex, Min(s.out.Tail(), reach), hi);
      reach := Max(reach, first + |data|);
      DrainStart(s.out, cache, waitingIndex, hi);
      var refused := EndOfStream(first, data, last);
      if refused {
        RefusedTaken(s, first, data, last, atOnce, keep);
        return;
      }
      CacheAndPush(first, data, last, s, atOnce, keep, hi);
    }

    /**
     * The part of `Insert` behind the rules for the end: `s` is the state before it, which the end has already
     * changed.
     */
    method CacheAndPush(first: nat, data: seq<byte>, last: bool, ghost s: Asm, ghost atOnce: bool, ghost keep: set<nat>,
                        ghost hi: nat)
      requires !Refuses(s, first, data, last) && Drained(s.out, s.pending, s.out, s.pending)
      requires State() == s.(end := Learn(s.end, first, data, last), out := s.out.(closed := s.out.closed || atOnce))
      requires atOnce ==> first + |data| <= waitingIndex
      requires |s.out.accepted| in s.pending ==> s.out.closed && s.end.At? && s.end.index <= |s.out.accepted|
      requires closedFirst == -1 && cache != [] ==> cache[0].first != waitingIndex
      requires keep == Keeps(first, data)
      requires output.Valid() && CacheValid() && waitingIndex == output.bytesPushed
      requires Within(cache, waitingIndex, hi)
      requires Min(first + |data|, output.State().Tail()) <= hi <= output.State().Tail()
      modifies output, this`endWindowIndex, this`waitingIndex, this`size, this`cache
      ensures output.Valid() && CacheValid() && waitingIndex == output.bytesPushed && Within(cache, waitingIndex, hi)
      ensures output.State().Tail() == old(output.State().Tail())
      ensures closedFirst == -1 && cache != [] ==> cache[0].first != waitingIndex
      ensures Absorbed(s, first, data, last, atOnce, keep, State())
      ensures first + |data| <= old(waitingIndex) ==> output.closed == old(output.closed)
      ensures EndFits(s, first, data, last) && s.Valid() ==>
        && waitingIndex !in Bytes(cache) && EndFits(State(), 0, [], false)
        && Taken(s, first, data, last, atOnce, keep, State())
      ensures waitingIndex in Bytes(cache) ==> output.closed && closedFirst != -1 && closedSecond <= waitingIndex
    {
      hide Ordered, Within, Resolved, Bytes, Total, Settle, Outcome, Visible, Clip, Entry.Bytes, Drained, KeptByFirst,
        Taken, Absorbed, EndFits, ByteStream.Valid, ByteStream.State, Stream.Valid;
      Where();
      VisibleWhole(s, first, data, last);
      endWindowIndex := waitingIndex + output.AvailableCapacity();
      if first >= endWindowIndex || first + |data| <= waitingIndex {
        NoBytes(first, data, waitingIndex, endWindowIndex);
        Missed(s, first, data, last, atOnce, keep, State());
        return;
      }
      CutCacheIn(first, data, hi);
      ghost var known := Bytes(cache);
      var reached := WriteOut(hi);
      Where();
      Wrote(s, first, data, last, keep, known, State(), reached);
    }

    lemma Where()
      requires output.Valid() && waitingIndex == output.bytesPushed
      ensures |output.State().accepted| == waitingIndex <= output.State().Tail()
      ensures output.State().closed == output.closed
    {
    }

    /** Pushes cached strings while the first one starts at the awaited index, and closes the stream at its end. */
    method WriteOut(ghost hi: nat) returns (reached: bool)
      requires output.Valid() && CacheValid() && hi <= output.State().Tail()
      requires waitingIndex == output.bytesPushed && Within(cache, waitingIndex, hi)
      modifies output, this`waitingIndex, this`size, this`cache
      ensures output.Valid() && CacheValid()
      ensures waitingIndex == output.bytesPushed && Within(cache, waitingIndex, hi)
      ensures output.State().Tail() == old(output.State().Tail())
      ensures Drained(old(output.State()), old(Bytes(cache)), output.State().(closed := old(output.closed)),
        Bytes(cache))
      ensures output.closed == (old(output.closed) || reached)
      ensures reached ==> closedFirst != -1 && closedSecond <= waitingIndex
      ensures !reached ==> waitingIndex !in Bytes(cache) && (cache != [] ==> cache[0].first != waitingIndex)
      ensures !reached && closedFirst != -1 && old(waitingIndex) < closedSecond ==> waitingIndex < closedSecond
    {
      hide Ordered, Within, Bytes, Total, Drained;
      ghost var out0, known := output.State(), Bytes(cache);
      DrainStart(out0, cache, waitingIndex, hi);
      while cache != [] && cache[0].first == waitingIndex
        invariant output.Valid() && CacheValid()
        invariant waitingIndex == output.bytesPushed && output.bytesPopped == out0.popped
        invariant Within(cache, waitingIndex, hi)
        invariant Drained(out0, known, output.State(), Bytes(cache))
        invariant closedFirst != -1 && old(waitingIndex) < closedSecond ==> waitingIndex < closedSecond
        decreases |cache|
      {
        var curFirst := cache[0].first;
        ghost var before := output.State();
        HeadFirst(cache, waitingIndex, hi);
        DrainOne(out0, known, before, cache);
        output.Push(cache[0].data);
        assert output.State() == before.(accepted := before.accepted + cache[0].data);
        waitingIndex := curFirst + |cache[0].data|;
        size := size - |cache[0].data|;
        cache := cache[1..];
        if closedFirst != -1 && closedSecond <= waitingIndex {
          DrainedOpen(out0, known, output.State(), Bytes(cache));
          output.Close();
          return true;
        }
      }
      NothingAwaited(cache, waitingIndex, hi);
      DrainedOpen(out0, known, output.State(), Bytes(cache));
      return false;
    }

    /** The reader removes bytes from the output; the window moves with it. */
    method Read(n: nat)
      requires Valid()
      modifies output
      ensures Valid() && State() == Pop(old(State()), n)
    {
      output.Pop(n);
    }
  }
}
