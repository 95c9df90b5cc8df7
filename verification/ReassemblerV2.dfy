/** The second reassembler: an end-of-stream filter, a window filter, an interval cache and a writer in a row. */
module ReassemblerV2 {
  import opened MachineInts
  import opened ByteStreams
  import opened Assembly
  import opened Intervals

  lemma Concluded(s: Asm, first: int, data: seq<byte>, last: bool, keep: set<nat>, known: map<nat, byte>, t: Asm)
    requires Resolved(known, s.pending, Visible(s, first, data, last), keep) &&
      t == InsertKnowing(s, first, data, last, known)
    ensures InsertedKeeping(s, first, data, last, keep, t) && Inserted(s, first, data, last, t)
  {
    hide Resolved, Visible, InsertKnowing;
    KeepingIsInserted(s, first, data, last, keep, t);
  }

  class Reassembler {
    const output: ByteStream
    var waitingIndex: int
    var tailIndex: int
    var eofFirstIndex: int
    var eofEndIndex: int
    var isInit: bool
    var size: int
    var cache: Cache

    ghost predicate CacheValid()
      reads this
    {
      Ordered(cache) && size == Total(cache)
    }

    ghost predicate Valid()
      reads this, output
    {
      && output.Valid()
      && CacheValid()
      && waitingIndex == output.bytesPushed
      && Within(cache, waitingIndex, output.State().Tail())
      && (cache != [] ==> waitingIndex < cache[0].first)
      && -TWO63 <= eofEndIndex < TWO63
    }

    ghost function State(): Asm
      reads this, output
    {
      Asm(output.State(), Bytes(cache), if isInit then At(eofEndIndex) else Unknown)
    }

    /** Over a stream that has been written to before, the awaited index is wrong from the start. */
    constructor (output: ByteStream)
      requires output.Valid()
      ensures this.output == output && (Valid() <==> output.accepted == [])
      ensures State() == Asm(output.State(), map[], Unknown)
    {
      this.output := output;
      waitingIndex, tailIndex := 0, output.AvailableCapacity();
      eofFirstIndex, eofEndIndex, isInit := -1, -1, false;
      size, cache := 0, [];
    }

    lemma OutputState()
      requires Valid()
      ensures State().out == output.State() && State().Valid()
    {
      hide Ordered, Within, Bytes;
      KeysWithin(cache, waitingIndex, output.State().Tail());
    }

    function BytesPushed(): (n: int)
      requires Valid()
      reads this, output
      ensures n == |State().out.accepted|
    {
      output.bytesPushed
    }

    /** The number of distinct indices that are known but not yet pushed. */
    function BytesPending(): (n: int)
      requires Valid()
      reads this, output
      ensures n == |State().pending|
    {
      TotalCounts(cache);
      size
    }

    /** Cuts a substring to the window, or reports that it misses the window. */
    method WindowFilter(first: u64, data: seq<byte>) returns (hit: bool, firstRet: nat, dataRet: seq<byte>)
      requires 0 <= waitingIndex <= tailIndex < TWO63
      requires |data| < TWO63 && Signed64(first) + |data| < TWO63
      ensures hit ==> firstRet == Max(Signed64(first), waitingIndex)
      ensures hit ==> firstRet + |dataRet| == Min(Signed64(first) + |data|, tailIndex)
      ensures hit ==>
        Entry(firstRet, firstRet + |dataRet|, dataRet).Bytes() == Clip(Signed64(first), data, waitingIndex, tailIndex)
      ensures hit ==> if data == [] then waitingIndex <= Signed64(first) else waitingIndex < Signed64(first) + |data|
      ensures !hit ==> Clip(Signed64(first), data, waitingIndex, tailIndex) == map[]
    {
      hide Clip, Entry.Bytes, Add64, Sub64;
      SignedSum(first, |data|);
      var endIndex := Add64(first, |data|);
      firstRet, dataRet := first, data;
      if dataRet != [] && (tailIndex <= Signed64(firstRet) || Signed64(Add64(firstRet, |dataRet|)) <= waitingIndex) {
        NoBytes(Signed64(first), data, waitingIndex, tailIndex);
        return false, firstRet, dataRet;
      } else if dataRet == []
        && (tailIndex <= Signed64(firstRet) || Signed64(Add64(firstRet, |dataRet|)) < waitingIndex) {
        NoBytes(Signed64(first), data, waitingIndex, tailIndex);
        return false, firstRet, dataRet;
      }
      if waitingIndex <= Signed64(firstRet) && Signed64(endIndex) <= tailIndex {
        CutToWindow(Signed64(first), data, waitingIndex, tailIndex, firstRet, dataRet);
        return true, firstRet, dataRet;
      }
      if Signed64(firstRet) < waitingIndex {
        SignedGap(waitingIndex, firstRet);
        dataRet := dataRet[Sub64(waitingIndex, firstRet)..];
        firstRet := waitingIndex;
      }
      SignedSum(firstRet, |dataRet|);
      if tailIndex < Signed64(Add64(firstRet, |dataRet|)) {
        SignedGap(tailIndex, firstRet);
        dataRet := dataRet[..Sub64(tailIndex, firstRet)];
      }
      CutToWindow(Signed64(first), data, waitingIndex, tailIndex, firstRet, dataRet);
      return true, firstRet, dataRet;
    }

    /** Learns the end of the stream, and cuts a substring that reaches past it. */
    method EndFilter(first: u64, data: seq<byte>, last: bool) returns (pass: bool, firstRet: u64, dataRet: seq<byte>)
      requires output.Valid()
      requires |data| < TWO63 && Signed64(first) + |data| < TWO63
      requires -TWO63 <= eofEndIndex < TWO63
      modifies this`eofFirstIndex, this`eofEndIndex, this`isInit, output`closed
      ensures output.Valid() && -TWO63 <= eofEndIndex < TWO63
      ensures (if isInit then At(eofEndIndex) else Unknown)
           == Learn(if old(isInit) then At(old(eofEndIndex)) else Unknown, Signed64(first), data, last)
      ensures output.closed == (old(output.closed) || (isInit && data == [] && size == 0))
      ensures pass <==> !isInit || (!(data == [] && size == 0) && Signed64(first) < eofEndIndex)
      ensures firstRet == first
      ensures pass ==> dataRet == if isInit then data[..Min(|data|, eofEndIndex - Signed64(first))] else data
    {
      firstRet, dataRet := first, data;
      if !isInit && !last {
        return true, firstRet, dataRet;
      }
      if !isInit && last {
        isInit, eofFirstIndex, eofEndIndex := true, Signed64(firstRet), Signed64(Add64(firstRet, |data|));
      }
      if |data| == 0 && size == 0 {
        output.Close();
        return false, firstRet, dataRet;
      }
      if eofEndIndex <= Signed64(firstRet) {
        return false, firstRet, dataRet;
      }
      if eofEndIndex < Signed64(Add64(firstRet, |dataRet|)) {
        dataRet := dataRet[..Sub64(Unsigned64(eofEndIndex), firstRet)];
      }
      return true, firstRet, dataRet;
    }

    /** Merges a string into the cache; the overlap cases are tried in the order of the six branches below. */
    method CacheIn(first0: nat, data0: seq<byte>, ghost lo: nat, ghost hi: nat) returns (stored: bool)
      requires CacheValid() && Within(cache, lo, hi)
      requires lo <= first0 && first0 + |data0| <= hi
      modifies this`cache, this`size
      ensures CacheValid() && Within(cache, lo, hi)
      ensures Resolved(Bytes(cache), old(Bytes(cache)), Entry(first0, first0 + |data0|, data0).Bytes(),
                       KeptBySecond(old(cache), first0, first0 + |data0|))
      ensures !stored ==> cache == old(cache)
    {
      // The lemmas of Intervals carry the reasoning about whole caches; their definitions stay folded here.
      hide Ordered, Resolved, Within, Total, SetInsert, Walking, Bytes, Entry.Bytes, Covers, Clip, KeptBySecond,
        NewWins;
      var first, data := first0, data0;
      var endIndex := first + |data|;
      var it := 0;
      ghost var keep := KeptBySecond(cache, first, endIndex);
      ghost var w := WalkStart(cache, Entry(first, endIndex, data), keep, lo, hi);
      ghost var w0 := w;
      while it < |cache|
        invariant 0 <= first && endIndex == first + |data| && it <= |cache|
        invariant Walking(w, cache, it, size, Entry(first, endIndex, data))
        invariant SameWalk(w0, w) && w.stale == []
        decreases |w.right| - w.passed
      {
        var cur := cache[it];
        ghost var x := Entry(first, endIndex, data);
        WalkAt(w, cache, it, size, x);
        if cur.first <= first && endIndex <= cur.end {
          WalkContained(w, cache, it, size, x);
          return false;
        } else if first <= cur.first && cur.end <= endIndex {
          WinsInSecond(w, cache, it, size, x);
          SwallowsAll(cur, x, keep);
          w := WalkTake(w, cache, it, size, x, x);
          size := size - |cur.data|;
          cache := cache[..it] + cache[it + 1..];
        } else if first < cur.first && cur.first < endIndex && endIndex < cur.end {
          WinsInSecond(w, cache, it, size, x);
          ghost var y := SwallowsRight(cur, x, keep);
          w := WalkTake(w, cache, it, size, x, y);
          data := data + cur.data[endIndex - cur.first..];
          endIndex := first + |data|;
          size := size - |cur.data|;
          cache := cache[..it] + cache[it + 1..];
          break;
        } else if cur.first < first && first < cur.end && cur.end < endIndex {
          LosesInSecond(w, cache, it, size, x);
          ghost var y := SwallowsLeft(cur, x, keep);
          w := WalkTake(w, cache, it, size, x, y);
          data := cur.data + data[cur.end - first..];
          first := cur.first;
          size := size - |cur.data|;
          cache := cache[..it] + cache[it + 1..];
        } else if endIndex <= cur.first {
          break;
        } else {
          w := WalkOver(w, cache, it, size, x);
          it := it + 1;
        }
      }
      WalkEnd(w, cache, it, size, Entry(first, endIndex, data));
      cache := SetInsert(cache, Entry(first, endIndex, data));
      size := size + |data|;
      return true;
    }

    /** Pushes cached strings while the first one starts at the awaited index. */
    method Write()
      requires output.Valid() && CacheValid()
      requires waitingIndex == output.bytesPushed
      requires Within(cache, waitingIndex, output.State().Tail())
      modifies output, this`waitingIndex, this`size, this`cache
      ensures old(-TWO63 <= eofEndIndex < TWO63) ==> Valid()
      ensures output.State().Tail() == old(output.State().Tail())
      ensures var settled := Settle(old(output.State()), old(Bytes(cache)), Unknown);
        output.State() == settled.out && Bytes(cache) == settled.pending
    {
      hide Ordered, Within, Drained, Settle, Bytes, Total;
      ghost var out0, known := output.State(), Bytes(cache);
      DrainStart(out0, cache, waitingIndex, out0.Tail());
      while cache != []
        invariant output.Valid() && CacheValid()
        invariant waitingIndex == output.bytesPushed && output.bytesPopped == out0.popped
        invariant Within(cache, waitingIndex, out0.Tail())
        invariant Drained(out0, known, output.State(), Bytes(cache))
        decreases |cache|
      {
        if cache[0].first != waitingIndex {
          break;
        }
        var avail := output.AvailableCapacity();
        var curLen := |cache[0].data|;
        var pushStr := cache[0].data[..if avail > curLen then curLen else avail];
        var leaveStr := cache[0].data[if avail > curLen then curLen else avail..];
        ghost var before := output.State();
        HeadFirst(cache, waitingIndex, out0.Tail());
        DrainOne(out0, known, before, cache);
        output.Push(pushStr);
        assert output.State() == before.(accepted := before.accepted + cache[0].data);
        size := size - |cache[0].data|;
        waitingIndex := waitingIndex + |pushStr|;
        cache := cache[1..];
        if leaveStr != [] {
          // Every cached string lies below the tail of the window, so all of it fits.
          assert false;
        }
      }
      NothingAwaited(cache, waitingIndex, out0.Tail());
      DrainedIsSettled(out0, known, output.State(), Bytes(cache));
    }

    /**
     * Which contradicted bytes stay: those of strings that start before the new one, or at the same index and cover
     * it.
     */
    ghost function Keeps(first: int, data: seq<byte>, last: bool): set<nat>
      reads this, output
    {
      KeptBySecond(cache, Max(first, |State().out.accepted|), Min(first + |data|, Limit(State(), first, data, last)))
    }

    /** The two filters in a row: what is left of a substring, if anything can be. */
    method Admit(first: u64, data: seq<byte>, last: bool) returns (hit: bool, firstRet: nat, dataRet: seq<byte>)
      requires Valid() && waitingIndex <= tailIndex == output.State().Tail() < TWO63
      requires |data| < TWO63 && Signed64(first) + |data| < TWO63
      modifies this`eofFirstIndex, this`eofEndIndex, this`isInit, output`closed
      ensures output.Valid() && -TWO63 <= eofEndIndex < TWO63
      ensures (if isInit then At(eofEndIndex) else Unknown) == Learn(old(State().end), Signed64(first), data, last)
      ensures hit ==> waitingIndex <= firstRet && firstRet + |dataRet| <= tailIndex
      ensures hit ==> KeptBySecond(cache, firstRet, firstRet + |dataRet|) == old(Keeps(Signed64(first), data, last))
      ensures hit ==>
        Entry(firstRet, firstRet + |dataRet|, dataRet).Bytes() == Visible(old(State()), Signed64(first), data, last)
      ensures hit ==> !(data == [] && isInit && size == 0) && (isInit ==> waitingIndex < eofEndIndex)
      ensures !hit ==> Visible(old(State()), Signed64(first), data, last) == map[]
      ensures output.closed == (old(output.closed) || (data == [] && isInit && size == 0))
    {
      hide Visible, Clip, Entry.Bytes, Bytes, Ordered, Within, Total, KeptBySecond;
      VisibleCut(State(), Signed64(first), data, last);
      var pass, first1, data1 := EndFilter(first, data, last);
      if !pass {
        return false, 0, [];
      }
      hit, firstRet, dataRet := WindowFilter(first1, data1);
    }

    /** Filters a substring and merges what is left of it into the cache. */
    method Absorb(first: u64, data: seq<byte>, last: bool) returns (stored: bool)
      requires Valid() && waitingIndex <= tailIndex == output.State().Tail() < TWO63
      requires |data| < TWO63 && Signed64(first) + |data| < TWO63
      modifies this`eofFirstIndex, this`eofEndIndex, this`isInit, this`cache, this`size, output`closed
      ensures output.Valid() && CacheValid() && Within(cache, waitingIndex, tailIndex) && -TWO63 <= eofEndIndex < TWO63
      ensures (if isInit then At(eofEndIndex) else Unknown) == Learn(old(State().end), Signed64(first), data, last)
      ensures output.closed == (old(output.closed) || ClosesAtOnce(old(State()), Signed64(first), data, last))
      ensures var s, index := old(State()), Signed64(first);
        Resolved(Bytes(cache), s.pending, Visible(s, index, data, last), old(Keeps(Signed64(first), data, last)))
      ensures !stored ==> cache == old(cache)
      ensures stored ==>
        !ClosesAtOnce(old(State()), Signed64(first), data, last) && (isInit ==> waitingIndex < eofEndIndex)
    {
      hide Ordered, Within, Resolved, Bytes, Total, Visible, Signed64, Learn, Clip, Entry.Bytes, KeptBySecond, Limit,
        Reassembler.Keeps;
      TotalCounts(cache);
      ResolvedNothing(Bytes(cache), Keeps(Signed64(first), data, last));
      var hit, first2, data2 := Admit(first, data, last);
      if !hit {
        return false;
      }
      stored := CacheIn(first2, data2, waitingIndex, tailIndex);
    }

    /** Accepts a substring, pushing everything that has become contiguous. */
    method Insert(first: u64, data: seq<byte>, last: bool)
      requires Valid() && output.State().Tail() < TWO63
      requires |data| < TWO63 && Signed64(first) + |data| < TWO63
      modifies this, output
      ensures Valid()
      ensures InsertedKeeping(old(State()), Signed64(first), data, last, old(Keeps(Signed64(first), data, last)),
        State())
      ensures Inserted(old(State()), Signed64(first), data, last, State())
    {
      hide Ordered, Within, Resolved, Bytes, Total, Settle, Outcome, Visible, Inserted, InsertedKeeping, Signed64,
        Learn,
        Limit;
      ghost var s, index := State(), Signed64(first);
      ghost var keep, end := Keeps(index, data, last), Learn(s.end, index, data, last);
      OutputState();
      tailIndex := waitingIndex + output.AvailableCapacity();
      assert Keeps(index, data, last) == keep;
      hide Reassembler.Keeps;
      var stored := Absorb(first, data, last);
      assert output.State().Tail() == s.out.Tail();
      ghost var known := Bytes(cache);
      if !stored {
        NothingNew(s, end, ClosesAtOnce(s, index, data, last));
        Concluded(s, index, data, last, keep, known, State());
        return;
      }
      Write();
      assert output.State().Tail() == s.out.Tail();
      if isInit && eofEndIndex <= waitingIndex {
        output.Close();
        assert output.State().Tail() == s.out.Tail();
      }
      SomethingNew(s, end, known, State());
      Concluded(s, index, data, last, keep, known, State());
    }

    /** The reader removes bytes from the output; the window moves with it. */
    method Read(n: nat)
      requires Valid()
      modifies output
      ensures Valid() && State() == Pop(old(State()), n)
    {
      output.Pop(n);
    }
  }
}
