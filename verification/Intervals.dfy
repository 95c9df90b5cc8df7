/** The ordered interval cache of the reassemblers: entries kept by first index only, as `std::set` does here. */
module Intervals {
  import opened MachineInts
  import opened ByteStreams
  import opened Assembly

  datatype Entry = Entry(first: nat, end: nat, data: seq<byte>) {
    predicate Consistent() {
      end == first + |data|
    }

    function Bytes(): map<nat, byte> {
      Clip(first, data, first, first + |data|)
    }
  }

  type Cache = seq<Entry>

  /** Entries are consistent, sorted and disjoint. */
  ghost predicate Ordered(c: Cache) {
    && (forall k | 0 <= k < |c| :: c[k].Consistent())
    && (forall k, l | 0 <= k < l < |c| :: c[k].first < c[l].first && c[k].end <= c[l].first)
  }

  ghost predicate Within(c: Cache, lo: nat, hi: nat) {
    forall k | 0 <= k < |c| :: lo <= c[k].first && c[k].end <= hi
  }

  function Bytes(c: Cache): map<nat, byte> {
    if c == [] then map[] else c[0].Bytes() + Bytes(c[1..])
  }

  function Total(c: Cache): nat {
    if c == [] then 0 else |c[0].data| + Total(c[1..])
  }

  /** `std::set::insert`: an entry with an equal first index keeps the new one out. */
  function SetInsert(c: Cache, e: Entry): Cache {
    if c == [] || e.first < c[0].first then [e] + c
    else if e.first == c[0].first then c
    else [c[0]] + SetInsert(c[1..], e)
  }

  lemma {:induction false} SetInsertBetween(l: Cache, r: Cache, e: Entry)
    requires forall k | 0 <= k < |l| :: l[k].first < e.first
    requires r != [] ==> e.first < r[0].first
    ensures SetInsert(l + r, e) == l + [e] + r
  {
    if l == [] {
      assert l + r == r;
    } else {
      assert (l + r)[1..] == l[1..] + r;
      SetInsertBetween(l[1..], r, e);
      assert [l[0]] + (l[1..] + [e] + r) == l + [e] + r;
    }
  }

  lemma PlusAssociates(x: map<nat, byte>, y: map<nat, byte>, z: map<nat, byte>)
    ensures x + (y + z) == (x + y) + z
  {
  }

  /** `cache[first] = data` on a `std::map`: an entry with an equal first index is replaced. */
  function MapAssign(c: Cache, e: Entry): Cache {
    if c == [] || e.first < c[0].first then [e] + c
    else if e.first == c[0].first then [e] + c[1..]
    else [c[0]] + MapAssign(c[1..], e)
  }

  lemma {:induction false} MapAssignSkips(l: Cache, r: Cache, e: Entry)
    requires forall k | 0 <= k < |l| :: l[k].first < e.first
    ensures MapAssign(l + r, e) == l + MapAssign(r, e)
  {
    if l == [] {
      assert l + r == r;
    } else {
      assert (l + r)[1..] == l[1..] + r;
      MapAssignSkips(l[1..], r, e);
    }
  }

  lemma MapAssignHere(stale: Cache, r: Cache, e: Entry)
    requires stale == [] || (|stale| == 1 && stale[0].first == e.first)
    requires r != [] ==> e.first < r[0].first
    ensures MapAssign(stale + r, e) == [e] + r
  {
  }

  lemma MapAssignBetween(l: Cache, stale: Cache, r: Cache, e: Entry)
    requires forall k | 0 <= k < |l| :: l[k].first < e.first
    requires stale == [] || (|stale| == 1 && stale[0].first == e.first)
    requires r != [] ==> e.first < r[0].first
    ensures MapAssign(l + stale + r, e) == l + [e] + r
  {
    hide MapAssign;
    Reassociate(l, stale, r);
    Reassociate(l, [e], r);
    MapAssignSkips(l, stale + r, e);
    MapAssignHere(stale, r, e);
  }

  lemma Reassociate(a: Cache, b: Cache, c: Cache)
    ensures a + b + c == a + (b + c)
  {
  }

  lemma {:induction false} BytesConcat(a: Cache, b: Cache)
    ensures Bytes(a + b) == Bytes(a) + Bytes(b)
    ensures Total(a + b) == Total(a) + Total(b)
  {
    if a == [] {
      assert a + b == b;
    } else {
      assert (a + b)[1..] == a[1..] + b;
      BytesConcat(a[1..], b);
      PlusAssociates(a[0].Bytes(), Bytes(a[1..]), Bytes(b));
    }
  }

  lemma {:induction false} BytesOne(e: Entry)
    ensures Bytes([e]) == e.Bytes() && Total([e]) == |e.data|
  {
  }

  lemma {:induction false} BytesHas(c: Cache, k: nat)
    requires k < |c|
    ensures c[k].Bytes().Keys <= Bytes(c).Keys
  {
    if k > 0 {
      BytesHas(c[1..], k - 1);
    }
  }

  lemma {:induction false} BytesWithin(c: Cache, lo: nat, hi: nat)
    requires forall k | 0 <= k < |c| :: c[k].Consistent() && lo <= c[k].first && c[k].end <= hi
    ensures forall i <- Bytes(c) :: lo <= i < hi
  {
    if c != [] {
      BytesWithin(c[1..], lo, hi);
    }
  }

  lemma HeadApart(c: Cache)
    requires Ordered(c) && c != []
    ensures Ordered(c[1..]) && c[0].Consistent()
    ensures forall i <- Bytes(c[1..]) :: c[0].end <= i
  {
    if |c| > 1 {
      assert c[0].end <= c[1].first;
      BytesWithin(c[1..], c[0].end, c[|c| - 1].end);
    }
  }

  lemma {:induction false} BytesWhere(c: Cache, i: nat) returns (k: nat)
    requires i in Bytes(c)
    ensures k < |c| && i in c[k].Bytes()
  {
    if i in Bytes(c[1..]) {
      k := BytesWhere(c[1..], i);
      k := k + 1;
    } else {
      k := 0;
    }
  }

  /** Every entry of `a` ends before every entry of `b` starts. */
  ghost predicate Before(a: Cache, b: Cache) {
    && (forall k | 0 <= k < |a| :: a[k].Consistent())
    && (forall k, l | 0 <= k < |a| && 0 <= l < |b| :: a[k].end <= b[l].first)
  }

  lemma BeforeApart(a: Cache, b: Cache)
    requires Before(a, b)
    ensures Bytes(a).Keys !! Bytes(b).Keys
  {
    forall i | i in Bytes(a)
      ensures i !in Bytes(b)
    {
      var k := BytesWhere(a, i);
      if i in Bytes(b) {
        var l := BytesWhere(b, i);
        assert false;
      }
    }
  }

  /** The number of distinct indices an ordered cache knows is the sum of its lengths. */
  lemma {:induction false} TotalCounts(c: Cache)
    requires Ordered(c)
    ensures Total(c) == |Bytes(c)|
  {
    hide Ordered, Bytes, Total;
    Unfolded(c);
    if c != [] {
      HeadApart(c);
      TotalCounts(c[1..]);
      HeadSize(c[0], Bytes(c[1..]));
    }
  }

  lemma Unfolded(c: Cache)
    ensures c == [] ==> Bytes(c) == map[] && Total(c) == 0
    ensures c != [] ==> Bytes(c) == c[0].Bytes() + Bytes(c[1..]) && Total(c) == |c[0].data| + Total(c[1..])
  {
  }

  lemma HeadSize(e: Entry, rest: map<nat, byte>)
    requires e.Consistent() && forall i <- rest :: e.end <= i
    ensures |e.Bytes() + rest| == |e.data| + |rest|
  {
    EntrySize(e.first, e.data);
    assert e == Entry(e.first, e.first + |e.data|, e.data);
    EntryEnds(e);
    hide Entry.Bytes;
    DisjointSize(e.Bytes(), rest);
  }

  lemma EntryEnds(e: Entry)
    requires e.Consistent()
    ensures forall i <- e.Bytes() :: e.first <= i < e.end
  {
  }

  lemma DisjointSize(a: map<nat, byte>, b: map<nat, byte>)
    requires a.Keys !! b.Keys
    ensures |a + b| == |a| + |b|
  {
  }

  lemma {:induction false} EntrySize(first: nat, data: seq<byte>)
    ensures |Entry(first, first + |data|, data).Bytes()| == |data|
  {
    var m := Entry(first, first + |data|, data).Bytes();
    if data == [] {
      assert m == map[];
    } else {
      var n := |data| - 1;
      EntrySize(first, data[..n]);
      var m' := Entry(first, first + n, data[..n]).Bytes();
      assert m.Keys == m'.Keys + {first + n};
    }
  }

  /** One more disjoint entry swallowed by the string being cached. */
  lemma ResolvedMore(x: map<nat, byte>, y: map<nat, byte>, a: map<nat, byte>, e: map<nat, byte>, b: map<nat, byte>,
                     keep: set<nat>)
    requires Resolved(x, a, b, keep) && Resolved(y, e, x, keep) && a.Keys !! e.Keys
    ensures Resolved(y, a + e, b, keep)
  {
  }

  // Which bytes stay when a new string of indices [first, end) contradicts cached ones.

  /** In the first reassembler an entry keeps its bytes only against a string inside it. */
  predicate StaysInFirst(e: Entry, first: int, end: int) {
    e.first <= first && end <= e.end
  }

  /** In the second one it also keeps them against a string that starts later and reaches beyond it. */
  predicate StaysInSecond(e: Entry, first: int, end: int) {
    e.first < first || (e.first == first && end <= e.end)
  }

  ghost function KeptByFirst(c: Cache, first: int, end: int): set<nat> {
    set k: nat, i: nat | k < |c| && i in c[k].Bytes() && StaysInFirst(c[k], first, end) :: i
  }

  ghost function KeptBySecond(c: Cache, first: int, end: int): set<nat> {
    set k: nat, i: nat | k < |c| && i in c[k].Bytes() && StaysInSecond(c[k], first, end) :: i
  }

  lemma KeptHere(c: Cache, k: nat, first: int, end: int)
    requires Ordered(c) && k < |c|
    ensures forall i <- c[k].Bytes() :: i in KeptByFirst(c, first, end) <==> StaysInFirst(c[k], first, end)
    ensures forall i <- c[k].Bytes() :: i in KeptBySecond(c, first, end) <==> StaysInSecond(c[k], first, end)
  {
    forall i, l: nat | i in c[k].Bytes() && l < |c| && i in c[l].Bytes()
      ensures l == k
    {
    }
  }

  // The ways in which a string being cached takes in a cached entry. Where both know an index, the string wins.

  /** The string and the entry contradict each other only at indices where the string wins. */
  ghost predicate NewWins(cur: Entry, x: Entry, keep: set<nat>) {
    forall i <- x.Bytes() :: i in cur.Bytes() ==> i !in keep
  }

  lemma SwallowsAll(cur: Entry, x: Entry, keep: set<nat>)
    requires cur.Consistent() && x.Consistent() && x.first <= cur.first && cur.end <= x.end && NewWins(cur, x, keep)
    ensures Resolved(x.Bytes(), cur.Bytes(), x.Bytes(), keep)
  {
  }

  lemma JoinsLeft(cur: Entry, x: Entry, keep: set<nat>) returns (y: Entry)
    requires cur.Consistent() && x.Consistent() && cur.first <= x.first < cur.end <= x.end && NewWins(cur, x, keep)
    ensures y == Entry(cur.first, cur.first + |cur.data[..x.first - cur.first] + x.data|,
      cur.data[..x.first - cur.first] + x.data)
    ensures y.end == x.end
    ensures Resolved(y.Bytes(), cur.Bytes(), x.Bytes(), keep)
  {
    y := Entry(cur.first, x.end, cur.data[..x.first - cur.first] + x.data);
  }

  lemma JoinsRight(cur: Entry, x: Entry, keep: set<nat>) returns (y: Entry)
    requires cur.Consistent() && x.Consistent() && x.first <= cur.first < x.end <= cur.end && NewWins(cur, x, keep)
    ensures var data := x.data + cur.data[|cur.data| - (cur.end - x.end)..]; y == Entry(x.first, x.first + |data|, data)
    ensures y.end == cur.end
    ensures Resolved(y.Bytes(), cur.Bytes(), x.Bytes(), keep)
  {
    y := Entry(x.first, cur.end, x.data + cur.data[|cur.data| - (cur.end - x.end)..]);
  }

  lemma SwallowsRight(cur: Entry, x: Entry, keep: set<nat>) returns (y: Entry)
    requires cur.Consistent() && x.Consistent() && x.first < cur.first < x.end < cur.end && NewWins(cur, x, keep)
    ensures y == Entry(x.first, x.first + |x.data + cur.data[x.end - cur.first..]|,
      x.data + cur.data[x.end - cur.first..])
    ensures y.end == cur.end
    ensures Resolved(y.Bytes(), cur.Bytes(), x.Bytes(), keep)
  {
    y := Entry(x.first, cur.end, x.data + cur.data[x.end - cur.first..]);
  }

  /** Here the entry keeps all its bytes. */
  lemma SwallowsLeft(cur: Entry, x: Entry, keep: set<nat>) returns (y: Entry)
    requires cur.Consistent() && x.Consistent() && cur.first < x.first < cur.end < x.end && cur.Bytes().Keys <= keep
    ensures y == Entry(cur.first, x.end, cur.data + x.data[cur.end - x.first..]) && y.Consistent()
    ensures Resolved(y.Bytes(), cur.Bytes(), x.Bytes(), keep)
  {
    y := Entry(cur.first, x.end, cur.data + x.data[cur.end - x.first..]);
  }

  /**
   * The loop over the cache: `left` was passed over, `taken` has been merged into the string `x` and removed,
   * `right` is still ahead.
   */
  ghost predicate Growing(c: Cache, left: Cache, taken: Cache, right: Cache, x: Entry, lo: nat, hi: nat) {
    && c == left + taken + right
    && Ordered(c) && Within(c, lo, hi)
    && x.Consistent() && lo <= x.first && x.end <= hi
    && (forall k | 0 <= k < |left| :: left[k].first < x.first && left[k].end <= x.first)
    && (taken != [] && right != [] ==> x.first < right[0].first)
  }

  lemma OrderedSplit(a: Cache, b: Cache)
    requires Ordered(a + b)
    ensures Ordered(a) && Ordered(b) && Before(a, b)
  {
    var c := a + b;
    assert forall k | 0 <= k < |a| :: a[k] == c[k];
    assert forall k | 0 <= k < |b| :: b[k] == c[|a| + k];
  }

  lemma OrderedParts(l: Cache, m: Cache, r: Cache)
    requires Ordered(l + m + r)
    ensures Ordered(l) && Ordered(m) && Ordered(r) && Before(l, m) && Before(m, r) && Before(l, r)
  {
    hide Ordered;
    OrderedSplit(l + m, r);
    OrderedSplit(l, m);
    assert forall k | 0 <= k < |l| :: l[k] == (l + m)[k];
    assert forall k | 0 <= k < |m| :: m[k] == (l + m)[|l| + k];
  }

  lemma PartsWithin(l: Cache, m: Cache, r: Cache, lo: nat, hi: nat)
    requires Within(l + m + r, lo, hi)
    ensures Within(l, lo, hi) && Within(m, lo, hi) && Within(r, lo, hi)
  {
    var c := l + m + r;
    assert forall k | 0 <= k < |l| :: l[k] == c[k];
    assert forall k | 0 <= k < |m| :: m[k] == c[|l| + k];
    assert forall k | 0 <= k < |r| :: r[k] == c[|l| + |m| + k];
  }

  lemma Start(c: Cache, x: Entry, lo: nat, hi: nat)
    requires Ordered(c) && Within(c, lo, hi) && x.Consistent() && lo <= x.first && x.end <= hi
    ensures Growing(c, [], [], c, x, lo, hi)
  {
  }

  /** What the order of the cache says about the entry ahead. */
  lemma EntryAhead(c: Cache, left: Cache, taken: Cache, right: Cache, x: Entry, lo: nat, hi: nat)
    requires Growing(c, left, taken, right, x, lo, hi) && right != []
    ensures right[0].Consistent() && lo <= right[0].first && right[0].end <= hi
    ensures forall k | 0 <= k < |left| :: left[k].first < right[0].first && left[k].end <= right[0].first
    ensures Before(taken, [right[0]])
    ensures |right| > 1 ==> right[0].first < right[1].first && right[0].end <= right[1].first
    ensures Ordered(right) && (taken != [] ==> x.first < right[0].first)
  {
    var n := |left| + |taken|;
    OrderedParts(left, taken, right);
    assert right[0] == c[n];
    assert |right| > 1 ==> right[1] == c[n + 1];
    assert forall k | 0 <= k < |left| :: left[k] == c[k];
    assert forall k | 0 <= k < |taken| :: taken[k] == c[|left| + k];
  }

  /** A string inside a cached entry is dropped; then nothing has been taken out of the cache before. */
  lemma ContainedAdds(c: Cache, left: Cache, taken: Cache, right: Cache, x: Entry, lo: nat, hi: nat)
    requires Growing(c, left, taken, right, x, lo, hi) && right != []
    requires right[0].first <= x.first && x.end <= right[0].end
    ensures taken == [] && c == left + right && right[0] == c[|left|]
    ensures x.Bytes().Keys <= right[0].Bytes().Keys <= Bytes(c).Keys
  {
    assert taken == [];
    assert c == left + right;
    EntryAhead(c, left, taken, right, x, lo, hi);
    assert right[0] == c[|left|];
    BytesHas(c, |left|);
  }

  /** The entry ahead leaves the cache because the grown string `y` covers it. */
  lemma Take(c: Cache, left: Cache, taken: Cache, right: Cache, x: Entry, y: Entry, lo: nat, hi: nat)
    returns (taken': Cache, right': Cache)
    requires Growing(c, left, taken, right, x, lo, hi) && right != []
    requires y.Consistent() && y.first == Min(x.first, right[0].first) && y.end == Max(x.end, right[0].end)
    ensures taken' == taken + [right[0]] && right' == right[1..]
    ensures Growing(c, left, taken', right', y, lo, hi)
    ensures (left + right)[..|left|] + (left + right)[|left| + 1..] == left + right'
  {
    taken', right' := taken + [right[0]], right[1..];
    EntryAhead(c, left, taken, right, x, lo, hi);
    assert left + taken + right == left + taken' + right';
  }

  lemma TakeTotal(left: Cache, right: Cache)
    requires right != []
    ensures Total(left + right) == Total(left + right[1..]) + |right[0].data|
  {
    BytesConcat(left, right);
    BytesConcat(left, right[1..]);
  }

  lemma TakeBytes(c: Cache, left: Cache, taken: Cache, right: Cache, x: Entry, y: Entry, base: map<nat, byte>,
                  keep: set<nat>, lo: nat, hi: nat)
    requires Growing(c, left, taken, right, x, lo, hi) && right != []
    requires Resolved(x.Bytes(), Bytes(taken), base, keep) && Resolved(y.Bytes(), right[0].Bytes(), x.Bytes(), keep)
    ensures Resolved(y.Bytes(), Bytes(taken + [right[0]]), base, keep)
  {
    var cur := right[0];
    EntryAhead(c, left, taken, right, x, lo, hi);
    BytesConcat(taken, [cur]);
    BytesOne(cur);
    BeforeApart(taken, [cur]);
    ResolvedMore(x.Bytes(), y.Bytes(), Bytes(taken), cur.Bytes(), base, keep);
  }

  /** One step of the loop that removes the entry ahead. */
  lemma TakeStep(c: Cache, left: Cache, taken: Cache, right: Cache, x: Entry, y: Entry, base: map<nat, byte>,
                 keep: set<nat>, lo: nat, hi: nat)
    returns (taken': Cache, right': Cache)
    requires Growing(c, left, taken, right, x, lo, hi) && right != []
    requires y.Consistent() && y.first == Min(x.first, right[0].first) && y.end == Max(x.end, right[0].end)
    requires Resolved(x.Bytes(), Bytes(taken), base, keep) && Resolved(y.Bytes(), right[0].Bytes(), x.Bytes(), keep)
    ensures right' == right[1..] && taken' != []
    ensures Growing(c, left, taken', right', y, lo, hi)
    ensures right' != [] ==> right[0].end <= right'[0].first && right[0].first < right'[0].first
    ensures Resolved(y.Bytes(), Bytes(taken'), base, keep)
    ensures Total(left + right) == Total(left + right') + |right[0].data|
    ensures (left + right)[..|left|] + (left + right)[|left| + 1..] == left + right'
  {
    EntryAhead(c, left, taken, right, x, lo, hi);
    TakeTotal(left, right);
    TakeBytes(c, left, taken, right, x, y, base, keep, lo, hi);
    taken', right' := Take(c, left, taken, right, x, y, lo, hi);
  }

  /** The entry ahead ends before `x` starts, so it stays where it is. */
  lemma Keep(c: Cache, left: Cache, taken: Cache, right: Cache, x: Entry, lo: nat, hi: nat)
    returns (left': Cache, right': Cache)
    requires Growing(c, left, taken, right, x, lo, hi) && right != []
    requires right[0].first < x.first && right[0].end <= x.first
    ensures left' == left + [right[0]] && right' == right[1..] && left' + right' == left + right
    ensures Growing(c, left', taken, right', x, lo, hi)
  {
    left', right' := left + [right[0]], right[1..];
    assert taken == [];
    assert left + taken + right == left' + taken + right';
  }

  lemma RemoveAt(l: Cache, r: Cache)
    requires r != []
    ensures (l + r)[|l|] == r[0]
    ensures (l + r)[..|l|] + (l + r)[|l| + 1..] == l + r[1..]
    ensures (l + [r[0]]) + r[1..] == l + r
  {
  }

  /** Past the first entry beyond the string, all entries are beyond it. */
  lemma BeyondAll(r: Cache, k: nat, end: nat)
    requires Ordered(r) && k < |r|
    requires k > 0 ==> end < r[0].first
    ensures r[k].Consistent()
    ensures k > 0 ==> end < r[k].first
  {
  }

  /** The two cuts to the window leave exactly the visible bytes. */
  lemma CutToWindow(first0: int, data0: seq<byte>, lo: nat, hi: nat, first: nat, data: seq<byte>)
    requires first0 < hi && lo <= hi
    requires first == Max(first0, lo) <= first0 + |data0|
    requires data == data0[first - first0..][..Min(first0 + |data0| - first, hi - first)]
    ensures Entry(first, first + |data|, data).Bytes() == Clip(first0, data0, lo, hi)
  {
  }

  lemma ResolvedAround(l: map<nat, byte>, m: map<nat, byte>, r: map<nat, byte>, e: map<nat, byte>, base: map<nat, byte>,
                       keep: set<nat>)
    requires Resolved(e, m, base, keep)
    requires l.Keys !! e.Keys && r.Keys !! e.Keys && r.Keys !! m.Keys && l.Keys !! m.Keys
    ensures Resolved((l + e) + r, (l + m) + r, base, keep)
  {
  }

  lemma EmbedBytes(l: Cache, m: Cache, r: Cache, e: Entry, base: map<nat, byte>, keep: set<nat>)
    requires Before(l, m) && Before(m, r) && Before(l, r) && Before(l, [e]) && Before([e], r)
    requires Resolved(e.Bytes(), Bytes(m), base, keep)
    ensures Resolved(Bytes(l + [e] + r), Bytes(l + m + r), base, keep)
    ensures Total(l + [e] + r) == Total(l + r) + |e.data|
  {
    BytesConcat(l, [e]);
    BytesConcat(l + [e], r);
    BytesConcat(l, m);
    BytesConcat(l + m, r);
    BytesConcat(l, r);
    BytesOne(e);
    BeforeApart(l, m);
    BeforeApart(m, r);
    BeforeApart(l, r);
    BeforeApart(l, [e]);
    BeforeApart([e], r);
    ResolvedAround(Bytes(l), Bytes(m), Bytes(r), e.Bytes(), base, keep);
  }

  lemma AllBeyond(r: Cache, e: Entry)
    requires Ordered(r)
    requires r != [] ==> e.first < r[0].first && e.end <= r[0].first
    ensures forall k | 0 <= k < |r| :: e.first < r[k].first && e.end <= r[k].first
  {
  }

  lemma OrderedBetween(l: Cache, r: Cache, e: Entry)
    requires Ordered(l) && Ordered(r) && Before(l, r) && e.Consistent()
    requires forall k | 0 <= k < |l| :: l[k].first < e.first && l[k].end <= e.first
    requires forall k | 0 <= k < |r| :: e.first < r[k].first && e.end <= r[k].first
    ensures Ordered(l + [e] + r)
  {
  }

  /** The state of the cache after the loop. */
  lemma EmbedStep(c: Cache, left: Cache, taken: Cache, right: Cache, x: Entry, base: map<nat, byte>, keep: set<nat>,
                  lo: nat, hi: nat)
    requires Growing(c, left, taken, right, x, lo, hi)
    requires right != [] ==> x.first < right[0].first && x.end <= right[0].first
    requires Resolved(x.Bytes(), Bytes(taken), base, keep)
    ensures var d := SetInsert(left + right, x);
      && Ordered(d) && Within(d, lo, hi) && Total(d) == Total(left + right) + |x.data|
      && Resolved(Bytes(d), Bytes(c), base, keep)
  {
    Embed(c, left, taken, right, x, lo, hi);
    OrderedParts(left, taken, right);
    EmbedBytes(left, taken, right, x, base, keep);
  }

  /** The final insert never collides: the grown string fits exactly between what it did not touch. */
  lemma Embed(c: Cache, left: Cache, taken: Cache, right: Cache, x: Entry, lo: nat, hi: nat)
    requires Growing(c, left, taken, right, x, lo, hi)
    requires right != [] ==> x.first < right[0].first && x.end <= right[0].first
    ensures SetInsert(left + right, x) == left + [x] + right
    ensures Ordered(left + [x] + right) && Within(left + [x] + right, lo, hi)
    ensures Before(left, [x]) && Before([x], right)
  {
    hide Ordered, SetInsert, Resolved, Bytes;
    OrderedParts(left, taken, right);
    PartsWithin(left, taken, right, lo, hi);
    AllBeyond(right, x);
    SetInsertBetween(left, right, x);
    OrderedBetween(left, right, x);
  }

  /**
   * A walk over the cache with the string being cached. Beyond `left`, `taken` and `right` as above, `stale` is an
   * empty string cached at the very index of the new one, which the first reassembler leaves there until the new
   * one overwrites it, and `passed` counts strings beyond the new one that have been walked over. `given` is the string
   * as it came, and `keep` says where cached bytes are to stay.
   */
  datatype Walk = Walk(all: Cache, left: Cache, stale: Cache, taken: Cache, right: Cache, passed: nat,
                       given: Entry, keep: set<nat>, lo: nat, hi: nat)

  /** The string has grown to the left only into what is before, and to the right only up to, the entry ahead. */
  ghost predicate Grown(given: Entry, x: Entry, right: Cache) {
    && x.first <= given.first && given.end <= x.end
    && (right != [] && x.first < given.first ==> given.first < right[0].first)
    && (right != [] && given.end < x.end ==> x.end <= right[0].first)
  }

  ghost predicate Walking(w: Walk, cache: Cache, it: nat, size: int, x: Entry) {
    && w.passed <= |w.right| && it == |w.left| + |w.stale| + w.passed
    && cache == w.left + w.stale + w.right && size == Total(w.left + w.right)
    && Growing(w.all, w.left, w.taken, w.right, x, w.lo, w.hi)
    && Grown(w.given, x, w.right)
    && Resolved(x.Bytes(), Bytes(w.taken), w.given.Bytes(), w.keep)
    && (w.stale == [] || (|w.stale| == 1 && w.stale[0].first == x.first && w.taken != []))
    && (w.passed > 0 ==> x.end < w.right[0].first)
  }

  /** What a walk does not change. */
  ghost predicate SameWalk(w: Walk, w': Walk) {
    w'.all == w.all && w'.given == w.given && w'.keep == w.keep && w'.lo == w.lo && w'.hi == w.hi
  }

  lemma ResolvedFromNothing(b: map<nat, byte>, keep: set<nat>)
    ensures Resolved(b, Bytes([]), b, keep)
  {
  }

  lemma WalkStart(c: Cache, x: Entry, keep: set<nat>, lo: nat, hi: nat) returns (w: Walk)
    requires Ordered(c) && Within(c, lo, hi) && x.Consistent() && lo <= x.first && x.end <= hi
    ensures Walking(w, c, 0, Total(c), x)
    ensures w.all == c && w.given == x && w.keep == keep && w.lo == lo && w.hi == hi && w.stale == []
  {
    hide Growing, Ordered, Within, Total, Bytes;
    Start(c, x, lo, hi);
    assert [] + c == c && [] + [] + c == c;
    ResolvedFromNothing(x.Bytes(), keep);
    w := Walk(c, [], [], [], c, 0, x, keep, lo, hi);
  }

  /** Where the iterator stands: at the first entry ahead, unless it has already gone beyond the string. */
  lemma WalkAt(w: Walk, cache: Cache, it: nat, size: int, x: Entry)
    requires Walking(w, cache, it, size, x) && it < |cache|
    ensures w.passed < |w.right| && cache[it] == w.right[w.passed]
    ensures cache[it].Consistent() && x.Consistent() && w.lo <= x.first
    ensures w.passed > 0 ==> x.end < cache[it].first
    ensures w.taken != [] && w.passed == 0 ==> x.first < cache[it].first
  {
    hide Resolved, Bytes, Total, Ordered;
    EntryAhead(w.all, w.left, w.taken, w.right, x, w.lo, w.hi);
    BeyondAll(w.right, w.passed, x.end);
  }

  /** The string and the entry at the iterator share only indices that the string has had from the start. */
  lemma WalkOverlap(w: Walk, cache: Cache, it: nat, size: int, x: Entry)
    requires Walking(w, cache, it, size, x) && it < |cache|
    ensures forall i <- x.Bytes() :: i in cache[it].Bytes() ==> w.given.first <= i < w.given.first + |w.given.data|
    ensures w.passed == 0 ==> cache[it] in w.all
  {
    hide Total, Ordered, Bytes;
    WalkAt(w, cache, it, size, x);
    if w.passed == 0 {
      EntryAhead(w.all, w.left, w.taken, w.right, x, w.lo, w.hi);
      BeforeApart(w.taken, [cache[it]]);
      BytesOne(cache[it]);
      assert w.all[|w.left| + |w.taken|] == cache[it];
    }
  }

  /** In the first reassembler the string wins against every entry that does not contain it. */
  lemma WinsInFirst(w: Walk, cache: Cache, it: nat, size: int, x: Entry)
    requires Walking(w, cache, it, size, x) && it < |cache| && w.given.Consistent()
    requires w.keep == KeptByFirst(w.all, w.given.first, w.given.end)
    requires !(cache[it].first <= x.first && x.end <= cache[it].end)
    ensures NewWins(cache[it], x, w.keep)
  {
    hide Total, Bytes, Resolved, KeptByFirst, Ordered, Within;
    WalkAt(w, cache, it, size, x);
    WalkOverlap(w, cache, it, size, x);
    if w.passed == 0 {
      var k: nat :| k < |w.all| && w.all[k] == cache[it];
      KeptHere(w.all, k, w.given.first, w.given.end);
    }
  }

  /** In the second one it wins against those that it covers, or that start inside it. */
  lemma WinsInSecond(w: Walk, cache: Cache, it: nat, size: int, x: Entry)
    requires Walking(w, cache, it, size, x) && it < |cache| && w.given.Consistent()
    requires w.keep == KeptBySecond(w.all, w.given.first, w.given.end)
    requires x.first <= cache[it].first && !(cache[it].first <= x.first && x.end <= cache[it].end)
    ensures NewWins(cache[it], x, w.keep)
  {
    hide Total, Bytes, Resolved, KeptBySecond, Ordered, Within;
    WalkAt(w, cache, it, size, x);
    WalkOverlap(w, cache, it, size, x);
    if w.passed == 0 {
      var k: nat :| k < |w.all| && w.all[k] == cache[it];
      KeptHere(w.all, k, w.given.first, w.given.end);
    }
  }

  /** It loses against an entry that starts before it. */
  lemma LosesInSecond(w: Walk, cache: Cache, it: nat, size: int, x: Entry)
    requires Walking(w, cache, it, size, x) && it < |cache|
    requires w.keep == KeptBySecond(w.all, w.given.first, w.given.end)
    requires cache[it].first < x.first
    ensures cache[it].Bytes().Keys <= w.keep
  {
    hide Total, Bytes, Resolved, KeptBySecond, Ordered, Within;
    WalkAt(w, cache, it, size, x);
    WalkOverlap(w, cache, it, size, x);
    var k: nat :| k < |w.all| && w.all[k] == cache[it];
    KeptHere(w.all, k, w.given.first, w.given.end);
  }

  /** A string inside an entry leaves all bytes as they are, in both reassemblers. */
  lemma WalkContained(w: Walk, cache: Cache, it: nat, size: int, x: Entry)
    requires Walking(w, cache, it, size, x) && it < |cache|
    requires cache[it].first <= x.first && x.end <= cache[it].end
    requires w.keep == KeptByFirst(w.all, w.given.first, w.given.end)
          || w.keep == KeptBySecond(w.all, w.given.first, w.given.end)
    ensures cache == w.all && Resolved(Bytes(cache), Bytes(cache), w.given.Bytes(), w.keep) && size == Total(cache)
  {
    hide Total, Ordered, Bytes, Resolved, KeptByFirst, KeptBySecond;
    WalkAt(w, cache, it, size, x);
    ContainedAdds(w.all, w.left, w.taken, w.right, x, w.lo, w.hi);
    assert w.left + w.stale == w.left;
    NothingTaken(x.Bytes(), w.given.Bytes(), w.keep);
    KeptHere(w.all, |w.left|, w.given.first, w.given.end);
    ResolvedInside(Bytes(cache), w.right[0].Bytes(), w.given.Bytes(), w.keep);
  }

  lemma NothingTaken(m: map<nat, byte>, b: map<nat, byte>, keep: set<nat>)
    requires Resolved(m, Bytes([]), b, keep)
    ensures m.Keys == b.Keys
  {
  }

  lemma ResolvedInside(a: map<nat, byte>, inner: map<nat, byte>, b: map<nat, byte>, keep: set<nat>)
    requires b.Keys <= inner.Keys <= a.Keys && forall i <- inner :: i in keep
    ensures Resolved(a, a, b, keep)
  {
  }

  /** An entry that meets the string is taken out of the map, and the string grows to `y`. */
  lemma WalkTake(w: Walk, cache: Cache, it: nat, size: int, x: Entry, y: Entry) returns (w': Walk)
    requires Walking(w, cache, it, size, x) && it < |cache| && cache[it].first <= x.end
    requires y.Consistent() && y.first == Min(x.first, cache[it].first) && y.end == Max(x.end, cache[it].end)
    requires cache[it].first < x.first ==> x.first < cache[it].end
    requires Resolved(y.Bytes(), cache[it].Bytes(), x.Bytes(), w.keep)
    ensures Walking(w', cache[..it] + cache[it + 1..], it, size - |cache[it].data|, y)
    ensures SameWalk(w, w') && w'.stale == w.stale && w'.passed == w.passed && |w'.right| < |w.right|
    ensures it + 1 < |cache| ==> cache[it].end <= cache[it + 1].first
  {
    hide Resolved, Bytes, Total, Ordered, Growing;
    WalkAt(w, cache, it, size, x);
    var taken, right := TakeStep(w.all, w.left, w.taken, w.right, x, y, w.given.Bytes(), w.keep, w.lo, w.hi);
    RemoveAt(w.left + w.stale, w.right);
    w' := w.(taken := taken, right := right);
  }

  /** An entry that does not meet the string is walked over. */
  lemma WalkOver(w: Walk, cache: Cache, it: nat, size: int, x: Entry) returns (w': Walk)
    requires Walking(w, cache, it, size, x) && it < |cache|
    requires x.end < cache[it].first || cache[it].end <= x.first
    ensures Walking(w', cache, it + 1, size, x) && SameWalk(w, w')
    ensures |w'.right| - w'.passed < |w.right| - w.passed
    ensures cache[it].first < x.first ==> w'.stale == w.stale
  {
    hide Resolved, Bytes, Total, Ordered, Growing;
    WalkAt(w, cache, it, size, x);
    var cur := cache[it];
    if x.end < cur.first {
      w' := w.(passed := w.passed + 1);
    } else {
      RemoveAt(w.left, w.right);
      assert w.left + w.stale == w.left;
      if cur.first < x.first {
        var left, right := Keep(w.all, w.left, w.taken, w.right, x, w.lo, w.hi);
        w' := w.(left := left, right := right);
      } else {
        SwallowsAll(cur, x, w.keep);
        var taken, right := TakeStep(w.all, w.left, w.taken, w.right, x, x, w.given.Bytes(), w.keep, w.lo, w.hi);
        w' := w.(stale := [cur], taken := taken, right := right);
      }
    }
  }

  /** The final write never collides: the grown string fits exactly between what it did not touch. */
  lemma WalkEnd(w: Walk, cache: Cache, it: nat, size: int, x: Entry)
    requires Walking(w, cache, it, size, x) && it <= |cache|
    requires it < |cache| ==> x.first < cache[it].first && x.end <= cache[it].first
    ensures var d := MapAssign(cache, x);
      && Ordered(d) && Within(d, w.lo, w.hi) && size + |x.data| == Total(d)
      && Resolved(Bytes(d), Bytes(w.all), w.given.Bytes(), w.keep)
      && (w.stale == [] ==> SetInsert(cache, x) == d)
  {
    hide Resolved, Bytes, Total, Ordered, Within;
    if it < |cache| {
      WalkAt(w, cache, it, size, x);
    }
    assert w.left + [] == w.left;
    EmbedStep(w.all, w.left, w.taken, w.right, x, w.given.Bytes(), w.keep, w.lo, w.hi);
    EmbedAssigned(w.all, w.left, w.taken, w.stale, w.right, x, w.lo, w.hi);
  }

  lemma EmbedAssigned(c: Cache, left: Cache, taken: Cache, stale: Cache, right: Cache, x: Entry, lo: nat, hi: nat)
    requires Growing(c, left, taken, right, x, lo, hi)
    requires right != [] ==> x.first < right[0].first && x.end <= right[0].first
    requires stale == [] || (|stale| == 1 && stale[0].first == x.first)
    ensures MapAssign(left + stale + right, x) == SetInsert(left + right, x)
  {
    MapAssignBetween(left, stale, right, x);
    SetInsertBetween(left, right, x);
  }

  // Writing out the front of the cache.

  /** Part of the known bytes has been pushed, in order; `pending` is the rest. */
  ghost predicate Drained(out0: Stream, known: map<nat, byte>, out: Stream, pending: map<nat, byte>) {
    && out == out0.(accepted := out.accepted)
    && out0.accepted <= out.accepted
    && (forall i: nat | |out0.accepted| <= i < |out.accepted| :: i in known && out.accepted[i] == known[i])
    && (forall i: nat :: i in pending <==> i in known && |out.accepted| <= i)
    && (forall i <- pending :: pending[i] == known[i])
  }

  lemma DrainStart(out: Stream, c: Cache, lo: nat, hi: nat)
    requires Ordered(c) && Within(c, lo, hi) && |out.accepted| <= lo
    ensures Drained(out, Bytes(c), out, Bytes(c))
  {
  }

  lemma DrainedIsSettled(out0: Stream, known: map<nat, byte>, out: Stream, pending: map<nat, byte>)
    requires Drained(out0, known, out, pending)
    requires |out.accepted| !in pending
    ensures var s := Settle(out0, known, Unknown); out == s.out && pending == s.pending
  {
  }

  lemma HeadFirst(c: Cache, lo: nat, hi: nat)
    requires Ordered(c) && Within(c, lo, hi) && c != []
    ensures Ordered(c[1..]) && Within(c[1..], c[0].end, hi)
    ensures c[0].Consistent() && c[0].end <= hi
    ensures forall i <- Bytes(c[1..]) :: c[0].end <= i
    ensures Total(c) == |c[0].data| + Total(c[1..])
  {
  }

  /** Pushing the head of the cache, which starts at the awaited index. */
  lemma DrainOne(out0: Stream, known: map<nat, byte>, out: Stream, c: Cache)
    requires Drained(out0, known, out, Bytes(c))
    requires c != [] && c[0].Consistent() && c[0].first == |out.accepted|
    requires forall i <- Bytes(c[1..]) :: c[0].end <= i
    ensures Drained(out0, known, out.(accepted := out.accepted + c[0].data), Bytes(c[1..]))
  {
    assert Bytes(c) == c[0].Bytes() + Bytes(c[1..]);
    PushHead(out0, known, out, c[0], Bytes(c[1..]));
  }

  lemma PushHead(out0: Stream, known: map<nat, byte>, out: Stream, head: Entry, rest: map<nat, byte>)
    requires Drained(out0, known, out, head.Bytes() + rest)
    requires head.Consistent() && head.first == |out.accepted|
    requires forall i <- rest :: head.end <= i
    ensures Drained(out0, known, out.(accepted := out.accepted + head.data), rest)
  {
    assert forall i <- head.Bytes() :: i !in rest && head.Bytes()[i] == known[i];
  }

  lemma WithinMore(c: Cache, lo: nat, hi: nat, hi': nat)
    requires Within(c, lo, hi) && hi <= hi'
    ensures Within(c, lo, hi')
  {
  }

  lemma KeysWithin(c: Cache, lo: nat, hi: nat)
    requires Ordered(c) && Within(c, lo, hi) && (c != [] ==> lo < c[0].first)
    ensures forall i <- Bytes(c) :: lo < i < hi
  {
  }

  lemma NothingAwaited(c: Cache, w: nat, hi: nat)
    requires Ordered(c) && Within(c, w, hi)
    requires c != [] ==> c[0].first != w
    ensures w !in Bytes(c) && (c != [] ==> w < c[0].first)
  {
  }
}
