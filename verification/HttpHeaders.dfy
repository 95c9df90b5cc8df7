/** HTTP/1.0 request heads (section 4.2 of RFC 1945): printing, parsing and receiving them in pieces. */
module HttpHeaders {
  import opened MachineInts

  datatype Option<T> = None | Some(value: T)

  datatype Header = Header(key: string, value: string)

  const CRLF: string := "\r\n"
  const BLANK: string := "\r\n\r\n"
  const COLON: string := ": "

  /** `std::string::find`: the first occurrence, or -1 where the code gets npos. */
  function Find(s: string, pat: string): (at: int)
    ensures -1 <= at
    ensures at >= 0 ==> at + |pat| <= |s| && s[at..at + |pat|] == pat
  {
    if pat <= s then 0
    else if s == "" then -1
    else
      var r := Find(s[1..], pat);
      assert r >= 0 ==> s[1..][r..r + |pat|] == s[r + 1..r + 1 + |pat|];
      if r < 0 then -1 else r + 1
  }

  predicate Lacks(s: string, pat: string) {
    Find(s, pat) < 0
  }

  lemma {:induction false} FirstOccurrence(s: string, pat: string, k: nat)
    requires k + |pat| <= |s| && s[k..k + |pat|] == pat
    ensures 0 <= Find(s, pat) <= k
  {
    if k > 0 && !(pat <= s) {
      assert s[1..][k - 1..k - 1 + |pat|] == s[k..k + |pat|];
      FirstOccurrence(s[1..], pat, k - 1);
    } else if k == 0 {
      assert s[..|pat|] == pat;
    }
  }

  /** What is found in a prefix is found at the same place in the whole. */
  lemma {:induction false} FindStable(s: string, more: string, pat: string)
    requires Find(s, pat) >= 0
    ensures Find(s + more, pat) == Find(s, pat)
  {
    if pat <= s {
      assert pat <= s + more;
    } else {
      var at := Find(s, pat);
      assert (s + more)[1..] == s[1..] + more;
      FindStable(s[1..], more, pat);
      assert |pat| <= |s| && (s + more)[..|pat|] == s[..|pat|];
    }
  }

  /** A two-character mark whose characters differ cannot overlap with what is before it. */
  lemma {:induction false} FindMark(head: string, pat: string, tail: string)
    requires |pat| == 2 && pat[0] != pat[1] && Lacks(head, pat)
    ensures Find(head + pat + tail, pat) == |head|
  {
    var s := head + pat + tail;
    if head == "" {
      assert s[..2] == pat;
    } else {
      assert s[1..] == head[1..] + pat + tail;
      FindMark(head[1..], pat, tail);
      assert s[1] == if |head| == 1 then pat[0] else head[1];
      assert |head| > 1 ==> head[..2] == s[..2];
      assert !(pat <= s) by {
        assert |head| > 1 ==> !(pat <= head);
      }
    }
  }

  lemma SliceOfSlice(s: string, from: nat, to: nat, k: nat, n: nat)
    requires from <= to <= |s| && k + n <= to - from
    ensures s[from..to][k..k + n] == s[from + k..from + k + n]
  {
    var a, b := s[from..to][k..k + n], s[from + k..from + k + n];
    assert |a| == |b| && forall j | 0 <= j < n :: a[j] == b[j];
  }

  lemma LacksPart(s: string, pat: string, from: nat, to: nat)
    requires from <= to <= |s| && Lacks(s, pat)
    ensures Lacks(s[from..to], pat)
  {
    var part := s[from..to];
    var k := Find(part, pat);
    if k >= 0 {
      SliceOfSlice(s, from, to, k, |pat|);
      FirstOccurrence(s, pat, from + k);
    }
  }

  /** What comes before the first occurrence of a mark lacks the mark. */
  lemma LacksBefore(s: string, pat: string)
    requires Find(s, pat) >= 0 && pat != ""
    ensures Lacks(s[..Find(s, pat)], pat)
  {
    var head := s[..Find(s, pat)];
    var k := Find(head, pat);
    if k >= 0 {
      assert s[k..k + |pat|] == head[k..k + |pat|];
      FirstOccurrence(s, pat, k);
    }
  }

  lemma FoundIn(s: string, pat: string)
    ensures Find(s, pat) >= 0 && pat != "" ==> pat[0] in s
  {
    var at := Find(s, pat);
    if at >= 0 && pat != "" {
      assert s[at] == s[at..at + |pat|][0];
    }
  }

  // Header blocks.

  function Line(h: Header): string {
    h.key + COLON + h.value
  }

  function Print(headers: seq<Header>): string {
    if headers == [] then "" else Line(headers[0]) + CRLF + Print(headers[1..])
  }

  function AsMap(headers: seq<Header>): map<string, string> {
    if headers == [] then map[] else
      AsMap(headers[..|headers| - 1])[headers[|headers| - 1].key := headers[|headers| - 1].value]
  }

  /** One header line; None stands for the exit on a malformed one. */
  function ParseLine(kv: string): Option<Header> {
    var at := Find(kv, COLON);
    if at < 0 then None else Some(Header(kv[..at], kv[at + 2..]))
  }

  /** The lines of a block, in order. */
  function Parse(msg: string): Option<seq<Header>>
    decreases |msg|
  {
    if msg == "" then Some([]) else
      var at := Find(msg, CRLF);
      if at < 0 then None else
        var line, rest := ParseLine(msg[..at]), Parse(msg[at + 2..]);
        if line.None? || rest.None? then None else Some([line.value] + rest.value)
  }

  predicate Clean(h: Header) {
    Lacks(h.key, COLON) && Lacks(h.key, CRLF) && Lacks(h.value, CRLF)
  }

  lemma LineParts(h: Header)
    ensures var s, n := Line(h), |h.key|;
      |s| == n + 2 + |h.value| && s[0..n] == h.key && s[n] == ':' && s[n + 1] == ' ' && s[n + 2..|s|] == h.value
  {
  }

  lemma LineLacksBreak(h: Header)
    requires Clean(h)
    ensures Lacks(Line(h), CRLF)
  {
    hide Find;
    var s, n := Line(h), |h.key|;
    var k := Find(s, CRLF);
    if k >= 0 {
      assert s[k] == s[k..k + 2][0] == '\r' && s[k + 1] == s[k..k + 2][1] == '\n';
      LineParts(h);
      if k + 2 <= n {
        SliceOfSlice(s, 0, n, k, 2);
        FirstOccurrence(h.key, CRLF, k);
      } else {
        assert k >= n + 2;
        SliceOfSlice(s, n + 2, |s|, k - n - 2, 2);
        FirstOccurrence(h.value, CRLF, k - n - 2);
      }
    }
  }

  lemma {:induction false} ParsePrint(headers: seq<Header>)
    requires forall h <- headers :: Clean(h)
    ensures Parse(Print(headers)) == Some(headers)
  {
    hide Find;
    if headers != [] {
      var h, rest := headers[0], Print(headers[1..]);
      LineLacksBreak(h);
      FindMark(Line(h), CRLF, rest);
      FindMark(h.key, COLON, h.value);
      var s := Line(h) + CRLF + rest;
      assert s[..|Line(h)|] == Line(h) && s[|Line(h)| + 2..] == rest;
      assert Line(h)[..|h.key|] == h.key && Line(h)[|h.key| + 2..] == h.value;
      ParsePrint(headers[1..]);
      assert [h] + headers[1..] == headers;
    }
  }

  /** Parsing yields clean headers only. */
  lemma {:induction false} ParsedIsClean(msg: string)
    ensures Parse(msg).Some? ==> forall h <- Parse(msg).value :: Clean(h)
    decreases |msg|
  {
    hide Find;
    if msg != "" && Find(msg, CRLF) >= 0 {
      var at := Find(msg, CRLF);
      var kv := msg[..at];
      LacksBefore(msg, CRLF);
      if Find(kv, COLON) >= 0 {
        LacksBefore(kv, COLON);
        LacksPart(kv, CRLF, 0, Find(kv, COLON));
        LacksPart(kv, CRLF, Find(kv, COLON) + 2, |kv|);
        assert kv[0..Find(kv, COLON)] == kv[..Find(kv, COLON)];
        assert kv[Find(kv, COLON) + 2..|kv|] == kv[Find(kv, COLON) + 2..];
      }
      ParsedIsClean(msg[at + 2..]);
    }
  }

  /** Parsing loses nothing: printing what was read from a block gives the block back, line by line. */
  lemma {:induction false} PrintInvertsParse(msg: string)
    ensures Parse(msg).Some? ==> Print(Parse(msg).value) == msg
    decreases |msg|
  {
    hide Find;
    if msg != "" && Find(msg, CRLF) >= 0 && ParseLine(msg[..Find(msg, CRLF)]).Some? {
      var at := Find(msg, CRLF);
      var kv, rest := msg[..at], msg[at + 2..];
      var n := Find(kv, COLON);
      PrintInvertsParse(rest);
      assert kv == kv[..n] + COLON + kv[n + 2..];
      assert msg == kv + CRLF + rest;
    }
  }

  /** A block is read without an error if and only if it is what printing clean headers yields. */
  lemma ParsesExactlyPrints(msg: string)
    ensures Parse(msg).Some? <==> exists headers :: (forall h <- headers :: Clean(h)) && Print(headers) == msg
  {
    hide Find, Parse, Print, Clean;
    if Parse(msg).Some? {
      PrintInvertsParse(msg);
      ParsedIsClean(msg);
    }
    forall headers | (forall h <- headers :: Clean(h)) && Print(headers) == msg
      ensures Parse(msg).Some?
    {
      ParsePrint(headers);
    }
  }

  /** Of several headers with one key, the last one is in the map. */
  lemma {:induction false} LaterLineWins(headers: seq<Header>, k: nat)
    requires k < |headers| && forall j | k < j < |headers| :: headers[j].key != headers[k].key
    ensures headers[k].key in AsMap(headers) && AsMap(headers)[headers[k].key] == headers[k].value
  {
    var n := |headers| - 1;
    if k < n {
      LaterLineWins(headers[..n], k);
    }
  }

  /** Printing a list of headers and parsing the block gives the list back if and only if all of them are clean. */
  lemma ParseInvertsPrint(headers: seq<Header>)
    ensures Parse(Print(headers)) == Some(headers) <==> forall h <- headers :: Clean(h)
  {
    if forall h <- headers :: Clean(h) {
      ParsePrint(headers);
    } else {
      ParsedIsClean(Print(headers));
    }
  }

  /** A key with a colon and a space in it comes back split at another place. */
  lemma UncleanHeader()
    ensures Parse(Print([Header("a: b", "c")])) == Some([Header("a", "b: c")])
  {
    var h, h' := Header("a: b", "c"), Header("a", "b: c");
    assert Line(h) == Line(h');
    assert [h][1..] == [] && [h'][1..] == [];
    assert Print([h]) == Print([h']);
    FoundIn("a", COLON);
    FoundIn("a", CRLF);
    FoundIn("b: c", CRLF);
    ParsePrint([h']);
  }

  // The map of headers, printed in whatever order it is enumerated.

  ghost predicate Enumerates(headers: seq<Header>, m: map<string, string>) {
    && (forall h <- headers :: h.key in m && m[h.key] == h.value)
    && (forall k <- m :: Header(k, m[k]) in headers)
    && (forall i, j | 0 <= i < j < |headers| :: headers[i].key != headers[j].key)
  }

  lemma {:induction false} AsMapHas(headers: seq<Header>)
    ensures forall k <- AsMap(headers) :: Header(k, AsMap(headers)[k]) in headers
    ensures forall h <- headers :: h.key in AsMap(headers)
  {
    if headers != [] {
      var n := |headers| - 1;
      AsMapHas(headers[..n]);
      assert headers == headers[..n] + [headers[n]];
    }
  }

  lemma EnumerationIsMap(headers: seq<Header>, m: map<string, string>)
    requires Enumerates(headers, m)
    ensures AsMap(headers) == m
  {
    AsMapHas(headers);
    var a := AsMap(headers);
    forall k
      ensures k in a <==> k in m
      ensures k in a ==> a[k] == m[k]
    {
      if k in a {
        assert Header(k, a[k]) in headers;
      }
      if k in m {
        assert Header(k, m[k]) in headers;
      }
    }
  }

  /** The map comes back from its printed block, for every enumeration order, exactly if its entries are clean. */
  lemma MapRoundTrip(headers: seq<Header>, m: map<string, string>)
    requires Enumerates(headers, m)
    ensures (forall k <- m :: Clean(Header(k, m[k]))) ==>
      Parse(Print(headers)).Some? && AsMap(Parse(Print(headers)).value) == m
    ensures Parse(Print(headers)).Some? && AsMap(Parse(Print(headers)).value) == m ==>
      forall k <- m :: Clean(Header(k, m[k]))
  {
    hide Print, Find;
    EnumerationIsMap(headers, m);
    if forall k <- m :: Clean(Header(k, m[k])) {
      assert forall h <- headers :: h == Header(h.key, m[h.key]);
      ParsePrint(headers);
    }
    ParsedIsClean(Print(headers));
    if Parse(Print(headers)).Some? {
      AsMapHas(Parse(Print(headers)).value);
    }
  }

  // The request head.

  datatype Request = Request(method_: string, target: string, version: string, headers: map<string, string>)

  function U16(x: int): u16 {
    x % TWO16
  }

  /** The text up to the next space, and what follows it; the position is narrowed to 16 bits. */
  function Word(line: string): (string, string) {
    var len := U16(Find(line, " "));
    (line[..Min(len, |line|)], line[Min(len + 1, |line|)..])
  }

  lemma NoSpaceBefore(line: string, word: string, rest: string)
    ensures word + " " + rest == line ==> 0 <= Find(line, " ") <= |word|
  {
    hide Find;
    if word + " " + rest == line {
      assert line[|word|..|word| + 1] == " ";
      FirstOccurrence(line, " ", |word|);
    }
  }

  lemma Narrowed(x: int)
    ensures 0 <= x < TWO16 ==> U16(x) == x
    ensures x == -1 ==> U16(x) == 0xFFFF
    ensures TWO16 <= x ==> U16(x) < x
  {
  }

  lemma SplitAt(s: string, at: nat)
    requires at < |s| && s[at..at + 1] == " "
    ensures s[..at] + " " + s[at + 1..] == s
  {
  }

  lemma WordNear(line: string)
    requires 0 <= Find(line, " ") < TWO16
    ensures var (word, rest) := Word(line); word + " " + rest == line && Lacks(word, " ")
  {
    hide Find, U16;
    var at := Find(line, " ");
    Narrowed(at);
    SplitAt(line, at);
    LacksBefore(line, " ");
  }

  lemma WordFar(line: string)
    requires Find(line, " ") < 0 || TWO16 <= Find(line, " ")
    ensures var (word, rest) := Word(line); word + " " + rest != line
    ensures Find(line, " ") < 0 && |line| < TWO16 ==> Word(line) == (line, "")
  {
    hide Find, U16, Word;
    var at := Find(line, " ");
    Narrowed(at);
    WordParts(line);
    NoSpaceBefore(line, Word(line).0, Word(line).1);
  }

  lemma WordParts(line: string)
    ensures var (word, rest), len := Word(line), U16(Find(line, " "));
      && |word| == Min(len, |line|)
      && (|line| <= len ==> word == line && rest == "")
  {
    hide Find, U16;
    assert line[..|line|] == line;
  }

  lemma WordSplits(line: string)
    ensures var (word, rest) := Word(line);
      && (word + " " + rest == line && Lacks(word, " ") <==> 0 <= Find(line, " ") < TWO16)
      && (Lacks(line, " ") && |line| < TWO16 ==> word == line && rest == "")
  {
    hide Find, Word;
    if 0 <= Find(line, " ") < TWO16 {
      WordNear(line);
    } else {
      WordFar(line);
    }
  }

  /** A word of 65536 characters is taken for an empty one, and its first character is lost. */
  lemma LongWordIsEmpty(word: string)
    requires |word| == 0x1_0000 && Lacks(word, " ")
    ensures Word(word + " " + "y") == ("", word[1..] + " " + "y")
  {
    FindSpace(word, "y");
    assert (word + " " + "y")[1..] == word[1..] + " " + "y";
  }

  /** A request line and its header block; None stands for the exit on a missing line break or a malformed header. */
  function ParseHead(head: string): Option<Request> {
    var at := Find(head, CRLF);
    if at < 0 then None else
    var (method_, afterMethod) := Word(head[..at]);
    var (target, version) := Word(afterMethod);
    var block := head[at + 2..];
    if block == "" then Some(Request(method_, target, version, map[])) else
      var headers := Parse(block);
      if headers.None? then None else Some(Request(method_, target, version, AsMap(headers.value)))
  }

  /** The head of a text that has a blank line: everything up to it, with the last line break. */
  function Head(text: string): string
    requires Find(text, BLANK) >= 0
  {
    text[..Find(text, BLANK) + 2]
  }

  /** The exit on a head without any line break is never taken. */
  lemma HeadHasBreak(text: string)
    requires Find(text, BLANK) >= 0
    ensures Find(Head(text), CRLF) >= 0
  {
    hide Find;
    var at := Find(text, BLANK);
    assert text[at..at + 4] == BLANK;
    SliceOfSlice(text, at, at + 4, 0, 2);
    SliceOfSlice(text, 0, at + 2, at, 2);
    assert text[0..at + 2] == Head(text) && text[at..at + 4][0..2] == CRLF;
    FirstOccurrence(Head(text), CRLF, at);
  }

  datatype Outcome =
    | Obtained(request: Request)
    | Closed
    | Crashed

  function Join(chunks: seq<string>): string {
    if chunks == [] then "" else chunks[0] + Join(chunks[1..])
  }

  /** What receiving yields: how many chunks are needed, the outcome, and what stays in the buffer. */
  function Obtaining(buff: string, chunks: seq<string>): (r: (Outcome, string, nat))
    ensures r.2 <= |chunks|
    decreases |chunks|
  {
    if chunks == [] then (Closed, buff, 0) else
      var b := buff + chunks[0];
      if Find(b, BLANK) < 0 then
        var (o, left, used) := Obtaining(b, chunks[1..]);
        (o, left, used + 1)
      else
        var request := ParseHead(Head(b));
        (if request.None? then Crashed else Obtained(request.value), b[Find(b, BLANK) + 2..], 1)
  }

  /**
   * The request depends only on the bytes up to the first blank line, not on how they arrive in pieces; nothing after
   * it is lost. A request that is in the buffer already is seen only when something more arrives: with nothing more,
   * the connection counts as closed.
   */
  lemma {:induction false} ChunksDoNotMatter(buff: string, chunks: seq<string>)
    requires Find(buff + Join(chunks), BLANK) >= 0
    ensures chunks == [] ==> Obtaining(buff, chunks) == (Closed, buff, 0)
    ensures chunks != [] ==>
      var text := buff + Join(chunks); var (o, left, used) := Obtaining(buff, chunks);
      && o == (if ParseHead(Head(text)).None? then Crashed else Obtained(ParseHead(Head(text)).value))
      && left + Join(chunks[used..]) == text[Find(text, BLANK) + 2..]
    decreases |chunks|
  {
    hide Find, ParseHead;
    var text := buff + Join(chunks);
    if chunks != [] {
      var b, later := buff + chunks[0], Join(chunks[1..]);
      assert text == b + later;
      if Find(b, BLANK) < 0 {
        assert chunks[1..] == [] ==> text == b;
        ChunksDoNotMatter(b, chunks[1..]);
        var used := Obtaining(b, chunks[1..]).2;
        assert chunks[1..][used..] == chunks[used + 1..];
      } else {
        FindStable(b, later, BLANK);
        assert Head(text) == Head(b);
        assert b[Find(b, BLANK) + 2..] + later == text[Find(b, BLANK) + 2..];
      }
    }
  }

  // Printed requests.

  function PrintRequest(r: Request, headers: seq<Header>): string {
    r.method_ + " " + r.target + " " + r.version + CRLF + Print(headers) + CRLF
  }

  predicate CleanRequest(r: Request) {
    && Lacks(r.method_, " ") && Lacks(r.target, " ") && |r.method_| < TWO16 && |r.target| < TWO16
    && Lacks(r.method_ + " " + r.target + " " + r.version, CRLF)
  }

  lemma {:induction false} FindSpace(head: string, tail: string)
    requires Lacks(head, " ")
    ensures Find(head + " " + tail, " ") == |head|
  {
    var s := head + " " + tail;
    if head != "" {
      assert s[1..] == head[1..] + " " + tail;
      assert s[..1] == head[..1];
      FindSpace(head[1..], tail);
    }
  }

  lemma PastBreak(tail: string)
    ensures var s := CRLF + tail;
      if CRLF <= tail then Find(s, BLANK) == 0
      else if Find(tail, BLANK) < 0 then Find(s, BLANK) < 0 else Find(s, BLANK) == 2 + Find(tail, BLANK)
  {
    var s := CRLF + tail;
    BlankInFront(tail);
    assert s[1..] == "\n" + tail && s[1..][1..] == tail;
    assert ("\n" + tail)[0] == '\n';
  }

  lemma BlankInFront(tail: string)
    ensures CRLF <= tail <==> BLANK <= CRLF + tail
  {
    hide Find;
    var s := CRLF + tail;
    assert BLANK == CRLF + CRLF;
    if CRLF <= tail {
      assert tail == CRLF + tail[2..];
      assert s == BLANK + tail[2..];
    }
    if BLANK <= s {
      assert s == BLANK + s[4..];
      assert tail == s[2..] == CRLF + s[4..];
    }
  }

  /** A text that does not start with the pattern is searched from its second character on. */
  lemma FindLater(s: string, pat: string)
    requires s != "" && !(pat <= s)
    ensures Find(s, pat) == if Find(s[1..], pat) < 0 then -1 else Find(s[1..], pat) + 1
  {
  }

  lemma LacksTail(s: string, pat: string)
    requires s != "" && Lacks(s, pat)
    ensures !(pat <= s) && Lacks(s[1..], pat)
  {
  }

  /** A line that is not followed by an empty line is passed over in the search for the blank line. */
  lemma {:induction false} PastLine(line: string, tail: string)
    requires Lacks(line, CRLF)
    ensures var s := line + CRLF + tail;
      if CRLF <= tail then Find(s, BLANK) == |line|
      else if Find(tail, BLANK) < 0 then Find(s, BLANK) < 0 else Find(s, BLANK) == |line| + 2 + Find(tail, BLANK)
  {
    hide Find, Lacks;
    var s := line + CRLF + tail;
    if line == "" {
      assert s == CRLF + tail;
      PastBreak(tail);
    } else {
      assert s[1..] == line[1..] + CRLF + tail;
      LacksTail(line, CRLF);
      PastLine(line[1..], tail);
      assert s[1] == if |line| == 1 then '\r' else line[1];
      assert |line| > 1 ==> line[..2] == s[..2];
      assert s[..2] != CRLF && BLANK[..2] == CRLF;
      FindLater(s, BLANK);
    }
  }

  lemma {:induction false} BlankAfterHeaders(headers: seq<Header>, rest: string)
    requires forall h <- headers :: Clean(h)
    ensures var s := Print(headers) + CRLF + rest;
      if headers == [] then CRLF <= s else Find(s, BLANK) == |Print(headers)| - 2 && !(CRLF <= s)
  {
    hide Find, Clean, Print;
    PrintSplits(headers, rest);
    if headers != [] {
      var h, tail := headers[0], Print(headers[1..]) + CRLF + rest;
      LineLacksBreak(h);
      PastLine(Line(h), tail);
      BlankAfterHeaders(headers[1..], rest);
      PrintSplits(headers[1..], rest);
      NotABreak(h, CRLF + tail);
    }
  }

  lemma PrintSplits(headers: seq<Header>, rest: string)
    ensures headers == [] ==> Print(headers) == "" && CRLF <= Print(headers) + CRLF + rest
    ensures headers != [] ==>
      var h, tail := headers[0], Print(headers[1..]) + CRLF + rest;
      && Print(headers) + CRLF + rest == Line(h) + CRLF + tail == Line(h) + (CRLF + tail)
      && |Print(headers)| == |Line(h)| + 2 + |Print(headers[1..])|
      && |Print(headers)| >= 4
  {
    hide Find;
    if headers == [] {
      assert ("" + CRLF + rest)[..2] == CRLF;
    } else {
      var h, more := headers[0], Print(headers[1..]);
      Grouped(Line(h), more, rest);
      assert |Line(h)| >= 2;
      hide Line;
    }
  }

  lemma Grouped(a: string, b: string, c: string)
    ensures (a + CRLF + b) + CRLF + c == a + CRLF + (b + CRLF + c) == a + (CRLF + (b + CRLF + c))
  {
  }

  lemma NotABreak(h: Header, more: string)
    requires Clean(h)
    ensures !(CRLF <= Line(h) + more)
  {
    var s := Line(h) + more;
    if |h.key| >= 2 {
      assert h.key[..2] == s[..2];
    } else if |h.key| == 1 {
      assert s[1] == ':';
    } else {
      assert s[0] == ':';
    }
  }

  lemma WordOf(word: string, tail: string)
    requires Lacks(word, " ") && |word| < TWO16
    ensures Word(word + " " + tail) == (word, tail)
  {
    var s := word + " " + tail;
    FindSpace(word, tail);
    assert s[..|word|] == word && s[|word| + 1..] == tail;
  }

  lemma HeadOfRequest(line: string, headers: seq<Header>, rest: string)
    requires Lacks(line, CRLF) && forall h <- headers :: Clean(h)
    ensures var text := line + CRLF + (Print(headers) + CRLF + rest);
      && Find(text, BLANK) == |line| + |Print(headers)|
      && Head(text) == line + CRLF + Print(headers)
      && text[Find(text, BLANK) + 2..] == CRLF + rest
  {
    hide Find, Print, Clean, Lacks;
    var tail := Print(headers) + CRLF + rest;
    var text := line + CRLF + tail;
    PastLine(line, tail);
    BlankAfterHeaders(headers, rest);
    PrintSplits(headers, rest);
    var at := |line| + |Print(headers)|;
    assert text == (line + CRLF + Print(headers)) + (CRLF + rest);
    assert text[..at + 2] == line + CRLF + Print(headers);
    assert text[at + 2..] == CRLF + rest;
  }

  ghost predicate AllFieldsClean(r: Request) {
    CleanRequest(r) && forall k <- r.headers :: Clean(Header(k, r.headers[k]))
  }

  /**
   * A printed request is recovered, whatever follows it and in whatever order its headers come, exactly if it is
   * clean.
   */
  lemma RequestRoundTrip(r: Request, headers: seq<Header>, rest: string)
    requires Enumerates(headers, r.headers)
    ensures var text := PrintRequest(r, headers) + rest;
      && Find(text, BLANK) >= 0
      && (ParseHead(Head(text)) == Some(r) <==> AllFieldsClean(r))
      && (AllFieldsClean(r) ==> text[Find(text, BLANK) + 2..] == CRLF + rest)
  {
    hide Find, Print, Clean, AsMap, Parse, Lacks, ParseHead, Head, Enumerates, CleanRequest;
    var line := r.method_ + " " + r.target + " " + r.version;
    var text := PrintRequest(r, headers) + rest;
    assert text == line + CRLF + (Print(headers) + CRLF + rest);
    HasBlank(line, headers, rest);
    ParsedRequestIsClean(Head(text));
    if AllFieldsClean(r) {
      LineIsClean(r);
      AllClean(headers, r.headers);
      HeadOfRequest(line, headers, rest);
      ParsesHead(r, headers);
    }
  }

  lemma LineIsClean(r: Request)
    requires CleanRequest(r)
    ensures Lacks(r.method_ + " " + r.target + " " + r.version, CRLF)
  {
  }

  lemma {:induction false} PrintEnds(headers: seq<Header>)
    requires headers != []
    ensures |Print(headers)| >= 2 && Print(headers)[|Print(headers)| - 2..] == CRLF
  {
    var more := Print(headers[1..]);
    if headers[1..] == [] {
      assert Print(headers) == Line(headers[0]) + CRLF;
    } else {
      PrintEnds(headers[1..]);
      assert Print(headers)[|Print(headers)| - 2..] == more[|more| - 2..];
    }
  }

  lemma HasBlank(line: string, headers: seq<Header>, rest: string)
    ensures Find(line + CRLF + (Print(headers) + CRLF + rest), BLANK) >= 0
  {
    hide Find, Print;
    var block := Print(headers);
    var text, at := line + CRLF + (block + CRLF + rest), |line| + |block|;
    if headers == [] {
      PrintSplits(headers, rest);
    } else {
      PrintEnds(headers);
      assert block == block[..|block| - 2] + CRLF;
    }
    assert BLANK == CRLF + CRLF;
    assert text[at + 2..at + 4] == CRLF;
    assert text[at..at + 2] == CRLF;
    assert text[at..at + 4] == text[at..at + 2] + text[at + 2..at + 4];
    FirstOccurrence(text, BLANK, at);
  }

  // Whatever is parsed has clean fields.

  lemma WordIsClean(line: string)
    ensures Lacks(Word(line).0, " ") && |Word(line).0| < TWO16
    ensures Lacks(line, CRLF) ==> Lacks(Word(line).0, CRLF) && Lacks(Word(line).1, CRLF)
  {
    hide Find, U16, Lacks;
    var at := Find(line, " ");
    Narrowed(at);
    var to := Min(U16(at), |line|);
    assert line[0..to] == line[..to];
    SpaceFree(line, to);
    if Lacks(line, CRLF) {
      var from := Min(U16(at) + 1, |line|);
      LacksPart(line, CRLF, 0, to);
      LacksPart(line, CRLF, from, |line|);
      assert line[from..|line|] == line[from..];
    }
  }

  lemma SpaceFree(line: string, to: nat)
    requires to <= |line| && (Find(line, " ") < 0 || to <= Find(line, " "))
    ensures Lacks(line[..to], " ")
  {
    hide Find;
    var k := Find(line[..to], " ");
    if k >= 0 {
      assert line[k..k + 1] == line[..to][k..k + 1];
      FirstOccurrence(line, " ", k);
    }
  }

  lemma SpacedLacksBreak(a: string, b: string)
    requires Lacks(a, CRLF) && Lacks(b, CRLF)
    ensures Lacks(a + " " + b, CRLF)
  {
    hide Find;
    var s, n := a + " " + b, |a|;
    var k := Find(s, CRLF);
    if k >= 0 {
      assert s[k] == s[k..k + 2][0] == '\r' && s[k + 1] == s[k..k + 2][1] == '\n';
      assert s[0..n] == a && s[n] == ' ' && s[n + 1..|s|] == b;
      if k + 2 <= n {
        SliceOfSlice(s, 0, n, k, 2);
        FirstOccurrence(a, CRLF, k);
      } else {
        SliceOfSlice(s, n + 1, |s|, k - n - 1, 2);
        FirstOccurrence(b, CRLF, k - n - 1);
      }
    }
  }

  lemma ParsedRequestIsClean(head: string)
    ensures ParseHead(head).Some? ==> AllFieldsClean(ParseHead(head).value)
  {
    hide Find, Parse, AsMap, Clean, Lacks, Word;
    if ParseHead(head).Some? {
      var line := head[..Find(head, CRLF)];
      BreakFound(head);
      var (method_, after) := Word(line);
      WordIsClean(line);
      WordIsClean(after);
      SpacedLacksBreak(method_, Word(after).0);
      SpacedLacksBreak(method_ + " " + Word(after).0, Word(after).1);
      var r, block := ParseHead(head).value, head[Find(head, CRLF) + 2..];
      assert r.method_ == method_ && r.target == Word(after).0 && r.version == Word(after).1;
      HeadersClean(block);
      assert r.headers == if block == "" then map[] else AsMap(Parse(block).value);
    }
  }

  lemma BreakFound(head: string)
    ensures Find(head, CRLF) >= 0 ==> Lacks(head[..Find(head, CRLF)], CRLF)
  {
    hide Find;
    if Find(head, CRLF) >= 0 {
      LacksBefore(head, CRLF);
    }
  }

  lemma HeadersClean(block: string)
    ensures Parse(block).Some? ==> var m := AsMap(Parse(block).value); forall k <- m :: Clean(Header(k, m[k]))
  {
    hide Find, Parse, AsMap, Clean;
    ParsedIsClean(block);
    if Parse(block).Some? {
      AsMapHas(Parse(block).value);
    }
  }

  /**
   * However the bytes of a printed request, and of what follows it, arrive: it is obtained, with exactly what follows
   * its headers left in the buffer, if and only if its fields are clean.
   */
  lemma RequestReceived(r: Request, headers: seq<Header>, rest: string, buff: string, chunks: seq<string>)
    requires Enumerates(headers, r.headers) && chunks != []
    requires buff + Join(chunks) == PrintRequest(r, headers) + rest
    ensures var (o, left, used) := Obtaining(buff, chunks);
      && (o == Obtained(r) <==> AllFieldsClean(r))
      && (AllFieldsClean(r) ==> left + Join(chunks[used..]) == CRLF + rest)
  {
    hide Find, ParseHead, Head, Enumerates, AllFieldsClean, Obtaining, PrintRequest, Join;
    var text := buff + Join(chunks);
    RequestRoundTrip(r, headers, rest);
    ChunksDoNotMatter(buff, chunks);
    assert text == PrintRequest(r, headers) + rest;
  }

  lemma AllClean(headers: seq<Header>, m: map<string, string>)
    requires Enumerates(headers, m) && forall k <- m :: Clean(Header(k, m[k]))
    ensures forall h <- headers :: Clean(h)
  {
  }

  lemma ParsesHead(r: Request, headers: seq<Header>)
    requires CleanRequest(r) && Enumerates(headers, r.headers) &&
      forall k <- r.headers :: Clean(Header(k, r.headers[k]))
    ensures var head := r.method_ + " " + r.target + " " + r.version + CRLF + Print(headers);
      ParseHead(head) == Some(r)
  {
    hide Find, Print, Clean, AsMap, Parse, Lacks, Enumerates, Word;
    var line := r.method_ + " " + r.target + " " + r.version;
    var head := line + CRLF + Print(headers);
    FindMark(line, CRLF, Print(headers));
    assert head[..|line|] == line && head[|line| + 2..] == Print(headers);
    RequestLine(r);
    MapRoundTrip(headers, r.headers);
    EmptyBlock(headers, r.headers);
  }

  lemma RequestLine(r: Request)
    requires CleanRequest(r)
    ensures var (m, after) := Word(r.method_ + " " + r.target + " " + r.version);
      m == r.method_ && Word(after) == (r.target, r.version)
  {
    hide Word;
    assert r.method_ + " " + r.target + " " + r.version == r.method_ + " " + (r.target + " " + r.version);
    WordOf(r.method_, r.target + " " + r.version);
    WordOf(r.target, r.version);
  }

  lemma EmptyBlock(headers: seq<Header>, m: map<string, string>)
    requires Enumerates(headers, m)
    ensures Print(headers) == "" ==> m == map[]
  {
  }

  function PrintResponse(version: string, code: string, state: string, headers: seq<Header>, data: string): string {
    version + " " + code + " " + state + CRLF + Print(headers) + CRLF + data
  }

  /**
   * What a reader of a response finds: the three words of its first line, the headers in their order up to the blank
   * line, and behind that the data.
   */
  predicate ReadsAs(text: string, version: string, code: string, state: string, headers: seq<Header>, data: string) {
    Find(text, BLANK) >= 0 &&
    var head := Head(text);
    var at := Find(head, CRLF);
    at >= 0 &&
    var (first, others) := Word(head[..at]);
    && first == version && Word(others) == (code, state)
    && Parse(head[at + 2..]) == Some(headers)
    && text[Find(text, BLANK) + 4..] == data
  }

  ghost predicate CleanResponse(version: string, code: string, state: string, headers: seq<Header>) {
    CleanRequest(Request(version, code, state, map[])) && forall h <- headers :: Clean(h)
  }

  /** A printed response is read as what it was printed from, data with line breaks included, exactly if it is clean. */
  lemma ResponseRoundTrip(version: string, code: string, state: string, headers: seq<Header>, data: string)
    ensures ReadsAs(PrintResponse(version, code, state, headers, data), version, code, state, headers, data)
      <==> CleanResponse(version, code, state, headers)
  {
    hide ReadsAs, CleanResponse;
    if CleanResponse(version, code, state, headers) {
      CleanReadsBack(version, code, state, headers, data);
    }
    ReadIsClean(PrintResponse(version, code, state, headers, data), version, code, state, headers, data);
  }

  lemma CleanReadsBack(version: string, code: string, state: string, headers: seq<Header>, data: string)
    requires CleanResponse(version, code, state, headers)
    ensures ReadsAs(PrintResponse(version, code, state, headers, data), version, code, state, headers, data)
  {
    hide Find, Print, Clean, Parse, Lacks, Word, CleanRequest;
    var r := Request(version, code, state, map[]);
    var line := version + " " + code + " " + state;
    var text := PrintResponse(version, code, state, headers, data);
    assert text == line + CRLF + (Print(headers) + CRLF + data);
    LineIsClean(r);
    HeadOfRequest(line, headers, data);
    FindMark(line, CRLF, Print(headers));
    var head := line + CRLF + Print(headers);
    assert head[..|line|] == line && head[|line| + 2..] == Print(headers);
    RequestLine(r);
    ParsePrint(headers);
    assert text[Find(text, BLANK) + 4..] == text[Find(text, BLANK) + 2..][2..] == data;
  }

  lemma ReadIsClean(text: string, version: string, code: string, state: string, headers: seq<Header>, data: string)
    ensures ReadsAs(text, version, code, state, headers, data) ==> CleanResponse(version, code, state, headers)
  {
    hide Find, AsMap, Clean, Parse, Lacks, Word, CleanRequest;
    if ReadsAs(text, version, code, state, headers, data) {
      var head := Head(text);
      var block := head[Find(head, CRLF) + 2..];
      ParseNothing("");
      ParsedRequestIsClean(head);
      ParsedIsClean(block);
      SameLine(ParseHead(head).value, Request(version, code, state, map[]));
    }
  }

  lemma SameLine(r: Request, q: Request)
    requires CleanRequest(r) && q == r.(headers := q.headers)
    ensures CleanRequest(q)
  {
  }

  lemma {:induction false} PrintLast(headers: seq<Header>, h: Header)
    ensures Print(headers + [h]) == Print(headers) + Line(h) + CRLF
  {
    if headers == [] {
      assert [] + [h] == [h] && [h][1..] == [];
      assert Line(h) + CRLF + "" == "" + Line(h) + CRLF;
    } else {
      assert (headers + [h])[1..] == headers[1..] + [h];
      PrintLast(headers[1..], h);
      var first := Line(headers[0]) + CRLF;
      assert first + (Print(headers[1..]) + Line(h) + CRLF) == (first + Print(headers[1..])) + Line(h) + CRLF;
    }
  }

  /** What parsing a whole block gives, once its first lines have been read. */
  function Prepend(done: seq<Header>, rest: Option<seq<Header>>): Option<seq<Header>> {
    if rest.None? then None else Some(done + rest.value)
  }

  lemma ParseNothing(msg: string)
    ensures Prepend([], Parse(msg)) == Parse(msg) && Parse("") == Some([]) && AsMap([]) == map[]
  {
    if Parse(msg).Some? {
      assert [] + Parse(msg).value == Parse(msg).value;
    }
  }

  lemma ParseStops(msg: string)
    requires msg != ""
    ensures Find(msg, CRLF) < 0 || Find(msg[..Find(msg, CRLF)], COLON) < 0 ==> Parse(msg).None?
  {
  }

  lemma ParseStep(msg: string, done: seq<Header>)
    requires msg != "" && Find(msg, CRLF) >= 0 && Find(msg[..Find(msg, CRLF)], COLON) >= 0
    ensures var at := Find(msg, CRLF); var kv := msg[..at];
      var h := Header(kv[..Find(kv, COLON)], kv[Find(kv, COLON) + 2..]);
      && Prepend(done, Parse(msg)) == Prepend(done + [h], Parse(msg[at + 2..]))
      && AsMap(done + [h]) == AsMap(done)[h.key := h.value]
  {
    hide Find;
    var at := Find(msg, CRLF);
    var h, rest := ParseLine(msg[..at]).value, Parse(msg[at + 2..]);
    assert (done + [h])[..|done|] == done;
    if rest.Some? {
      assert done + ([h] + rest.value) == (done + [h]) + rest.value;
    }
  }

  class HttpMessageCodec {
    var buff: string

    /** Receives until the blank line is there, and takes the request head off the buffer. */
    method Obtain(chunks: seq<string>) returns (o: Outcome, used: nat)
      modifies this
      ensures (o, buff, used) == Obtaining(old(buff), chunks)
    {
      hide Find, ParseHead;
      used := 0;
      ghost var goal := Obtaining(buff, chunks);
      while true
        invariant used <= |chunks|
        invariant var (o', left, more) := Obtaining(buff, chunks[used..]); (o', left, used + more) == goal
        decreases |chunks| - used
      {
        if used == |chunks| {
          return Closed, used;
        }
        assert chunks[used..][1..] == chunks[used + 1..];
        buff := buff + chunks[used];
        used := used + 1;
        if Find(buff, BLANK) >= 0 {
          break;
        }
      }
      var reqAndHeader := buff[..Find(buff, BLANK) + 2];
      buff := buff[Find(buff, BLANK) + 2..];
      var request := ReadHead(reqAndHeader);
      o := if request.None? then Crashed else Obtained(request.value);
    }

    /** The request line, then the headers if there are any. */
    static method ReadHead(head: string) returns (r: Option<Request>)
      ensures r == ParseHead(head)
    {
      hide Find, Parse, AsMap, Word;
      var lineLen := Find(head, CRLF);
      if lineLen < 0 {
        return None;
      }
      var requestLine, header := head[..lineLen], head[lineLen + 2..];
      var method_, target;
      method_, requestLine := TakeWord(requestLine);
      target, requestLine := TakeWord(requestLine);
      if header == "" {
        return Some(Request(method_, target, requestLine, map[]));
      }
      var headers := GetHeader(header);
      if headers.None? {
        return None;
      }
      r := Some(Request(method_, target, requestLine, headers.value));
    }

    /** Splits at the first space, and loses nothing, exactly if that space comes within the first 65536 characters. */
    static method TakeWord(line: string) returns (word: string, rest: string)
      ensures word + " " + rest == line && Lacks(word, " ") <==> 0 <= Find(line, " ") < TWO16
      ensures Lacks(line, " ") && |line| < TWO16 ==> word == line && rest == ""
      ensures (word, rest) == Word(line)
    {
      WordSplits(line);
      var len: int := U16(Find(line, " "));
      word, rest := line[..Min(len, |line|)], line[Min(len + 1, |line|)..];
    }

    /** Reads a header block line by line into a map; later lines win. */
    static method GetHeader(msg0: string) returns (r: Option<map<string, string>>)
      ensures r == if Parse(msg0).None? then None else Some(AsMap(Parse(msg0).value))
    {
      hide Find, Parse, AsMap;
      ParseNothing(msg0);
      var msg, ret := msg0, map[];
      ghost var done: seq<Header> := [];
      while msg != ""
        invariant ret == AsMap(done) && Prepend(done, Parse(msg)) == Parse(msg0)
        decreases |msg|
      {
        ParseStops(msg);
        var kvLen := Find(msg, CRLF);
        if kvLen < 0 {
          return None;
        }
        var kv := msg[..kvLen];
        ghost var before := msg;
        msg := msg[kvLen + 2..];
        var keyLen := Find(kv, COLON);
        if keyLen < 0 {
          return None;
        }
        var key, value := kv[..keyLen], kv[keyLen + 2..];
        ret := ret[key := value];
        ParseStep(before, done);
        done := done + [Header(key, value)];
      }
      ParseNothing(msg0);
      assert done + [] == done;
      r := Some(ret);
    }

    /** Prints a response, the headers in the order in which the map is enumerated. */
    static method Serialize(version: string, code: string, state: string, headers: seq<Header>,
                            data: string) returns (s: string)
      ensures ReadsAs(s, version, code, state, headers, data) <==> CleanResponse(version, code, state, headers)
      ensures s == PrintResponse(version, code, state, headers, data)
    {
      hide ReadsAs, CleanResponse;
      var header := "";
      for i := 0 to |headers|
        invariant header == Print(headers[..i])
      {
        assert headers[..i + 1] == headers[..i] + [headers[i]];
        PrintLast(headers[..i], headers[i]);
        header := header + (headers[i].key + ": " + headers[i].value + "\r\n");
        assert header == Print(headers[..i]) + Line(headers[i]) + CRLF;
      }
      assert headers[..|headers|] == headers;
      s := version + " " + code + " " + state + "\r\n" + header + "\r\n" + data;
      ResponseRoundTrip(version, code, state, headers, data);
    }
  }
}
