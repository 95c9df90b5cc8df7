/** Length-prefixed frames: a decimal length, a line break, the payload, a line break. JSON is not modelled. */
module Frames {
  import opened MachineInts

  datatype Option<T> = None | Some(value: T)

  const CRLF: string := "\r\n"

  // Decimal numbers.

  predicate IsDigit(c: char) {
    '0' <= c <= '9'
  }

  function DigitChar(d: nat): char
    requires d < 10
  {
    '0' + d as char
  }

  function ToString(n: nat): (s: string)
    ensures s != "" && forall c <- s :: IsDigit(c)
  {
    if n < 10 then [DigitChar(n)] else ToString(n / 10) + [DigitChar(n % 10)]
  }

  /** The value of a run of digits, most significant first. */
  function Value(digits: string): nat
    requires forall c <- digits :: IsDigit(c)
  {
    if digits == "" then 0 else
      var last := digits[|digits| - 1];
      assert last in digits && IsDigit(last);
      10 * Value(digits[..|digits| - 1]) + (last as int - '0' as int)
  }

  function DigitRun(s: string): (r: string)
    ensures forall c <- r :: IsDigit(c)
  {
    if s != "" && IsDigit(s[0]) then [s[0]] + DigitRun(s[1..]) else ""
  }

  predicate IsSpace(c: char) {
    c == ' ' || ('\t' <= c <= '\r')
  }

  function SkipSpaces(s: string): string {
    if s != "" && IsSpace(s[0]) then SkipSpaces(s[1..]) else s
  }

  /** `std::stoi`: leading white space, a sign, digits up to the first other character; it throws otherwise. */
  function Stoi(s: string): Option<int> {
    var t := SkipSpaces(s);
    var negative := t != "" && t[0] == '-';
    var u := if t != "" && (t[0] == '-' || t[0] == '+') then t[1..] else t;
    var digits := DigitRun(u);
    if digits == "" then None else
      var v: int := if negative then 0 - Value(digits) else Value(digits);
      if -TWO31 <= v < TWO31 then Some(v) else None
  }

  lemma {:induction false} ValueToString(n: nat)
    ensures Value(ToString(n)) == n
  {
    var s := ToString(n);
    if n < 10 {
      assert s[..0] == "";
    } else {
      ValueToString(n / 10);
      assert s[..|s| - 1] == ToString(n / 10);
    }
  }

  lemma {:induction false} DigitRunAll(s: string)
    requires forall c <- s :: IsDigit(c)
    ensures DigitRun(s) == s
  {
    if s != "" {
      assert s[0] in s;
      assert forall c <- s[1..] :: c in s;
      DigitRunAll(s[1..]);
    }
  }

  /** Reading back a printed number gives the number, as long as it is an `int`. */
  lemma StoiToString(n: nat)
    ensures Stoi(ToString(n)) == if n < TWO31 then Some(n) else None
  {
    var s := ToString(n);
    ValueToString(n);
    DigitRunAll(s);
    assert IsDigit(s[0]) by { assert s[0] in s; }
  }

  lemma {:induction false} SkipAll(spaces: string, s: string)
    requires (forall c <- spaces :: IsSpace(c)) && (s == "" || !IsSpace(s[0]))
    ensures SkipSpaces(spaces + s) == s
  {
    if spaces == "" {
      assert spaces + s == s;
    } else {
      assert (spaces + s)[0] == spaces[0] && (spaces + s)[1..] == spaces[1..] + s && spaces[0] in spaces;
      SkipAll(spaces[1..], s);
    }
  }

  lemma {:induction false} DigitRunStops(s: string, tail: string)
    requires (forall c <- s :: IsDigit(c)) && (tail == "" || !IsDigit(tail[0]))
    ensures DigitRun(s + tail) == s
  {
    if s == "" {
      assert s + tail == tail;
    } else {
      assert (s + tail)[0] == s[0] && (s + tail)[1..] == s[1..] + tail && s[0] in s;
      DigitRunStops(s[1..], tail);
    }
  }

  /**
   * White space in front and anything but a digit behind a number do not matter; a sign does, and so does the range.
   */
  lemma StoiReads(spaces: string, sign: string, n: nat, tail: string)
    requires (forall c <- spaces :: IsSpace(c)) && sign in {"", "+", "-"} && (tail == "" || !IsDigit(tail[0]))
    ensures var v: int := if sign == "-" then 0 - n else n;
      Stoi(spaces + (sign + (ToString(n) + tail))) == if -TWO31 <= v < TWO31 then Some(v) else None
  {
    hide ToString, Value, DigitRun, SkipSpaces;
    var digits := ToString(n);
    var t := sign + (digits + tail);
    assert digits[0] in digits && IsDigit(digits[0]);
    assert t[0] == (if sign == "" then digits[0] else sign[0]) && !IsSpace(t[0]);
    SkipAll(spaces, t);
    assert sign != "" ==> t[1..] == digits + tail;
    assert sign == "" ==> t == digits + tail;
    DigitRunStops(digits, tail);
    ValueToString(n);
  }

  // Frames.

  function Frame(payload: string): string {
    ToString(|payload|) + CRLF + payload + CRLF
  }

  /** `find_first_of("\r\n")`: the first of either character; the length of the string when there is none. */
  function Delimiter(s: string): (i: nat)
    ensures i <= |s|
    ensures forall k | 0 <= k < i :: s[k] != '\r' && s[k] != '\n'
    ensures i < |s| ==> s[i] == '\r' || s[i] == '\n'
  {
    if s == "" || s[0] == '\r' || s[0] == '\n' then 0 else 1 + Delimiter(s[1..])
  }

  function Substr(s: string, from: nat, len: nat): string
    requires from <= |s|
  {
    s[from..Min(from + len, |s|)]
  }

  /** Narrowing to `uint16_t`. */
  function U16(x: int): u16 {
    x % TWO16
  }

  /** The payload of a whole message; None stands for an exception. */
  function Deserialize(msg: string): Option<string> {
    var found := Delimiter(msg);
    var area := U16(if found < |msg| then found else -1);
    var number := Stoi(Substr(msg, 0, area));
    if number.None? || area + 2 > |msg| then None
    else Some(Substr(msg, area + 2, U16(number.value)))
  }

  datatype Attempt =
    | Wait                                   // not enough bytes yet
    | Crash                                  // an exception
    | Got(payload: string, rest: string)

  /** One look at the buffer; the comparison is unsigned and wraps around below zero. */
  function Take(buff: string): Attempt
    requires |buff| < TWO64
  {
    var found := Delimiter(buff);
    if found == |buff| then Wait else
      var number := Stoi(buff[..found]);
      if number.None? then Crash else
        var area, n := U16(found), U16(number.value);
        if Sub64(Sub64(|buff|, area), 4) < n then Wait else
          var len := U16(area + 2 + n + 2);
          var payload := Deserialize(Substr(buff, 0, len));
          if payload.None? then Crash else Got(payload.value, buff[Min(len, |buff|)..])
  }

  lemma {:induction false} DelimiterAt(head: string, tail: string)
    requires forall c <- head :: c != '\r' && c != '\n'
    requires tail != "" && (tail[0] == '\r' || tail[0] == '\n')
    ensures Delimiter(head + tail) == |head|
  {
    var i := Delimiter(head + tail);
    assert (head + tail)[|head|] == tail[0];
    assert forall k | 0 <= k < |head| :: (head + tail)[k] == head[k] && head[k] in head;
  }

  lemma DigitsNoDelimiter(s: string)
    requires forall c <- s :: IsDigit(c)
    ensures forall c <- s :: c != '\r' && c != '\n'
  {
  }

  /** What a frame at the front of a buffer looks like to the reader. */
  lemma FrameShape(payload: string, rest: string)
    ensures var s, d := Frame(payload) + rest, ToString(|payload|);
      && Delimiter(s) == |d| && s[..|d|] == d
      && |s| == |d| + 4 + |payload| + |rest|
      && s[|d| + 2..|d| + 2 + |payload|] == payload
      && s[|d| + 4 + |payload|..] == rest
  {
    var d := ToString(|payload|);
    DigitsNoDelimiter(d);
    assert Frame(payload) + rest == d + (CRLF + payload + CRLF + rest);
    DelimiterAt(d, CRLF + payload + CRLF + rest);
  }

  lemma {:induction false} FewDigits(n: nat)
    ensures |ToString(n)| <= n + 1 && (n < 0x1_0000 ==> |ToString(n)| <= 5)
  {
    if n >= 10 {
      FewDigits(n / 10);
      SmallDigits(n / 10);
    }
  }

  lemma SmallDigits(n: nat)
    ensures n < 10 ==> |ToString(n)| == 1
    ensures n < 100 ==> |ToString(n)| <= 2
    ensures n < 1000 ==> |ToString(n)| <= 3
    ensures n < 10000 ==> |ToString(n)| <= 4
  {
  }

  /** A frame of at most 65535 bytes is taken whole, with exactly what follows it left in the buffer. */
  lemma TakeFrame(payload: string, rest: string)
    requires |Frame(payload)| <= 0xFFFF && |rest| < TWO63
    ensures Take(Frame(payload) + rest) == Got(payload, rest)
  {
    hide Stoi, ToString, Delimiter, Frame, Take, Deserialize;
    var s, d := Frame(payload) + rest, ToString(|payload|);
    FrameShape(payload, rest);
    StoiToString(|payload|);
    FrameLength(payload);
    TakeAt(s, |d|, |payload|);
    WholeFrame(payload, rest);
    DeserializeFrame(payload);
  }

  /** The check and the cut, once delimiter and length are known and nothing wraps around. */
  lemma TakeAt(buff: string, found: nat, n: nat)
    requires |buff| < TWO64 && Delimiter(buff) == found && found + 4 <= |buff|
    requires Stoi(buff[..found]) == Some(n) && found + 4 + n <= 0xFFFF
    ensures |buff| < found + 4 + n ==> Take(buff) == Wait
    ensures found + 4 + n <= |buff| ==>
      var payload := Deserialize(buff[..found + 4 + n]);
      Take(buff) == if payload.None? then Crash else Got(payload.value, buff[found + 4 + n..])
  {
    hide Stoi, Delimiter, Deserialize, U16;
    SmallU16(found);
    SmallU16(n);
    SmallU16(found + 2 + n + 2);
  }

  lemma SmallU16(x: nat)
    ensures x <= 0xFFFF ==> U16(x) == x
  {
  }

  lemma FrameLength(payload: string)
    ensures |Frame(payload)| == |ToString(|payload|)| + 4 + |payload|
  {
  }

  lemma WholeFrame(payload: string, rest: string)
    ensures (Frame(payload) + rest)[..|Frame(payload)|] == Frame(payload)
  {
  }

  lemma DeserializeFrame(payload: string)
    requires |Frame(payload)| <= 0xFFFF
    ensures Deserialize(Frame(payload)) == Some(payload)
  {
    hide Stoi, ToString, Delimiter, Frame;
    var s, d := Frame(payload), ToString(|payload|);
    assert s + "" == s;
    FrameShape(payload, "");
    StoiToString(|payload|);
    FrameLength(payload);
    assert Substr(s, 0, |d|) == s[..|d|];
  }

  /** No message can carry more than 65535 bytes, nor more than the message itself. */
  lemma TakenIsShort(buff: string)
    requires |buff| < TWO64
    ensures Take(buff).Got? ==> |Take(buff).payload| <= 0xFFFF
    ensures var found := Delimiter(buff); var n := Stoi(buff[..found]);
      Take(buff).Got? ==> |Take(buff).payload| <= U16(U16(found) + 2 + U16(n.value) + 2)
  {
    hide Stoi, Delimiter;
  }

  /** A frame is decoded to its payload and the exact remainder if and only if it has at most 65535 bytes. */
  lemma FrameDecodes(payload: string, rest: string)
    requires |Frame(payload)| + |rest| < TWO63
    ensures Take(Frame(payload) + rest) == Got(payload, rest) <==> |Frame(payload)| <= 0xFFFF
  {
    hide Stoi, ToString, Delimiter, Frame, Deserialize;
    if |Frame(payload)| <= 0xFFFF {
      TakeFrame(payload, rest);
    } else {
      FrameLength(payload);
      FrameShape(payload, rest);
      StoiToString(|payload|);
      TakenIsShort(Frame(payload) + rest);
      FewDigits(|payload|);
    }
  }

  /**
   * With a delimiter and a readable length, waiting for the whole frame is what the buffer check does, if and only
   * if the buffer holds at least four bytes from the delimiter on; with fewer the subtraction wraps around.
   */
  lemma AcceptsWholeFrames(buff: string)
    requires |buff| < TWO63 && Delimiter(buff) < Min(|buff|, TWO16) && Stoi(buff[..Delimiter(buff)]).Some?
    ensures var found := Delimiter(buff); var n := U16(Stoi(buff[..found]).value);
      (Take(buff) != Wait <==> found + 4 + n <= |buff|) <==> found + 4 <= |buff|
  {
    hide Stoi, Delimiter, Deserialize, Take;
    Decision(buff, Delimiter(buff));
  }

  /** Whether the attempt waits, once delimiter and length are known. */
  lemma Decision(buff: string, found: nat)
    requires |buff| < TWO64 && Delimiter(buff) == found < Min(|buff|, TWO16) && Stoi(buff[..found]).Some?
    ensures var n := U16(Stoi(buff[..found]).value);
      && (Take(buff) == Wait <==> Sub64(Sub64(|buff|, found), 4) < n)
      && (Take(buff).Got? ==> Take(buff).rest == buff[Min(U16(found + 2 + n + 2), |buff|)..])
  {
    hide Stoi, Delimiter, Deserialize, Substr, U16;
    SmallU16(found);
  }

  /** A header that arrives alone is taken for an empty message. */
  lemma HeaderAlone()
    ensures Take("3\r\n") == Got("", "")
  {
    var s := "3\r\n";
    assert s[..1] == "3" == ToString(3);
    StoiToString(3);
    DelimiterAt("3", CRLF);
    assert s == "3" + CRLF;
    assert Substr(s, 0, 8) == s && Substr(s, 0, 1) == "3";
    assert s[3..] == "" && Substr(s, 3, 3) == "";
  }

  /** A payload of 65536 bytes is taken for an empty message, with most of it left in the buffer. */
  lemma LongFrameIsEmpty(payload: string)
    requires |payload| == 0x1_0000
    ensures Take(Frame(payload)).Got? && Take(Frame(payload)).payload == "" && |Take(Frame(payload)).rest| == 0x1_0000
  {
    hide Stoi, ToString, Delimiter, Frame;
    var s, d := Frame(payload), ToString(0x1_0000);
    assert s + "" == s;
    FrameShape(payload, "");
    FiveDigits();
    StoiToString(0x1_0000);
    SameDelimiter(s[..9], s);
    assert Substr(s, 0, 9) == s[..9] && Substr(s[..9], 0, 5) == s[..5] && Substr(s[..9], 7, 0) == "";
  }

  lemma FiveDigits()
    ensures |ToString(0x1_0000)| == 5
  {
  }

  // Streams of frames.

  function Wire(payloads: seq<string>): string {
    if payloads == [] then "" else Frame(payloads[0]) + Wire(payloads[1..])
  }

  /** Takes `count` messages out of the buffer. */
  function TakeMany(buff: string, count: nat): Option<(seq<string>, string)>
    requires |buff| < TWO64
    decreases count
  {
    if count == 0 then Some(([], buff)) else
      match Take(buff)
      case Got(payload, rest) =>
        if |rest| >= TWO64 then None else
        var more := TakeMany(rest, count - 1);
        if more.None? then None else Some(([payload] + more.value.0, more.value.1))
      case _ => None
  }

  /** Concatenated frames decode one by one to the payloads they were made from, with the exact remainder kept. */
  lemma {:induction false} WireDecodes(payloads: seq<string>, rest: string)
    requires |Wire(payloads)| + |rest| < TWO63
    requires forall p <- payloads :: |Frame(p)| <= 0xFFFF
    ensures TakeMany(Wire(payloads) + rest, |payloads|) == Some((payloads, rest))
  {
    hide Take, Frame;
    if payloads == [] {
      assert "" + rest == rest;
    } else {
      var tail := Wire(payloads[1..]) + rest;
      assert Wire(payloads) + rest == Frame(payloads[0]) + tail;
      TakeFrame(payloads[0], tail);
      WireDecodes(payloads[1..], rest);
      assert [payloads[0]] + payloads[1..] == payloads;
    }
  }

  // The receiving ends.

  datatype Outcome =
    | Received(payload: string)
    | Closed                      // the peer closed the connection
    | Crashed

  function Join(chunks: seq<string>): string {
    if chunks == [] then "" else chunks[0] + Join(chunks[1..])
  }

  /** The server keeps receiving until a message can be taken; `used` counts the chunks received. */
  function Serve(buff: string, chunks: seq<string>): (r: (Outcome, string, nat))
    requires |buff| + |Join(chunks)| < TWO63
    ensures r.2 <= |chunks|
    decreases |chunks|
  {
    if chunks == [] then (Closed, buff, 0) else
      var b := buff + chunks[0];
      match Take(b)
      case Wait => var (o, left, used) := Serve(b, chunks[1..]); (o, left, used + 1)
      case Crash => (Crashed, b, 1)
      case Got(payload, rest) => (Received(payload), rest, 1)
  }

  /** Every buffer the server looks at holds no delimiter yet, or at least four bytes from the delimiter on. */
  predicate Guarded(buff: string, chunks: seq<string>)
    decreases |chunks|
  {
    chunks != [] ==>
      var b := buff + chunks[0];
      (Delimiter(b) == |b| || Delimiter(b) + 4 <= |b|) && Guarded(b, chunks[1..])
  }

  lemma PartialFrameWaits(payload: string, rest: string, b: string)
    requires |Frame(payload)| <= 0xFFFF
    requires b <= Frame(payload) + rest && |b| < |Frame(payload)|
    requires Delimiter(b) == |b| || Delimiter(b) + 4 <= |b|
    ensures Take(b) == Wait
  {
    hide Stoi, ToString, Frame, Deserialize, Delimiter, Take;
    NoDelimiterWaits(b);
    FrameShape(payload, rest);
    FrameLength(payload);
    StoiToString(|payload|);
    var s, i := Frame(payload) + rest, Delimiter(b);
    if i < |b| {
      SameDelimiter(b, s);
      assert b[..i] == s[..i];
      TakeAt(b, i, |payload|);
    }
  }

  lemma NoDelimiterWaits(b: string)
    requires |b| < TWO64
    ensures Delimiter(b) == |b| ==> Take(b) == Wait
  {
  }

  lemma SameDelimiter(b: string, s: string)
    requires b <= s && (Delimiter(b) < |b| || Delimiter(s) < |b|)
    ensures Delimiter(s) == Delimiter(b)
  {
  }

  lemma SharedPrefix(a: string, x: string, b: string, y: string)
    requires a + x == b + y && |a| <= |b|
    ensures b == a + b[|a|..]
  {
    assert b[..|a|] == (b + y)[..|a|] == (a + x)[..|a|] == a;
  }

  lemma CancelPrefix(a: string, x: string, y: string)
    requires a + x == a + y
    ensures x == y
  {
    assert x == (a + x)[|a|..] && y == (a + y)[|a|..];
  }

  /** An attempt on a buffer that ends in the three characters from the delimiter on takes everything, or throws. */
  lemma UnguardedTakesAll(payload: string, rest: string, b: string)
    requires |Frame(payload)| <= 0xFFFF
    requires b <= Frame(payload) + rest && |b| < |Frame(payload)|
    requires Delimiter(b) < |b| < Delimiter(b) + 4
    ensures Take(b) != Wait && (Take(b).Got? ==> Take(b).rest == "")
  {
    hide Stoi, ToString, Frame, Deserialize, Delimiter, U16, Take;
    FrameShape(payload, rest);
    FrameLength(payload);
    StoiToString(|payload|);
    var s, i := Frame(payload) + rest, Delimiter(b);
    SameDelimiter(b, s);
    assert b[..i] == s[..i];
    Decision(b, i);
    SmallU16(|payload|);
    SmallU16(i + 2 + |payload| + 2);
  }

  /** Once the whole frame is there, nothing that is appended changes where its delimiter is. */
  lemma {:induction false} WholeIsGuarded(payload: string, b: string, chunks: seq<string>)
    requires Frame(payload) <= b
    ensures (Delimiter(b) == |b| || Delimiter(b) + 4 <= |b|) && Guarded(b, chunks)
    decreases |chunks|
  {
    hide Frame, Delimiter;
    assert b == Frame(payload) + b[|Frame(payload)|..];
    FrameShape(payload, b[|Frame(payload)|..]);
    if chunks != [] {
      WholeIsGuarded(payload, b + chunks[0], chunks[1..]);
    }
  }

  /** The attempt that sees the whole frame. */
  lemma WholeArrived(payload: string, rest: string, b: string, more: string)
    requires |Frame(payload)| <= 0xFFFF && Frame(payload) <= b && |b| < TWO63
    requires b + more == Frame(payload) + rest
    ensures Take(b).Got? && Take(b).payload == payload && Take(b).rest + more == rest
  {
    hide Take, Frame;
    var n := |Frame(payload)|;
    assert b == Frame(payload) + b[n..];
    TakeFrame(payload, b[n..]);
    assert b + more == Frame(payload) + (b[n..] + more);
    CancelPrefix(Frame(payload), b[n..] + more, rest);
  }

  /**
   * However the bytes of a frame and of what follows it are split, the server receives the payload and loses nothing
   * behind it, if and only if no attempt is made on a buffer that ends right after the delimiter.
   */
  lemma {:induction false} SplitDoesNotMatter(payload: string, rest: string, buff: string, chunks: seq<string>)
    requires |Frame(payload)| <= 0xFFFF && |buff| + |Join(chunks)| < TWO63
    requires buff + Join(chunks) == Frame(payload) + rest
    requires |buff| < |Frame(payload)|
    ensures var (o, left, used) := Serve(buff, chunks);
      o == Received(payload) && left + Join(chunks[used..]) == rest <==> Guarded(buff, chunks)
    decreases |chunks|
  {
    hide Take, Frame, Delimiter;
    if chunks != [] {
      var b, more := buff + chunks[0], Join(chunks[1..]);
      assert b + more == Frame(payload) + rest;
      if |Frame(payload)| <= |b| {
        SharedPrefix(Frame(payload), rest, b, more);
        WholeArrived(payload, rest, b, more);
        WholeIsGuarded(payload, b, chunks[1..]);
      } else if Delimiter(b) == |b| || Delimiter(b) + 4 <= |b| {
        PartialFrameWaits(payload, rest, b);
        SplitDoesNotMatter(payload, rest, b, chunks[1..]);
        var used := Serve(b, chunks[1..]).2;
        assert chunks[1..][used..] == chunks[used + 1..];
      } else {
        UnguardedTakesAll(payload, rest, b);
        assert |b| + |more| == |Frame(payload)| + |rest|;
      }
    }
  }

  /** No number can start with it. */
  predicate Garbage(c: char) {
    !IsSpace(c) && !IsDigit(c) && c != '+' && c != '-'
  }

  lemma GarbageThrows(b: string)
    requires b != "" && Garbage(b[0]) && |b| < TWO63
    ensures Take(b) == if Delimiter(b) == |b| then Wait else Crash
  {
    var found := Delimiter(b);
    if found < |b| {
      assert found > 0 && b[..found][0] == b[0];
      assert SkipSpaces(b[..found]) == b[..found];
      assert DigitRun(b[..found]) == "";
    }
  }

  lemma DelimiterLater(b: string, more: string)
    ensures Delimiter(b) < |b| ==> Delimiter(b + more) == Delimiter(b)
    ensures Delimiter(b) == |b| ==> Delimiter(b + more) >= |b|
  {
    var i, j := Delimiter(b), Delimiter(b + more);
    assert i < |b| ==> (b + more)[i] == b[i];
    assert j < |b| ==> (b + more)[j] == b[j];
    assert forall k | 0 <= k < |b| :: (b + more)[k] == b[k];
  }

  /** Bytes that cannot start a frame make the server throw once a line break has come, however they arrive. */
  lemma {:induction false} GarbageCrashes(buff: string, chunks: seq<string>)
    requires |buff| + |Join(chunks)| < TWO63 && Delimiter(buff) == |buff|
    requires buff + Join(chunks) != "" && Garbage((buff + Join(chunks))[0])
    ensures var text := buff + Join(chunks);
      Serve(buff, chunks).0 == if Delimiter(text) < |text| then Crashed else Closed
    decreases |chunks|
  {
    hide Take, Delimiter;
    if chunks == [] {
      assert buff + Join(chunks) == buff;
    } else {
      var b, more := buff + chunks[0], Join(chunks[1..]);
      assert buff + Join(chunks) == b + more;
      DelimiterLater(b, more);
      if b == "" {
        NoDelimiterWaits(b);
        assert Delimiter(b) == |b|;
      } else {
        assert b[0] == (b + more)[0];
        GarbageThrows(b);
      }
      if Delimiter(b) == |b| {
        GarbageCrashes(b, chunks[1..]);
      }
    }
  }

  /** One attempt, on a buffer that holds a whole frame and on one that holds a part of one. */
  lemma ClientTakes(b: string)
    requires |b| < TWO63
    ensures forall payload, rest | |Frame(payload)| <= 0xFFFF &&
      b == Frame(payload) + rest :: Take(b) == Got(payload, rest)
    ensures forall payload | |Frame(payload)| <= 0xFFFF && b < Frame(payload) ::
      Take(b) == Wait <==> Delimiter(b) == |b| || Delimiter(b) + 4 <= |b|
  {
    hide Take, Frame, Delimiter;
    forall payload, rest | |Frame(payload)| <= 0xFFFF && b == Frame(payload) + rest
      ensures Take(b) == Got(payload, rest)
    {
      TakeFrame(payload, rest);
    }
    forall payload | |Frame(payload)| <= 0xFFFF && b < Frame(payload)
      ensures Take(b) == Wait <==> Delimiter(b) == |b| || Delimiter(b) + 4 <= |b|
    {
      assert Frame(payload) + "" == Frame(payload);
      if Delimiter(b) == |b| || Delimiter(b) + 4 <= |b| {
        PartialFrameWaits(payload, "", b);
      } else {
        UnguardedTakesAll(payload, "", b);
      }
    }
  }

  class ProtocolServer {
    var buff: string

    /** Receives chunks until a message is complete. */
    method Obtain(chunks: seq<string>) returns (o: Outcome, used: nat)
      requires |buff| + |Join(chunks)| < TWO63
      modifies this
      ensures (o, buff, used) == Serve(old(buff), chunks)
    {
      hide Take;
      used := 0;
      ghost var goal := Serve(buff, chunks);
      while used < |chunks|
        invariant used <= |chunks| && |buff| + |Join(chunks[used..])| < TWO63
        invariant var (o', left, more) := Serve(buff, chunks[used..]); (o', left, used + more) == goal
      {
        assert chunks[used..][1..] == chunks[used + 1..];
        buff := buff + chunks[used];
        used := used + 1;
        match Take(buff) {
          case Wait =>
          case Crash => return Crashed, used;
          case Got(payload, rest) =>
            buff := rest;
            return Received(payload), used;
        }
      }
      o := Closed;
    }
  }

  class ProtocolClient {
    var buff: string

    /**
     * Receives one chunk. A whole frame leaves the buffer, and what follows it stays; with less than a frame, and
     * something behind the delimiter, the attempt fails and every byte stays.
     */
    method Obtain(chunk: string) returns (o: Option<Outcome>)
      requires |buff| + |chunk| < TWO63
      modifies this
      ensures forall payload, rest | |Frame(payload)| <= 0xFFFF && old(buff) + chunk == Frame(payload) + rest ::
        o == Some(Received(payload)) && buff == rest
      ensures forall payload | |Frame(payload)| <= 0xFFFF && old(buff) + chunk < Frame(payload) ::
        (o == None && buff == old(buff) + chunk)
          <==> Delimiter(old(buff) + chunk) == |old(buff) + chunk| ||
               Delimiter(old(buff) + chunk) + 4 <= |old(buff) + chunk|
      ensures match Take(old(buff) + chunk)
        case Wait => o == None && buff == old(buff) + chunk
        case Crash => o == Some(Crashed) && buff == old(buff) + chunk
        case Got(payload, rest) => o == Some(Received(payload)) && buff == rest
    {
      hide Take, Frame, Delimiter;
      buff := buff + chunk;
      ClientTakes(buff);
      match Take(buff) {
        case Wait => o := None;
        case Crash => o := Some(Crashed);
        case Got(payload, rest) =>
          buff := rest;
          o := Some(Received(payload));
      }
    }
  }
}
