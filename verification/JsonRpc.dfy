/** Length-prefixed messages: stdlib/jsonrpc.kod over the stdin and stdout calls of stdlib/runtime.c. */
module JsonRpc {
  import opened Kod
  import opened ByteText
  import opened DecimalText
  import opened Streams

  const LF: byte := 10
  const CR: byte := 13
  const COLON: byte := 58

  /** `Content-Length:` */
  const PREFIX: bytes := [67, 111, 110, 116, 101, 110, 116, 45, 76, 101, 110, 103, 116, 104, 58]

  /** `\r\n\r\n` */
  const GAP: bytes := [13, 10, 13, 10]

  // ----- What a call makes of the bytes that are left -----

  function StripCr(s: bytes): bytes
  {
    if s != [] && s[|s| - 1] == 13 then s[..|s| - 1] else s
  }

  /** `read_stdin_line`: the bytes before the line feed or the end, less one carriage return. */
  function LineOf(s: bytes): bytes
  {
    StripCr(s[..FirstOf(s, LF)])
  }

  function AfterLine(s: bytes): bytes
  {
    var k := FirstOf(s, LF);
    s[if k < |s| then k + 1 else k..]
  }

  predicate StartsWith(s: bytes, prefix: bytes)
  {
    prefix <= s
  }

  function SkipBlanks(line: bytes, i: nat): (j: nat)
    requires i <= |line|
    ensures i <= j <= |line| && !(j < |line| && (line[j] == 32 || line[j] == 9))
    decreases |line| - i
  {
    if i < |line| && (line[i] == 32 || line[i] == 9) then SkipBlanks(line, i + 1) else i
  }

  lemma RunIsDigits(line: bytes, j: nat)
    requires j <= |line|
    ensures AllDigits(line[j..SkipDigits(line, j)])
  {
    var digits := SkippedDigits(line, j);
    AtSlice(line, j, digits);
  }

  /** The number in the digits after the first colon and any blanks, in 64 bits; 0 without digits. */
  function AfterColon(line: bytes): int64
  {
    var k := FirstOf(line, COLON);
    var j := SkipBlanks(line, if k < |line| then k + 1 else k);
    RunIsDigits(line, j);
    Wrap(DigitsValue(line[j..SkipDigits(line, j)]))
  }

  /** The first `n` bytes, or all there are, and the rest. */
  function Exactly(s: bytes, n: nat): (r: (bytes, bytes))
    ensures r.0 + r.1 == s && (|r.0| == n || (|r.0| < n && r.1 == []))
  {
    if n <= |s| then (s[..n], s[n..]) else (s, [])
  }

  /** The length announced once `line` has been read. */
  function HeaderLength(line: bytes, length: int): int
  {
    if StartsWith(line, PREFIX) then AfterColon(line) else length
  }

  /** The message at the front of `s` and the bytes after it, with `length` the last length announced. */
  function Message(s: bytes, length: int): (r: (Option<bytes>, bytes))
    ensures r.0.Some? && length < 0 ==> |r.1| < |s|
    ensures |r.1| <= |s|
    decreases |s|
  {
    var line := LineOf(s);
    if line == [] then
      if length < 0 then (None, AfterLine(s))
      else var e := Exactly(AfterLine(s), length); (Some(e.0), e.1)
    else
      Message(AfterLine(s), HeaderLength(line, length))
  }

  /** A length and the bytes it counts, or none without one. */
  function Answer(length: int, t: bytes): (Option<bytes>, bytes)
  {
    if length < 0 then (None, t) else (Some(Exactly(t, length).0), Exactly(t, length).1)
  }

  /** What repeated `read_message` gives until it answers none. */
  function Messages(s: bytes): seq<bytes>
    decreases |s|
  {
    var m := Message(s, -1);
    if m.0.None? then [] else [m.0.value] + Messages(m.1)
  }

  // ----- Headers -----

  /** A header line as sent, without its line feed: any bytes that do not read as an empty line. */
  ghost predicate IsHeader(h: bytes)
  {
    Lacks(h, LF) && StripCr(h) != []
  }

  ghost predicate Unrecognised(h: bytes)
  {
    IsHeader(h) && !StartsWith(StripCr(h), PREFIX)
  }

  function Lines(headers: seq<bytes>): bytes
  {
    if headers == [] then [] else headers[0] + [LF] + Lines(headers[1..])
  }

  /** The length a block of headers announces: the last one counts. */
  function Announced(headers: seq<bytes>, length: int): int
  {
    if headers == [] then length
    else
      var line := StripCr(headers[0]);
      Announced(headers[1..], HeaderLength(line, length))
  }

  /** The line in bytes: one carriage return before the line feed is dropped, and nothing else. */
  lemma LineInBytes(s: bytes)
    ensures var k := FirstOf(s, LF); LineOf(s) == if k > 0 && s[k - 1] == CR then s[..k - 1] else s[..k]
  {
    var k := FirstOf(s, LF);
    assert k > 0 ==> s[..k][..k - 1] == s[..k - 1];
  }

  lemma LineEnds(s: bytes, out: bytes, left: bytes)
    requires s == out + left && Lacks(out, LF) && (left != [] ==> left[0] == LF)
    ensures LineOf(s) == StripCr(out) && AfterLine(s) == if left == [] then [] else left[1..]
  {
    FirstOfUnique(s, LF, |out|);
    assert s[..|out|] == out;
  }

  lemma OneLacks(c: byte, delim: int)
    requires c != delim
    ensures Lacks([c], delim)
  {
  }

  lemma LineOver(h: bytes, t: bytes)
    requires Lacks(h, LF)
    ensures LineOf(h + [LF] + t) == StripCr(h) && AfterLine(h + [LF] + t) == t
  {
    LineEnds(h + [LF] + t, h, [LF] + t);
  }

  lemma HeaderRead(h: bytes, t: bytes, length: int)
    requires IsHeader(h)
    ensures Message(h + [LF] + t, length) == Message(t, HeaderLength(StripCr(h), length))
  {
    LineOver(h, t);
  }

  lemma BlankRead(blank: bytes, t: bytes, length: int)
    requires blank == [] || blank == [CR]
    ensures Message(blank + [LF] + t, length) == Answer(length, t)
  {
    LineOver(blank, t);
  }

  /**
   A block of headers, an empty line and the bytes after it: whatever the headers are, the message
   is none if they announce no length, and otherwise that many of the bytes that follow.
   */
  lemma {:induction false} HeadersDecide(headers: seq<bytes>, blank: bytes, t: bytes, length: int)
    requires forall h :: h in headers ==> IsHeader(h)
    requires blank == [] || blank == [CR]
    ensures Message(Lines(headers) + (blank + [LF] + t), length) == Answer(Announced(headers, length), t)
    decreases |headers|
  {
    hide Message, IsHeader, HeaderLength, StripCr;
    var tail := blank + [LF] + t;
    if headers == [] {
      assert Lines(headers) + tail == tail;
      BlankRead(blank, t, length);
    } else {
      var h, rest := headers[0], headers[1..];
      assert h in headers && forall k :: k in rest ==> k in headers;
      assert Lines(headers) + tail == h + [LF] + (Lines(rest) + tail);
      HeaderRead(h, Lines(rest) + tail, length);
      HeadersDecide(rest, blank, t, HeaderLength(StripCr(h), length));
    }
  }

  /** Input cut at the first empty line, or at its end, with or without a final line feed. */
  ghost predicate Parted(s: bytes, headers: seq<bytes>, t: bytes)
  {
    || s == Lines(headers) + ([LF] + t) || s == Lines(headers) + ([CR, LF] + t)
    || (t == [] && (s == Lines(headers) || s == Lines(headers) + [CR] || s + [LF] == Lines(headers)))
  }

  lemma PartedNow(s: bytes, h: bytes, tail: bytes)
    requires s == h + tail && (tail != [] ==> tail[0] == LF) && StripCr(h) == []
    ensures Parted(s, [], if tail == [] then [] else tail[1..])
  {
    assert h == [] || h == [CR];
    if tail != [] {
      assert tail == [LF] + tail[1..];
    }
  }

  lemma PartedLater(h: bytes, s: bytes, headers: seq<bytes>, t: bytes)
    requires Parted(s, headers, t)
    ensures Parted(h + [LF] + s, [h] + headers, t)
  {
    var more: seq<bytes> := [h] + headers;
    assert more[1..] == headers;
    assert Lines(more) == h + [LF] + Lines(headers);
    assert h + [LF] + s + [LF] == h + [LF] + (s + [LF]);
  }

  lemma PartedAtEnd(h: bytes)
    ensures Parted(h, [h], [])
  {
    var one: seq<bytes> := [h];
    assert one[1..] == [];
    assert Lines(one) == h + [LF];
  }

  lemma AnnouncedFirst(h: bytes, rest: seq<bytes>, length: int)
    ensures Announced([h] + rest, length) == Announced(rest, HeaderLength(StripCr(h), length))
  {
    var more: seq<bytes> := [h] + rest;
    assert more[0] == h && more[1..] == rest;
  }

  /** The header lines an input starts with, and what comes after the line that ends them. */
  function HeadersOf(s: bytes): seq<bytes>
    decreases |s|
  {
    if LineOf(s) == [] then [] else [s[..FirstOf(s, LF)]] + HeadersOf(AfterLine(s))
  }

  function TailOf(s: bytes): bytes
    decreases |s|
  {
    if LineOf(s) == [] then AfterLine(s) else TailOf(AfterLine(s))
  }

  /** Every input whatever is such a block, and the answer is the one its headers decide. */
  lemma {:induction false} EveryInputAnswered(s: bytes, length: int)
    ensures (forall h :: h in HeadersOf(s) ==> IsHeader(h)) && Parted(s, HeadersOf(s), TailOf(s))
    ensures Message(s, length) == Answer(Announced(HeadersOf(s), length), TailOf(s))
    decreases |s|
  {
    hide Parted, Announced, HeaderLength, StripCr, LineOf, AfterLine;
    var k := FirstOf(s, LF);
    var h, tail := s[..k], s[k..];
    assert s == h + tail;
    LineEnds(s, h, tail);
    if StripCr(h) == [] {
      PartedNow(s, h, tail);
      NoneAnnounced(length);
    } else {
      var next := HeaderLength(StripCr(h), length);
      var rest := HeadersOf(AfterLine(s));
      if k == |s| {
        PartedAtEnd(h);
        EndAnswer(next);
        assert s == h && [h] + rest == [h];
        NoneAnnounced(next);
      } else {
        EveryInputAnswered(AfterLine(s), next);
        PartedLater(h, AfterLine(s), rest, TailOf(s));
        assert s == h + [LF] + AfterLine(s);
      }
      AnnouncedFirst(h, rest, length);
    }
  }

  /**
   The answer is none exactly when the headers announce no length that is not negative. It is the
   end of the input exactly when nothing follows them; otherwise none is told with that left to read.
   */
  lemma NoneIff(s: bytes)
    ensures Message(s, -1).0.None? <==> Announced(HeadersOf(s), -1) < 0
    ensures Message(s, -1).0.None? ==> Message(s, -1).1 == TailOf(s)
    ensures (Message(s, -1).0.None? <==> s == []) <==> s == [] || Announced(HeadersOf(s), -1) >= 0
  {
    EveryInputAnswered(s, -1);
  }

  /** An empty line where a message should start answers none, whatever waits behind it. */
  lemma EmptyLineAnswersNone(blank: bytes, t: bytes)
    requires blank == [] || blank == [CR]
    ensures Message(blank + [LF] + t, -1) == (None, t)
  {
    hide Message;
    BlankRead(blank, t, -1);
  }

  lemma NoneAnnounced(length: int)
    ensures Announced([], length) == length
  {
  }

  lemma EndAnswer(length: int)
    ensures Message([], length) == Answer(length, []) && HeadersOf([]) == [] && TailOf([]) == []
  {
    hide AfterColon, HeaderLength;
    NoLine();
  }

  lemma NoLine()
    ensures LineOf([]) == [] && AfterLine([]) == []
  {
  }

  lemma {:induction false} UnrecognisedAnnounceNothing(headers: seq<bytes>, length: int)
    requires forall h :: h in headers ==> Unrecognised(h)
    ensures Announced(headers, length) == length
    decreases |headers|
  {
    if headers != [] {
      assert headers[0] in headers;
      assert forall k :: k in headers[1..] ==> k in headers;
      UnrecognisedAnnounceNothing(headers[1..], length);
    }
  }

  lemma {:induction false} AnnouncedInTurn(a: seq<bytes>, b: seq<bytes>, length: int)
    ensures Announced(a + b, length) == Announced(b, Announced(a, length))
    decreases |a|
  {
    if a == [] {
      assert a + b == b;
    } else {
      assert (a + b)[1..] == a[1..] + b;
      var line := StripCr(a[0]);
      AnnouncedInTurn(a[1..], b, HeaderLength(line, length));
    }
  }

  // ----- Frames -----

  /** The line `write_message` announces a body of `n` bytes with. */
  function LengthLine(n: nat): bytes
  {
    PREFIX + [32] + NatText(n)
  }

  /** What `write_message` writes. */
  function Frame(body: bytes): bytes
  {
    LengthLine(|body|) + GAP + body
  }

  /** A frame with further headers before and after the one that counts. */
  function FrameWith(before: seq<bytes>, after: seq<bytes>, body: bytes): bytes
  {
    Lines(before + [LengthLine(|body|) + [CR]] + after) + ([CR] + [LF] + body)
  }

  lemma FrameIsPlain(body: bytes)
    ensures FrameWith([], [], body) == Frame(body)
  {
    var h := LengthLine(|body|) + [CR];
    var one: seq<bytes> := [h];
    assert [] + one + [] == one;
    assert one[1..] == [];
    assert Lines(one) == h + [LF];
    assert Frame(body) == LengthLine(|body|) + GAP + body;
    assert GAP == [CR] + [LF] + [CR] + [LF];
  }

  lemma DigitsLack(s: bytes)
    requires AllDigits(s)
    ensures Lacks(s, LF) && Lacks(s, COLON) && Lacks(s, CR)
  {
    assert forall i :: 0 <= i < |s| ==> IsDigit(s[i]);
  }

  lemma LengthLineIsHeader(n: nat)
    ensures IsHeader(LengthLine(n) + [CR])
    ensures StripCr(LengthLine(n) + [CR]) == LengthLine(n) && StartsWith(LengthLine(n), PREFIX)
  {
    DigitsLack(NatText(n));
    var line := LengthLine(n);
    assert forall i :: |PREFIX| < i < |line| ==> line[i] == NatText(n)[i - |PREFIX| - 1];
    assert (line + [CR])[..|line|] == line;
  }

  /** The number announced is read back as 64 bits hold it. */
  lemma LengthReadsBack(n: nat)
    ensures AfterColon(LengthLine(n)) == Wrap(n)
  {
    hide DigitsValue, NatText, Wrap;
    var line, digits := LengthLine(n), NatText(n);
    FirstOfUnique(line, COLON, 14);
    assert line[16..] == digits;
    assert line[15] == 32 && line[16] == digits[0] && IsDigit(digits[0]);
    assert SkipBlanks(line, 16) == 16;
    assert At(line, 16, digits);
    SkipDigitsOver(line, 16, digits);
    assert SkipBlanks(line, 15) == 16 && line[16..SkipDigits(line, 16)] == digits;
    NatTextValue(n);
  }

  /** Whatever length a single header announces, it counts as 64 bits hold it: from 2^63 on, as none at all. */
  lemma AnyLengthAnswered(n: nat, t: bytes)
    ensures Message(LengthLine(n) + GAP + t, -1) == Answer(Wrap(n), t)
    ensures INT64_MAX < n <= 2 * INT64_MAX + 1 ==> Message(LengthLine(n) + GAP + t, -1) == (None, t)
  {
    hide Message, AfterColon, LengthLine, Wrap;
    var h := LengthLine(n) + [CR];
    var one: seq<bytes> := [h];
    assert one[1..] == [];
    LengthLineIsHeader(n);
    LengthReadsBack(n);
    assert LengthLine(n) + GAP + t == Lines(one) + ([CR] + [LF] + t);
    HeadersDecide(one, [CR], t, -1);
    WrapNegative(n);
  }

  lemma WrapNegative(n: nat)
    ensures INT64_MAX < n <= 2 * INT64_MAX + 1 ==> Wrap(n) < 0
  {
  }

  /** A body cut short by the end of the input is answered as far as it goes, and nothing is left. */
  lemma ShortBodyAnswered(n: nat, t: bytes)
    requires |t| <= n <= INT64_MAX
    ensures Message(LengthLine(n) + GAP + t, -1) == (Some(t), [])
  {
    hide Message, LengthLine, Wrap;
    AnyLengthAnswered(n, t);
    WrapFits(n);
    assert t[..|t|] == t && t[|t|..] == [];
  }

  /** Input that ends after a length was announced is answered with an empty body, not with none. */
  lemma EndAfterLength(n: nat)
    requires n <= INT64_MAX
    ensures Message(LengthLine(n) + [CR, LF], -1) == (Some([]), [])
  {
    hide LengthLine, AfterColon, Wrap, Message, StripCr, StartsWith, Answer, Lacks, IsHeader, HeadersOf, TailOf;
    LengthLineIsHeader(n);
    LengthReadsBack(n);
    WrapFits(n);
    var line := LengthLine(n);
    assert line + [CR, LF] == line + [CR] + [LF] + [];
    HeaderRead(line + [CR], [], -1);
    EndAnswer(n);
    NothingToCount(n);
  }

  lemma NothingToCount(n: nat)
    ensures Answer(n, []) == (Some([]), [])
  {
  }

  lemma WrapFits(n: nat)
    requires n <= INT64_MAX
    ensures Wrap(n) == n
  {
  }

  /**
   A frame reads back as its body, whatever bytes that holds and whatever unrecognised headers
   stand around the length, and leaves exactly the bytes after it.
   */
  lemma FrameReads(before: seq<bytes>, after: seq<bytes>, body: bytes, t: bytes)
    requires |body| <= INT64_MAX
    requires forall h :: h in before + after ==> Unrecognised(h)
    ensures Message(FrameWith(before, after, body) + t, -1) == (Some(body), t)
  {
    hide Message, AfterColon, LengthLine;
    var h := LengthLine(|body|) + [CR];
    var headers := before + [h] + after;
    LengthLineIsHeader(|body|);
    LengthReadsBack(|body|);
    WrapFits(|body|);
    assert forall k :: k in headers ==> IsHeader(k) by {
      assert forall k :: k in headers ==> k == h || k in before + after;
    }
    assert FrameWith(before, after, body) + t == Lines(headers) + ([CR] + [LF] + (body + t));
    HeadersDecide(headers, [CR], body + t, -1);
    AnnouncedInTurn(before + [h], after, -1);
    AnnouncedInTurn(before, [h], -1);
    assert forall k :: k in before ==> k in before + after;
    assert forall k :: k in after ==> k in before + after;
    UnrecognisedAnnounceNothing(before, -1);
    var one: seq<bytes> := [h];
    assert one[1..] == [];
    assert Announced(one, -1) == |body|;
    UnrecognisedAnnounceNothing(after, |body|);
    assert (body + t)[..|body|] == body && (body + t)[|body|..] == t;
  }

  /** A frame as it stands on the wire: a body, and the other headers it was sent with. */
  datatype Sent = Sent(before: seq<bytes>, after: seq<bytes>, body: bytes)

  ghost predicate Sendable(m: Sent)
  {
    |m.body| <= INT64_MAX && forall h :: h in m.before + m.after ==> Unrecognised(h)
  }

  function Wire(sent: seq<Sent>): bytes
  {
    if sent == [] then [] else FrameWith(sent[0].before, sent[0].after, sent[0].body) + Wire(sent[1..])
  }

  function Bodies(sent: seq<Sent>): seq<bytes>
  {
    if sent == [] then [] else [sent[0].body] + Bodies(sent[1..])
  }

  /** Everything sent is read back, in order, and then none; headers not recognised change nothing. */
  lemma {:induction false} MessagesReadBack(sent: seq<Sent>)
    requires forall m :: m in sent ==> Sendable(m)
    ensures Messages(Wire(sent)) == Bodies(sent)
    decreases |sent|
  {
    hide Message, FrameWith;
    if sent == [] {
      NothingLeft();
    } else {
      var m := sent[0];
      assert m in sent;
      FrameReads(m.before, m.after, m.body, Wire(sent[1..]));
      MessagesReadBack(sent[1..]);
    }
  }

  lemma NothingLeft()
    ensures Message([], -1) == (None, [])
  {
  }

  // ----- The calls themselves -----

  /** The process's standard input. `fread` may return short, never empty before the end. */
  class Stdin {
    var rest: bytes

    method GetChar() returns (c: int)
      modifies this
      ensures old(rest) == [] ==> c == -1 && rest == []
      ensures old(rest) != [] ==> c == old(rest)[0] && rest == old(rest)[1..]
    {
      if rest == [] {
        return -1;
      }
      c := rest[0];
      rest := rest[1..];
    }

    method FRead(max: nat) returns (piece: bytes)
      modifies this
      ensures old(rest) == piece + rest && |piece| <= max
      ensures max > 0 && old(rest) != [] ==> piece != []
    {
      if max == 0 || rest == [] {
        return [];
      }
      var k: nat :| 1 <= k <= max && k <= |rest|;
      piece := rest[..k];
      rest := rest[k..];
    }

    /** The scratch buffer doubles when it is full and keeps one byte to spare. */
    method ReadLine() returns (line: bytes)
      modifies this
      ensures line == LineOf(old(rest)) && rest == AfterLine(old(rest))
    {
      hide Lacks, LineOf, AfterLine, FirstOf;
      var cap, len := 64, 0;
      var scratch := new byte[cap];
      ghost var s := rest;
      NothingLacks(LF);
      while true
        invariant fresh(scratch) && len < cap == scratch.Length
        invariant s == scratch[..len] + rest && Lacks(scratch[..len], LF)
        decreases |rest|
      {
        ghost var left := rest;
        var ch := GetChar();
        if ch == -1 || ch == 10 {
          LineEnds(s, scratch[..len], left);
          break;
        }
        if len + 1 >= cap {
          scratch := Widened(scratch, len, cap * 2);
          cap := cap * 2;
        }
        ghost var was := scratch[..len];
        Put(scratch, len, ch);
        OneLacks(ch, LF);
        Regroup(s, was, [ch], rest, LF);
        len := len + 1;
      }
      ghost var raw := scratch[..len];
      assert raw != [] ==> raw[..|raw| - 1] == scratch[..len - 1];
      if len > 0 && scratch[len - 1] == 13 {
        len := len - 1;
      }
      line := scratch[..len];
    }

    static method Put(scratch: array<byte>, len: nat, ch: byte)
      requires len < scratch.Length
      modifies scratch
      ensures scratch[..len + 1] == old(scratch[..len]) + [ch]
    {
      scratch[len] := ch;
    }

    static method Widened(scratch: array<byte>, len: nat, newCap: nat) returns (wide: array<byte>)
      requires len <= scratch.Length && len <= newCap
      ensures fresh(wide) && wide.Length == newCap && wide[..len] == scratch[..len]
    {
      wide := new byte[newCap];
      var i := 0;
      while i < len
        invariant i <= len && wide[..i] == scratch[..i]
      {
        wide[i] := scratch[i];
        i := i + 1;
      }
    }

    method ReadExact(n: nat) returns (s: bytes)
      modifies this
      ensures (s, rest) == Exactly(old(rest), n)
    {
      s := [];
      while |s| < n
        invariant old(rest) == s + rest && |s| <= n
        decreases n - |s|
      {
        var r := FRead(n - |s|);
        if |r| == 0 {
          assert old(rest) == s;
          return;
        }
        s := s + r;
      }
      assert old(rest)[..n] == s && old(rest)[n..] == rest;
    }

    /** `read_message`, on whatever standard input holds. */
    method ReadMessage() returns (body: Option<bytes>)
      modifies this
      ensures (body, rest) == Message(old(rest), -1)
    {
      var length: int64 := -1;
      while true
        invariant Message(old(rest), -1) == Message(rest, length)
        decreases |rest|
      {
        var line := ReadLine();
        if |line| == 0 {
          if length < 0 {
            return None;
          }
          var text := ReadExact(length);
          return Some(text);
        }
        var counts := HasPrefix(line, PREFIX);
        if counts {
          length := ParseAfterColon(line);
        }
      }
    }
  }

  /** The loop of `starts_with`. */
  method HasPrefix(s: bytes, prefix: bytes) returns (r: bool)
    ensures r == StartsWith(s, prefix)
  {
    if |prefix| > |s| {
      return false;
    }
    var i := 0;
    while i < |prefix|
      invariant 0 <= i <= |prefix|
      invariant forall j :: 0 <= j < i ==> s[j] == prefix[j]
    {
      if s[i] != prefix[i] {
        return false;
      }
      i := i + 1;
    }
    return true;
  }

  /** `parse_int_after_colon`, accumulating in 64 bits. */
  method ParseAfterColon(line: bytes) returns (n: int64)
    ensures n == AfterColon(line)
  {
    var i := 0;
    while i < |line| && line[i] != 58
      invariant 0 <= i <= |line|
      invariant forall j :: 0 <= j < i ==> line[j] != 58
    {
      i := i + 1;
    }
    FirstOfUnique(line, COLON, i);
    if i < |line| {
      i := i + 1;
    }
    ghost var from := i;
    while i < |line| && (line[i] == 32 || line[i] == 9)
      invariant from <= i <= |line| && SkipBlanks(line, from) == SkipBlanks(line, i)
    {
      i := i + 1;
    }
    n := DigitsFrom(line, i);
  }

  lemma RunGrows(line: bytes, start: nat, i: nat)
    requires start <= i < |line| && AllDigits(line[start..i]) && IsDigit(line[i])
    ensures AllDigits(line[start..i + 1])
    ensures DigitsValue(line[start..i + 1]) == 10 * DigitsValue(line[start..i]) + (line[i] - 48)
  {
    var more := line[start..i + 1];
    assert more == line[start..i] + [line[i]];
    assert more[..|more| - 1] == line[start..i];
  }

  method DigitsFrom(line: bytes, start: nat) returns (n: int64)
    requires start <= |line|
    ensures AllDigits(line[start..SkipDigits(line, start)])
    ensures n == Wrap(DigitsValue(line[start..SkipDigits(line, start)]))
  {
    hide Wrap;
    var i := start;
    n := 0;
    assert Wrap(0) == 0;
    while i < |line| && 48 <= line[i] <= 57
      invariant start <= i <= |line| && AllDigits(line[start..i])
      invariant SkipDigits(line, start) == SkipDigits(line, i)
      invariant n == Wrap(DigitsValue(line[start..i]))
    {
      RunGrows(line, start, i);
      WrapTwice(DigitsValue(line[start..i]), 10, line[i] - 48);
      n := Wrap(10 * n + (line[i] - 48));
      i := i + 1;
    }
  }

  class Stdout {
    var written: bytes

    /** `write_message`: the frame, and nothing after it. */
    method WriteMessage(body: bytes)
      requires |body| <= INT64_MAX
      modifies this
      ensures written == old(written) + Frame(body)
    {
      var count := ToStr(|body|);
      written := written + (PREFIX + [32] + count + GAP + body);
    }
  }

  /** A writer's whole run: reading back what it wrote gives the bodies. */
  method WriteRun(out: Stdout, bodies: seq<bytes>)
    requires forall b :: b in bodies ==> |b| <= INT64_MAX
    requires out.written == []
    modifies out
    ensures Messages(out.written) == bodies
  {
    hide Frame, Messages, FrameWith;
    ghost var sent: seq<Sent> := [];
    var i := 0;
    while i < |bodies|
      invariant 0 <= i <= |bodies|
      invariant |sent| == i && forall m :: m in sent ==> Sendable(m)
      invariant out.written == Wire(sent) && Bodies(sent) == bodies[..i]
    {
      assert bodies[i] in bodies;
      out.WriteMessage(bodies[i]);
      WireExtends(sent, bodies[i]);
      sent := sent + [Sent([], [], bodies[i])];
      i := i + 1;
    }
    assert bodies[..i] == bodies;
    MessagesReadBack(sent);
  }

  /** A reader's whole run, up to the first none. */
  method ReadRun(input: Stdin) returns (got: seq<bytes>)
    modifies input
    ensures got == Messages(old(input.rest))
  {
    hide Message;
    got := [];
    while true
      invariant Messages(old(input.rest)) == got + Messages(input.rest)
      decreases |input.rest|
    {
      var body := input.ReadMessage();
      if body.None? {
        return;
      }
      got := got + [body.value];
    }
  }

  lemma {:induction false} WireExtends(sent: seq<Sent>, body: bytes)
    ensures Wire(sent + [Sent([], [], body)]) == Wire(sent) + Frame(body)
    ensures Bodies(sent + [Sent([], [], body)]) == Bodies(sent) + [body]
    decreases |sent|
  {
    var last := Sent([], [], body);
    if sent == [] {
      FrameIsPlain(body);
      assert sent + [last] == [last] && [last][1..] == [];
    } else {
      assert (sent + [last])[1..] == sent[1..] + [last];
      WireExtends(sent[1..], body);
    }
  }
}
