/**
 The parser never looks further than it must: a text that agrees with another one up to the bytes
 that settle a fault fails as well, and what was read before the fault is read the same.
 */
module JsonLocal {
  import opened Kod
  import opened ByteText
  import opened DecimalText
  import opened JsonGrammar
  import opened JsonParse
  import opened JsonComplete
  import opened JsonSound
  import opened JsonFaults
  import Utf8

  predicate Agree(a: bytes, b: bytes, n: nat)
  {
    n <= |a| && n <= |b| && a[..n] == b[..n]
  }

  /** The same up to `p`, and there the same byte or the end of `b`. */
  predicate Alike(a: bytes, b: bytes, p: nat)
  {
    Agree(a, b, p) && (p == |b| || (p < |a| && a[p] == b[p]))
  }

  lemma AgreeAt(a: bytes, b: bytes, n: nat, pos: nat, text: bytes)
    requires Agree(a, b, n) && At(a, pos, text) && pos + |text| <= n
    ensures At(b, pos, text)
  {
    assert forall i :: 0 <= i < n ==> a[i] == a[..n][i] == b[i];
  }

  lemma AgreeByte(a: bytes, b: bytes, n: nat, i: nat)
    requires Agree(a, b, n) && i < n
    ensures a[i] == b[i]
  {
    assert a[i] == a[..n][i] == b[..n][i];
  }

  lemma AgreeLess(a: bytes, b: bytes, n: nat, m: nat)
    requires Agree(a, b, n) && m <= n
    ensures Agree(a, b, m) && (m < n ==> Alike(a, b, m))
  {
    assert a[..m] == a[..n][..m] && b[..m] == b[..n][..m];
    if m < n {
      AgreeByte(a, b, n, m);
    }
  }

  lemma WsSame(a: bytes, b: bytes, pos: nat)
    requires pos <= |a| && Alike(a, b, SkipWs(a, pos))
    ensures SkipWs(b, pos) == SkipWs(a, pos)
  {
    var ws := SkippedWs(a, pos);
    AgreeAt(a, b, pos + |ws|, pos, ws);
    SkipWsOver(b, pos, ws);
  }

  // ----- Numbers -----

  lemma DigitsSame(a: bytes, b: bytes, pos: nat)
    requires pos <= |a| && Alike(a, b, SkipDigits(a, pos))
    ensures SkipDigits(b, pos) == SkipDigits(a, pos)
  {
    var digits := SkippedDigits(a, pos);
    AgreeAt(a, b, pos + |digits|, pos, digits);
    SkipDigitsOver(b, pos, digits);
  }

  /** What stands at `p`, as far as a number cares: the end is as good as anything that is not part of one. */
  lemma PeekSame(a: bytes, b: bytes, p: nat)
    requires Alike(a, b, p)
    ensures Peek(b, p) == Peek(a, p) || Peek(b, p) == -1
  {
  }

  lemma FractionSame(a: bytes, b: bytes, pos: nat)
    requires pos <= |a| && ParseFraction(a, pos).Good? && Alike(a, b, ParseFraction(a, pos).pos)
    ensures ParseFraction(b, pos) == ParseFraction(a, pos)
  {
    var q := ParseFraction(a, pos).pos;
    AgreeLess(a, b, q, pos);
    if Peek(a, pos) == DOT {
      DigitsSame(a, b, pos + 1);
    }
  }

  lemma ExponentSame(a: bytes, b: bytes, pos: nat)
    requires pos <= |a| && ParseExponent(a, pos).Good? && Alike(a, b, ParseExponent(a, pos).pos)
    ensures ParseExponent(b, pos) == ParseExponent(a, pos)
  {
    var q := ParseExponent(a, pos).pos;
    AgreeLess(a, b, q, pos);
    if Peek(a, pos) == 101 || Peek(a, pos) == 69 {
      AgreeByte(a, b, q, pos + 1);
      DigitsSame(a, b, if Peek(a, pos + 1) == PLUS || Peek(a, pos + 1) == MINUS then pos + 2 else pos + 1);
    }
  }

  function WholeEnd(src: bytes, pos: nat): nat
    requires pos < |src|
  {
    if src[pos] == ZERO then pos + 1 else SkipDigits(src, pos)
  }

  lemma WholeSame(a: bytes, b: bytes, pos: nat)
    requires pos < |a| && IsDigit(a[pos]) && Alike(a, b, WholeEnd(a, pos))
    ensures pos < |b| && a[pos] == b[pos] && WholeEnd(b, pos) == WholeEnd(a, pos) > pos
  {
    AgreeByte(a, b, WholeEnd(a, pos), pos);
    if a[pos] != ZERO {
      DigitsSame(a, b, pos);
    }
  }

  lemma UnsignedSame(a: bytes, b: bytes, pos: nat)
    requires pos <= |a| && ScanUnsigned(a, pos).Good? && Alike(a, b, ScanUnsigned(a, pos).pos)
    ensures ScanUnsigned(b, pos) == ScanUnsigned(a, pos)
  {
    hide ParseFraction, ParseExponent, SkipDigits, Alike;
    var q := ScanUnsigned(a, pos).pos;
    var whole := WholeEnd(a, pos);
    var p := ParseFraction(a, whole).pos;
    LikeUpTo(a, b, q, whole);
    LikeUpTo(a, b, q, p);
    WholeSame(a, b, pos);
    FractionSame(a, b, whole);
    ExponentSame(a, b, p);
  }

  lemma LikeUpTo(a: bytes, b: bytes, q: nat, p: nat)
    requires Alike(a, b, q) && p <= q
    ensures Alike(a, b, p)
  {
    AgreeLess(a, b, q, p);
  }

  lemma NumberSame(a: bytes, b: bytes, pos: nat)
    requires pos <= |a| && ParseNumber(a, pos).Good? && Alike(a, b, ParseNumber(a, pos).pos)
    ensures ParseNumber(b, pos) == ParseNumber(a, pos)
  {
    hide ScanUnsigned;
    var q := ParseNumber(a, pos).pos;
    AgreeByte(a, b, q, pos);
    UnsignedSame(a, b, if Peek(a, pos) == MINUS then pos + 1 else pos);
    assert a[pos..q] == a[..q][pos..] == b[pos..q];
  }

  lemma UnsignedStillBad(a: bytes, b: bytes, pos: nat)
    requires pos <= |a| && ScanUnsigned(a, pos).Bad? && Alike(a, b, ScanUnsigned(a, pos).offset)
    ensures pos <= |b| && ScanUnsigned(b, pos).Bad?
  {
    hide SkipDigits;
    var o := ScanUnsigned(a, pos).offset;
    if o > pos {
      hide ParseFraction, ParseExponent;
      AgreeByte(a, b, o, pos);
      var whole := WholeEnd(a, pos);
      LikeUpTo(a, b, o, whole);
      WholeSame(a, b, pos);
      if ParseFraction(a, whole).Bad? {
        FractionStillBad(a, b, whole);
      } else {
        var p := ParseFraction(a, whole).pos;
        LikeUpTo(a, b, o, p);
        FractionSame(a, b, whole);
        ExponentStillBad(a, b, p);
      }
    }
  }

  lemma FractionStillBad(a: bytes, b: bytes, pos: nat)
    requires pos <= |a| && ParseFraction(a, pos).Bad? && Alike(a, b, ParseFraction(a, pos).offset)
    ensures pos <= |b| && ParseFraction(b, pos).Bad?
  {
    var o := ParseFraction(a, pos).offset;
    AgreeByte(a, b, o, pos);
    DigitsNone(b, o);
  }

  lemma ExponentStillBad(a: bytes, b: bytes, pos: nat)
    requires pos <= |a| && ParseExponent(a, pos).Bad? && Alike(a, b, ParseExponent(a, pos).offset)
    ensures pos <= |b| && ParseExponent(b, pos).Bad?
  {
    var o := ParseExponent(a, pos).offset;
    AgreeByte(a, b, o, pos);
    if o == pos + 2 {
      AgreeByte(a, b, o, pos + 1);
    }
    DigitsNone(b, o);
  }

  lemma DigitsNone(b: bytes, o: nat)
    requires o <= |b| && !IsDigit(Peek(b, o))
    ensures SkipDigits(b, o) == o
  {
  }

  /** A number that goes wrong at a byte goes wrong at that byte, or at the end in its place. */
  lemma NumberStillBad(a: bytes, b: bytes, pos: nat)
    requires pos <= |a| && ParseNumber(a, pos).Bad? && Alike(a, b, ParseNumber(a, pos).offset)
    ensures pos <= |b| && ParseNumber(b, pos).Bad?
  {
    hide ScanUnsigned;
    var o := ParseNumber(a, pos).offset;
    if Peek(a, pos) == MINUS {
      AgreeByte(a, b, o, pos);
      UnsignedStillBad(a, b, pos + 1);
    } else {
      UnsignedStillBad(a, b, pos);
      LikeUpTo(a, b, o, pos);
    }
  }

  // ----- Strings -----

  /**
   `b` shows enough of the fault that `a` has at `o`: it ends there, or agrees on all the bytes that
   settle it, or the fault is an escape from `spot` on that was doomed before.
   */
  predicate Looks(a: bytes, b: bytes, message: string, o: nat, spot: nat)
  {
    && Agree(a, b, o)
    && (|| |b| == o
        || Agree(a, b, Reach(a, message, o))
        || (message == BAD_ESCAPE && spot <= o && Doomed(a[spot..o])))
  }

  lemma LooksAlike(a: bytes, b: bytes, message: string, o: nat, spot: nat, p: nat)
    requires Looks(a, b, message, o, spot) && p <= o
    ensures p < o || message != BAD_ESCAPE ==> Alike(a, b, p)
  {
    AgreeLess(a, b, o, p);
    if p == o && Agree(a, b, Reach(a, message, o)) {
      AgreeLess(a, b, Reach(a, message, o), o);
    }
  }

  lemma Hex4Same(a: bytes, b: bytes, pos: nat)
    requires pos <= |a| && ParseHex4(a, pos).Good? && Agree(a, b, pos + 4)
    ensures ParseHex4(b, pos) == ParseHex4(a, pos)
  {
    assert forall i :: pos <= i < pos + 4 ==> a[i] == a[..pos + 4][i] == b[i];
  }

  lemma UnicodeSame(a: bytes, b: bytes, pos: nat)
    requires 2 <= pos <= |a| && ParseUnicode(a, pos).Good? && Agree(a, b, ParseUnicode(a, pos).pos)
    ensures ParseUnicode(b, pos) == ParseUnicode(a, pos)
  {
    var q := ParseUnicode(a, pos).pos;
    AgreeLess(a, b, q, pos + 4);
    Hex4Same(a, b, pos);
    if q > pos + 4 {
      AgreeByte(a, b, q, pos + 4);
      AgreeByte(a, b, q, pos + 5);
      Hex4Same(a, b, pos + 6);
    }
  }

  lemma UnicodeBadWhere(src: bytes, pos: nat)
    requires 2 <= pos <= |src| && ParseUnicode(src, pos).Bad?
    ensures var r := ParseUnicode(src, pos); r == Bad(UNPAIRED, pos - 2) || (r.message == BAD_ESCAPE && r.offset >= pos)
  {
  }

  /** An escape that fails, fails for what Reach takes in, or for a digit, or for the end. */
  lemma UnicodeStillBad(a: bytes, b: bytes, pos: nat)
    requires 2 <= pos <= |a| && a[pos - 2] == BACKSLASH && a[pos - 1] == LETTER_U && ParseUnicode(a, pos).Bad?
    requires var r := ParseUnicode(a, pos); Looks(a, b, r.message, r.offset, pos - 2) && |b| >= pos
    ensures ParseUnicode(b, pos).Bad?
  {
    var r := ParseUnicode(a, pos);
    if r.message == UNPAIRED {
      UnpairedStillBad(a, b, pos);
    } else {
      HexStillBad(a, b, pos);
    }
  }

  lemma UnpairedStillBad(a: bytes, b: bytes, pos: nat)
    requires 2 <= pos <= |a| && pos <= |b| && ParseUnicode(a, pos) == Bad(UNPAIRED, pos - 2)
    requires Agree(a, b, PairReach(a, pos - 2))
    ensures ParseUnicode(b, pos).Bad?
  {
    var n := PairReach(a, pos - 2);
    AgreeLess(a, b, n, pos + 4);
    Hex4Same(a, b, pos);
    assert forall i :: 0 <= i < n ==> a[i] == a[..n][i] == b[i];
    if n == pos + 10 {
      Hex4Same(a, b, pos + 6);
    }
  }

  lemma HexStillBad(a: bytes, b: bytes, pos: nat)
    requires 2 <= pos <= |a| && pos <= |b| && a[pos - 2] == BACKSLASH && a[pos - 1] == LETTER_U
    requires var r := ParseUnicode(a, pos); r.Bad? && r.message == BAD_ESCAPE && Looks(a, b, BAD_ESCAPE, r.offset, pos - 2)
    ensures ParseUnicode(b, pos).Bad?
  {
    var o := ParseUnicode(a, pos).offset;
    if ParseHex4(a, pos).Bad? {
      FirstHexStillBad(a, b, pos);
    } else {
      AgreeLess(a, b, o, pos + 4);
      Hex4Same(a, b, pos);
      AgreeByte(a, b, o, pos + 4);
      AgreeByte(a, b, o, pos + 5);
      SecondHexStillBad(a, b, pos);
    }
  }

  /** Four digits cannot be read through a byte that is none, or past the end. */
  lemma NoHex(b: bytes, pos: nat, o: nat)
    requires pos <= o < pos + 4 && pos <= |b| && (o >= |b| || !IsHex(b[o]))
    ensures ParseHex4(b, pos).Bad?
  {
  }

  lemma HexFault(a: bytes, pos: nat)
    requires pos <= |a| && ParseHex4(a, pos).Bad?
    ensures var r := ParseHex4(a, pos); r.message == BAD_ESCAPE && pos <= r.offset < pos + 4
  {
  }

  /** The bytes at hand show the fault at `o` again, unless the escape is doomed. */
  lemma HexAgain(a: bytes, b: bytes, pos: nat, spot: nat)
    requires pos <= |a| && pos <= |b| && ParseHex4(a, pos).Bad? && Looks(a, b, BAD_ESCAPE, ParseHex4(a, pos).offset, spot)
    requires spot <= pos && !Doomed(a[spot..ParseHex4(a, pos).offset])
    ensures ParseHex4(b, pos).Bad?
  {
    hide ParseHex4, Doomed;
    HexFault(a, pos);
    var o := ParseHex4(a, pos).offset;
    if |b| > o {
      HexShort(a, pos);
      AgreeByte(a, b, o + 1, o);
    }
    NoHex(b, pos, o);
  }

  /** A fault at a byte that is a digit is the end of the input coming too soon. */
  lemma HexShort(a: bytes, pos: nat)
    requires pos <= |a| && ParseHex4(a, pos).Bad?
    ensures var o := ParseHex4(a, pos).offset; IsHex(Peek(a, o)) ==> o + 4 > |a|
  {
  }

  lemma FirstHexStillBad(a: bytes, b: bytes, pos: nat)
    requires 2 <= pos <= |a| && pos <= |b| && a[pos - 2] == BACKSLASH && a[pos - 1] == LETTER_U
    requires ParseHex4(a, pos).Bad? && Looks(a, b, BAD_ESCAPE, ParseHex4(a, pos).offset, pos - 2)
    ensures ParseUnicode(b, pos).Bad?
  {
    hide ParseHex4, Looks;
    HexFault(a, pos);
    var o := ParseHex4(a, pos).offset;
    LooksLess(a, b, BAD_ESCAPE, o, pos - 2);
    var e := a[pos - 2..o];
    if !Doomed(e) {
      HexAgain(a, b, pos, pos - 2);
    } else if ParseHex4(b, pos).Good? {
      var h := Hex4Sound(b, pos);
      AtHex4(b, pos, h);
      SurrogateDigits(h);
      AgreeByte(a, b, o, pos);
      AgreeByte(a, b, o, pos + 1);
      assert e[2] == a[pos] && e[3] == a[pos + 1];
    }
  }

  lemma AtHex4(b: bytes, pos: nat, h: Hex4)
    requires At(b, pos, h.Text())
    ensures pos + 4 <= |b| && h.a == b[pos] && h.b == b[pos + 1]
  {
    assert h.Text()[0] == h.a && h.Text()[1] == h.b;
  }

  lemma SecondHexStillBad(a: bytes, b: bytes, pos: nat)
    requires 2 <= pos <= |a| && pos + 6 <= |b| && a[pos - 2] == BACKSLASH && a[pos - 1] == LETTER_U
    requires ParseHex4(a, pos).Good? && Utf8.IsHigh(ParseHex4(a, pos).value) && ParseHex4(b, pos) == ParseHex4(a, pos)
    requires pos + 6 <= |a| && ParseHex4(a, pos + 6).Bad? && Looks(a, b, BAD_ESCAPE, ParseHex4(a, pos + 6).offset, pos - 2)
    ensures ParseUnicode(b, pos).Bad?
  {
    hide ParseHex4, Looks;
    HexFault(a, pos + 6);
    var o := ParseHex4(a, pos + 6).offset;
    LooksLess(a, b, BAD_ESCAPE, o, pos - 2);
    var e := a[pos - 2..o];
    if !Doomed(e) {
      HexAgain(a, b, pos + 6, pos - 2);
      SecondBad(b, pos);
    } else if ParseHex4(b, pos + 6).Good? {
      var l := Hex4Sound(b, pos + 6);
      AtHex4(b, pos + 6, l);
      SurrogateDigits(l);
      AgreeByte(a, b, o, pos + 6);
      assert e[8] == a[pos + 6];
      if |e| >= 10 {
        AgreeByte(a, b, o, pos + 7);
        assert e[9] == a[pos + 7];
      }
      SecondBad(b, pos);
    } else {
      SecondBad(b, pos);
    }
  }

  lemma SecondBad(b: bytes, pos: nat)
    requires 2 <= pos && pos + 6 <= |b| && ParseHex4(b, pos).Good? && Utf8.IsHigh(ParseHex4(b, pos).value)
    requires ParseHex4(b, pos + 6).Bad? || !Utf8.IsLow(ParseHex4(b, pos + 6).value)
    ensures ParseUnicode(b, pos).Bad?
  {
  }

  lemma {:induction false} CharsStillBad(a: bytes, b: bytes, pos: nat)
    requires 0 < pos <= |a| && ParseChars(a, pos).Bad?
    requires var r := ParseChars(a, pos); Looks(a, b, r.message, r.offset, CharsSpot(a, pos))
    ensures pos <= |b| && ParseChars(b, pos).Bad?
    decreases |a| - pos
  {
    hide ParseUnicode, Looks;
    var r := ParseChars(a, pos);
    var o := r.offset;
    LooksWhere(a, b, r.message, o, CharsSpot(a, pos));
    if pos < |b| && pos < |a| {
      if pos < o {
        AgreeByte(a, b, o, pos);
      }
      if a[pos] != QUOTE && a[pos] >= 32 && a[pos] != BACKSLASH {
        CharsStillBad(a, b, pos + 1);
      } else if a[pos] == BACKSLASH {
        if pos + 1 < |a| && a[pos + 1] == LETTER_U && ParseUnicode(a, pos + 2).Bad? {
          UnicodeBadWhere(a, pos + 2);
        }
        EscapeStillBad(a, b, pos);
      }
    }
  }

  lemma LooksWhere(a: bytes, b: bytes, message: string, o: nat, spot: nat)
    requires Looks(a, b, message, o, spot)
    ensures Agree(a, b, o) && (|b| > o && message != BAD_ESCAPE ==> o < |a| && a[o] == b[o])
    ensures |b| > o && (message == INVALID_ESCAPE || message == UNPAIRED || message == INVALID_LITERAL) ==>
              Agree(a, b, Reach(a, message, o))
  {
    if |b| > o && Agree(a, b, Reach(a, message, o)) {
      AgreeByte(a, b, Reach(a, message, o), o);
    }
  }

  lemma {:induction false} EscapeStillBad(a: bytes, b: bytes, pos: nat)
    requires 0 < pos < |a| && pos < |b| && a[pos] == b[pos] == BACKSLASH && ParseChars(a, pos).Bad?
    requires var r := ParseChars(a, pos); Looks(a, b, r.message, r.offset, CharsSpot(a, pos))
    ensures ParseChars(b, pos).Bad?
    decreases |a| - pos, 0
  {
    hide ParseUnicode, Looks;
    var r := ParseChars(a, pos);
    var o := r.offset;
    LooksWhere(a, b, r.message, o, CharsSpot(a, pos));
    if pos + 1 < |b| && pos + 1 < |a| {
      if IsShortEscape(a[pos + 1]) {
        AgreeByte(a, b, o, pos + 1);
        CharsStillBad(a, b, pos + 2);
      } else if a[pos + 1] != LETTER_U {
        AgreeByte(a, b, pos + 2, pos + 1);
      } else if ParseUnicode(a, pos + 2).Good? {
        AgreeByte(a, b, o, pos + 1);
        AgreeLess(a, b, o, ParseUnicode(a, pos + 2).pos);
        UnicodeSame(a, b, pos + 2);
        CharsStillBad(a, b, ParseUnicode(a, pos + 2).pos);
      } else {
        MarkAgrees(a, b, pos);
        UnicodeStillBad(a, b, pos + 2);
      }
    }
  }

  lemma PairReaches(a: bytes, pos: nat)
    ensures PairReach(a, pos) >= pos + 6
  {
  }

  lemma MarkAgrees(a: bytes, b: bytes, pos: nat)
    requires pos + 2 <= |a| && a[pos] == BACKSLASH && a[pos + 1] == LETTER_U && pos + 1 < |b|
    requires var r := ParseUnicode(a, pos + 2); r.Bad? && Looks(a, b, r.message, r.offset, pos)
    ensures b[pos + 1] == LETTER_U
  {
    hide ParseUnicode, PairReach, Doomed;
    var r := ParseUnicode(a, pos + 2);
    UnicodeBadWhere(a, pos + 2);
    if r.message == UNPAIRED {
      PairReaches(a, pos);
      AgreeByte(a, b, PairReach(a, pos), pos + 1);
    } else {
      AgreeByte(a, b, r.offset, pos + 1);
    }
  }

  // ----- Values -----

  /** What was read before the fault is read the same, also under a larger limit. */
  lemma ValueSame(a: bytes, b: bytes, pos: nat, depth: nat, maxDepth: int, larger: int)
    requires pos <= |a| && ParseValue(a, pos, depth, maxDepth).Good? && maxDepth <= larger
    requires Alike(a, b, ParseValue(a, pos, depth, maxDepth).pos)
    ensures pos <= |b| && ParseValue(b, pos, depth, larger) == ParseValue(a, pos, depth, maxDepth)
  {
    hide ParseValue, TreeText, TreeMeaning, TreeDepth, ValidTree, At, Alike;
    var q := ParseValue(a, pos, depth, maxDepth).pos;
    var pre, t := ValueSound(a, pos, depth, maxDepth);
    var p := pos + |pre|;
    AlikeAgrees(a, b, q);
    AgreeAt(a, b, q, pos, pre);
    AgreeAt(a, b, q, p, TreeText(t));
    TreeHead(t);
    AtHead(b, p, TreeText(t));
    SkipWsOver(b, pos, pre);
    ValueAfterWs(b, pos, depth, larger);
    if t.NumberLeaf? {
      TreeHead(t);
      AtHead(a, p, TreeText(t));
      SkipWsOver(a, pos, pre);
      ValueAfterWs(a, pos, depth, maxDepth);
      NumberLeafSame(a, b, p, t, depth, maxDepth, larger);
    } else {
      TreeParses(b, p, t, depth, larger);
    }
  }

  lemma AlikeAgrees(a: bytes, b: bytes, q: nat)
    requires Alike(a, b, q)
    ensures Agree(a, b, q) && q <= |a| && q <= |b|
  {
  }

  lemma NumberLeafSame(a: bytes, b: bytes, p: nat, t: Tree, depth: nat, maxDepth: int, larger: int)
    requires p <= |a| && p <= |b| && t.NumberLeaf? && ValidTree(t) && At(a, p, TreeText(t)) && At(b, p, TreeText(t))
    requires ParseValue(a, p, depth, maxDepth).Good? && Alike(a, b, ParseValue(a, p, depth, maxDepth).pos)
    ensures ParseValue(b, p, depth, larger) == ParseValue(a, p, depth, maxDepth)
  {
    hide ParseNumber, NumberTree.Text;
    NumberStart(a, p, t.num, depth, maxDepth);
    NumberStart(b, p, t.num, depth, larger);
    NumberSame(a, b, p);
  }

  lemma NumberStart(src: bytes, p: nat, num: NumberTree, depth: nat, maxDepth: int)
    requires num.Valid() && At(src, p, num.Text())
    ensures ParseValue(src, p, depth, maxDepth) == ParseNumber(src, p)
  {
    hide ParseNumber;
    AtHead(src, p, num.Text());
    if !num.minus {
      assert num.Text()[0] == num.whole[0] && IsDigit(num.whole[0]);
    }
    SkipWsOver(src, p, []);
  }

  lemma KeySame(a: bytes, b: bytes, pos: nat)
    requires pos <= |a| && ParseKey(a, pos).Good? && Agree(a, b, ParseKey(a, pos).pos)
    ensures pos <= |b| && ParseKey(b, pos) == ParseKey(a, pos)
  {
    hide ParseChars, PiecesText, PiecesMeaning, StringText, At;
    var q := ParseKey(a, pos).pos;
    var pre, key, gap := KeySound(a, pos);
    var start := pos + |pre|;
    var colon := start + |StringText(key)| + |gap|;
    AgreeAt(a, b, q, pos, pre);
    AgreeAt(a, b, q, start, StringText(key));
    AgreeAt(a, b, q, start + |StringText(key)|, gap);
    AgreeAt(a, b, q, colon, [COLON]);
    StringParses(b, start, key);
    AtHead(b, colon, [COLON]);
    SkipWsOver(b, pos, pre);
    SkipWsOver(b, start + |StringText(key)|, gap);
  }

  lemma KeyStillBad(a: bytes, b: bytes, pos: nat)
    requires pos <= |a| && ParseKey(a, pos).Bad?
    requires var r := ParseKey(a, pos); Looks(a, b, r.message, r.offset, KeySpot(a, pos))
    ensures pos <= |b| && ParseKey(b, pos).Bad?
  {
    hide ParseChars, Looks, Alike, CharsSpot, SkipWs;
    var r := ParseKey(a, pos);
    var p := SkipWs(a, pos);
    LooksLess(a, b, r.message, r.offset, KeySpot(a, pos));
    LooksAlike(a, b, r.message, r.offset, KeySpot(a, pos), p);
    WsSame(a, b, pos);
    PeekSame(a, b, p);
    if Peek(a, p) == QUOTE && Peek(b, p) == QUOTE {
      if ParseChars(a, p + 1).Bad? {
        CharsStillBad(a, b, p + 1);
      } else {
        StringSame(a, b, p, r.offset);
        var q := ParseChars(a, p + 1).pos;
        LooksAlike(a, b, r.message, r.offset, KeySpot(a, pos), SkipWs(a, q));
        WsSame(a, b, q);
        PeekSame(a, b, SkipWs(a, q));
      }
    }
  }

  lemma StringSame(a: bytes, b: bytes, p: nat, n: nat)
    requires p < |a| && a[p] == QUOTE && ParseChars(a, p + 1).Good? && Agree(a, b, n) && ParseChars(a, p + 1).pos <= n
    ensures p < |b| && b[p] == QUOTE && ParseChars(b, p + 1) == ParseChars(a, p + 1)
  {
    hide ParseChars, PiecesText, PiecesMeaning, StringText, At;
    var ps := StringSound(a, p);
    AgreeAt(a, b, n, p, StringText(ps));
    StringParses(b, p, ps);
    AgreeByte(a, b, n, p);
  }

  lemma LooksLess(a: bytes, b: bytes, message: string, o: nat, spot: nat)
    requires Looks(a, b, message, o, spot)
    ensures Agree(a, b, o) && o <= |a| && o <= |b|
  {
  }

  /** The fault in `b` needs the limit of `a` where it is that limit. */
  predicate Limits(message: string, o: nat, b: bytes, maxDepth: int, larger: int)
  {
    maxDepth <= larger && (message == TOO_DEEP && |b| > o ==> maxDepth == larger)
  }

  lemma LiteralStillBad(a: bytes, b: bytes, p: nat, text: bytes)
    requires p < |a| && p < |b| && a[p] == b[p] && !At(a, p, text) && text != []
    requires |text| == (if a[p] == 102 then 5 else 4) && Looks(a, b, INVALID_LITERAL, p, p)
    ensures !At(b, p, text)
  {
    var n := p + |text|;
    assert Agree(a, b, n);
    if At(b, p, text) {
      AgreeAt(b, a, n, p, text);
    }
  }

  lemma LeafStillBad(a: bytes, b: bytes, p: nat, depth: nat, maxDepth: int, larger: int)
    requires p < |a| && p < |b| && a[p] == b[p] && !IsWs(a[p]) && a[p] != LBRACE && a[p] != LBRACKET
    requires ParseValue(a, p, depth, maxDepth).Bad?
    requires var r := ParseValue(a, p, depth, maxDepth); Looks(a, b, r.message, r.offset, ValueSpot(a, p, depth, maxDepth))
    ensures ParseValue(b, p, depth, larger).Bad?
  {
    hide ParseChars, ParseNumber, CharsSpot, Looks;
    SkipWsOver(a, p, []);
    SkipWsOver(b, p, []);
    var r := ParseValue(a, p, depth, maxDepth);
    if a[p] == QUOTE {
      CharsStillBad(a, b, p + 1);
    } else if a[p] == 116 {
      LiteralStillBad(a, b, p, TRUE_TEXT);
    } else if a[p] == 102 {
      LiteralStillBad(a, b, p, FALSE_TEXT);
    } else if a[p] == 110 {
      LiteralStillBad(a, b, p, NULL_TEXT);
    } else if a[p] == MINUS || IsDigit(a[p]) {
      NumberMessage(a, p);
      LooksAlike(a, b, r.message, r.offset, ValueSpot(a, p, depth, maxDepth), r.offset);
      NumberStillBad(a, b, p);
    }
  }

  lemma NumberMessage(src: bytes, pos: nat)
    requires pos <= |src| && ParseNumber(src, pos).Bad?
    ensures var m := ParseNumber(src, pos).message;
            m != BAD_ESCAPE && m != UNPAIRED && m != INVALID_ESCAPE && m != INVALID_LITERAL && m != TOO_DEEP && m != TRAILING
  {
    var m := ParseNumber(src, pos).message;
    assert m[0] == 'e' && BAD_ESCAPE[0] == 'b' && UNPAIRED[0] == 'u' && INVALID_ESCAPE[0] == 'i';
    assert INVALID_LITERAL[0] == 'i' && TOO_DEEP[0] == 'n' && TRAILING[0] == 'u';
  }

  lemma {:induction false} ValueStillBad(a: bytes, b: bytes, pos: nat, depth: nat, maxDepth: int, larger: int)
    requires pos <= |a| && ParseValue(a, pos, depth, maxDepth).Bad?
    requires var r := ParseValue(a, pos, depth, maxDepth);
             Looks(a, b, r.message, r.offset, ValueSpot(a, pos, depth, maxDepth)) && Limits(r.message, r.offset, b, maxDepth, larger)
    ensures pos <= |b| && ParseValue(b, pos, depth, larger).Bad?
    decreases |a| - pos, 2
  {
    hide Looks, Alike, ParseArray, ParseObject, ParseChars, CharsSpot, ParseNumber, SkipWs;
    var r := ParseValue(a, pos, depth, maxDepth);
    var spot := ValueSpot(a, pos, depth, maxDepth);
    var p := SkipWs(a, pos);
    LooksLess(a, b, r.message, r.offset, spot);
    AtValue(a, b, pos, depth, maxDepth);
    WsSame(a, b, pos);
    if p < |b| {
      SpotAfterWs(a, pos, depth, maxDepth);
      ValueAfterWs(a, pos, depth, maxDepth);
      ValueAfterWs(b, pos, depth, larger);
      AlikeByte(a, b, p);
      if a[p] == LBRACKET {
        ArrayStillBad(a, b, p, depth, maxDepth, larger);
      } else if a[p] == LBRACE {
        ObjectStillBad(a, b, p, depth, maxDepth, larger);
      } else {
        LeafStillBad(a, b, p, depth, maxDepth, larger);
      }
    }
  }

  lemma SkipTwice(src: bytes, pos: nat)
    requires pos <= |src|
    ensures SkipWs(src, SkipWs(src, pos)) == SkipWs(src, pos)
  {
    SkipWsOver(src, SkipWs(src, pos), []);
  }

  lemma AlikeByte(a: bytes, b: bytes, p: nat)
    requires Alike(a, b, p) && p < |b|
    ensures p < |a| && a[p] == b[p]
  {
  }

  lemma SpotAfterWs(src: bytes, pos: nat, depth: nat, maxDepth: int)
    requires pos <= |src|
    ensures ValueSpot(src, pos, depth, maxDepth) == ValueSpot(src, SkipWs(src, pos), depth, maxDepth)
  {
    SkipWsOver(src, SkipWs(src, pos), []);
  }

  /** Up to where a value starts the texts are alike. */
  lemma AtValue(a: bytes, b: bytes, pos: nat, depth: nat, maxDepth: int)
    requires pos <= |a| && ParseValue(a, pos, depth, maxDepth).Bad?
    requires var r := ParseValue(a, pos, depth, maxDepth); Looks(a, b, r.message, r.offset, ValueSpot(a, pos, depth, maxDepth))
    ensures Alike(a, b, SkipWs(a, pos))
  {
    hide Looks, Alike, ParseChars, CharsSpot, ParseNumber, ParseElems, ParseMembers, ElemsSpot, MembersSpot;
    var r := ParseValue(a, pos, depth, maxDepth);
    var p := SkipWs(a, pos);
    if p < |a| && (a[p] == MINUS || IsDigit(a[p])) {
      NumberMessage(a, p);
    }
    LooksAlike(a, b, r.message, r.offset, ValueSpot(a, pos, depth, maxDepth), p);
  }

  lemma {:induction false} ArrayStillBad(a: bytes, b: bytes, p: nat, depth: nat, maxDepth: int, larger: int)
    requires p < |a| && p < |b| && a[p] == b[p] == LBRACKET && ParseArray(a, p, depth, maxDepth).Bad?
    requires var r := ParseArray(a, p, depth, maxDepth);
             Looks(a, b, r.message, r.offset, ArraySpot(a, p, depth, maxDepth)) && Limits(r.message, r.offset, b, maxDepth, larger)
    ensures ParseArray(b, p, depth, larger).Bad?
    decreases |a| - p, 1
  {
    hide Looks, Alike, ParseElems, ElemsSpot, SkipWs;
    var r := ParseArray(a, p, depth, maxDepth);
    if depth + 1 <= maxDepth {
      var q := SkipWs(a, p + 1);
      LooksLess(a, b, r.message, r.offset, ArraySpot(a, p, depth, maxDepth));
      SkipTwice(a, p + 1);
      AtElems(a, b, q, depth + 1, maxDepth);
      WsSame(a, b, p + 1);
      PeekSame(a, b, q);
      ElemsStillBad(a, b, q, depth + 1, maxDepth, larger);
    }
  }

  lemma AtElems(a: bytes, b: bytes, pos: nat, depth: nat, maxDepth: int)
    requires pos <= |a| && ParseElems(a, pos, depth, maxDepth).Bad? && SkipWs(a, pos) == pos
    requires var r := ParseElems(a, pos, depth, maxDepth); Looks(a, b, r.message, r.offset, ElemsSpot(a, pos, depth, maxDepth))
    ensures Alike(a, b, pos)
  {
    hide Looks, Alike, ParseValue, ValueSpot, SkipWs;
    var r := ParseElems(a, pos, depth, maxDepth);
    if ParseValue(a, pos, depth, maxDepth).Bad? {
      AtValue(a, b, pos, depth, maxDepth);
    } else {
      LooksAlike(a, b, r.message, r.offset, ElemsSpot(a, pos, depth, maxDepth), pos);
    }
  }

  lemma {:induction false} ElemsStillBad(a: bytes, b: bytes, pos: nat, depth: nat, maxDepth: int, larger: int)
    requires pos <= |a| && ParseElems(a, pos, depth, maxDepth).Bad?
    requires var r := ParseElems(a, pos, depth, maxDepth);
             Looks(a, b, r.message, r.offset, ElemsSpot(a, pos, depth, maxDepth)) && Limits(r.message, r.offset, b, maxDepth, larger)
    ensures pos <= |b| && ParseElems(b, pos, depth, larger).Bad?
    decreases |a| - pos, 3
  {
    hide Looks, Alike, ParseValue, ValueSpot, SkipWs;
    var r := ParseElems(a, pos, depth, maxDepth);
    var spot := ElemsSpot(a, pos, depth, maxDepth);
    if ParseValue(a, pos, depth, maxDepth).Bad? {
      ValueStillBad(a, b, pos, depth, maxDepth, larger);
    } else {
      var q := ParseValue(a, pos, depth, maxDepth).pos;
      var p := SkipWs(a, q);
      LooksAlike(a, b, r.message, r.offset, spot, p);
      LikeUpTo(a, b, p, q);
      ValueSame(a, b, pos, depth, maxDepth, larger);
      WsSame(a, b, q);
      PeekSame(a, b, p);
      if Peek(a, p) == COMMA && Peek(b, p) == COMMA {
        ElemsStillBad(a, b, p + 1, depth, maxDepth, larger);
      }
    }
  }

  lemma {:induction false} ObjectStillBad(a: bytes, b: bytes, p: nat, depth: nat, maxDepth: int, larger: int)
    requires p < |a| && p < |b| && a[p] == b[p] == LBRACE && ParseObject(a, p, depth, maxDepth).Bad?
    requires var r := ParseObject(a, p, depth, maxDepth);
             Looks(a, b, r.message, r.offset, ObjectSpot(a, p, depth, maxDepth)) && Limits(r.message, r.offset, b, maxDepth, larger)
    ensures ParseObject(b, p, depth, larger).Bad?
    decreases |a| - p, 1
  {
    hide Looks, Alike, ParseMembers, MembersSpot, SkipWs;
    var r := ParseObject(a, p, depth, maxDepth);
    if depth + 1 <= maxDepth {
      var q := SkipWs(a, p + 1);
      LooksLess(a, b, r.message, r.offset, ObjectSpot(a, p, depth, maxDepth));
      SkipTwice(a, p + 1);
      AtMembers(a, b, q, depth + 1, maxDepth);
      WsSame(a, b, p + 1);
      PeekSame(a, b, q);
      MembersStillBad(a, b, q, depth + 1, maxDepth, larger);
    }
  }

  lemma AtMembers(a: bytes, b: bytes, pos: nat, depth: nat, maxDepth: int)
    requires pos <= |a| && ParseMembers(a, pos, depth, maxDepth).Bad? && SkipWs(a, pos) == pos
    requires var r := ParseMembers(a, pos, depth, maxDepth); Looks(a, b, r.message, r.offset, MembersSpot(a, pos, depth, maxDepth))
    ensures Alike(a, b, pos)
  {
    hide Looks, Alike, ParseValue, ValueSpot, ParseChars, CharsSpot, SkipWs;
    var r := ParseMembers(a, pos, depth, maxDepth);
    LooksAlike(a, b, r.message, r.offset, MembersSpot(a, pos, depth, maxDepth), pos);
  }

  lemma {:induction false} MembersStillBad(a: bytes, b: bytes, pos: nat, depth: nat, maxDepth: int, larger: int)
    requires pos <= |a| && ParseMembers(a, pos, depth, maxDepth).Bad?
    requires var r := ParseMembers(a, pos, depth, maxDepth);
             Looks(a, b, r.message, r.offset, MembersSpot(a, pos, depth, maxDepth)) && Limits(r.message, r.offset, b, maxDepth, larger)
    ensures pos <= |b| && ParseMembers(b, pos, depth, larger).Bad?
    decreases |a| - pos, 3
  {
    hide Looks, Alike, ParseValue, ValueSpot, ParseKey, KeySpot, SkipWs;
    var r := ParseMembers(a, pos, depth, maxDepth);
    var spot := MembersSpot(a, pos, depth, maxDepth);
    LooksLess(a, b, r.message, r.offset, spot);
    if ParseKey(a, pos).Bad? {
      KeyStillBad(a, b, pos);
    } else {
      var start := ParseKey(a, pos).pos;
      AgreeLess(a, b, r.offset, start);
      KeySame(a, b, pos);
      if ParseValue(a, start, depth, maxDepth).Bad? {
        ValueStillBad(a, b, start, depth, maxDepth, larger);
      } else {
        var q := ParseValue(a, start, depth, maxDepth).pos;
        var p := SkipWs(a, q);
        LooksAlike(a, b, r.message, r.offset, spot, p);
        LikeUpTo(a, b, p, q);
        ValueSame(a, b, start, depth, maxDepth, larger);
        WsSame(a, b, q);
        PeekSame(a, b, p);
        if Peek(a, p) == COMMA && Peek(b, p) == COMMA {
          MembersStillBad(a, b, p + 1, depth, maxDepth, larger);
        }
      }
    }
  }
}
