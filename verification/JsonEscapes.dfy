/** `\u` escapes in JSON strings: every Unicode scalar value, each as its UTF-8, and nothing else. */
module JsonEscapes {
  import opened Kod
  import opened ByteText
  import opened JsonGrammar
  import opened JsonParse
  import opened JsonComplete
  import opened JsonSound
  import Utf8

  predicate IsUnicodeEscape(p: Piece)
  {
    (p.Unit? || p.Pair?) && p.Valid()
  }

  /** The scalar value an escape, or a pair of them, stands for. */
  function CodePoint(p: Piece): (cp: nat)
    requires IsUnicodeEscape(p)
    ensures Utf8.IsScalar(cp)
    ensures p.Pair? <==> cp >= 0x10000
  {
    if p.Unit? then p.h.Unit() else Utf8.Join(p.high.Unit(), p.low.Unit())
  }

  /** What the parser appends for an escape is one UTF-8 character, that of its scalar value. */
  lemma MeaningIsUtf8(p: Piece)
    requires IsUnicodeEscape(p)
    ensures Utf8.IsUtf8Char(p.Meaning()) && Utf8.Decode(p.Meaning()) == CodePoint(p)
  {
    Utf8.EncodeIsUtf8(CodePoint(p));
  }

  /** Escapes for different scalar values never decode to the same bytes. */
  lemma MeaningIsInjective(p: Piece, q: Piece)
    requires IsUnicodeEscape(p) && IsUnicodeEscape(q)
    ensures p.Meaning() == q.Meaning() <==> CodePoint(p) == CodePoint(q)
  {
    MeaningIsUtf8(p);
    MeaningIsUtf8(q);
    assert p.Meaning() == Utf8.Encode(CodePoint(p)) && q.Meaning() == Utf8.Encode(CodePoint(q));
  }

  function HexOf(u: nat): (h: Hex4)
    requires u < 0x10000
    ensures h.Valid() && h.Unit() == u
  {
    assert u == u / 16 * 16 + u % 16;
    assert u / 16 == u / 256 * 16 + u / 16 % 16;
    assert u / 256 == u / 4096 * 16 + u / 256 % 16;
    Hex4(HexDigit(u / 4096), HexDigit(u / 256 % 16), HexDigit(u / 16 % 16), HexDigit(u % 16))
  }

  /** Every scalar value has an escape, and reading it gives back the value's UTF-8. */
  function EscapeFor(cp: nat): (p: Piece)
    requires Utf8.IsScalar(cp)
    ensures IsUnicodeEscape(p) && CodePoint(p) == cp
  {
    if cp < 0x10000 then Unit(HexOf(cp))
    else
      Utf8.PairsAreBijective(cp, 0, 0);
      Pair(HexOf(Utf8.High(cp)), HexOf(Utf8.Low(cp)))
  }

  lemma EscapeReadsBack(cp: nat, src: bytes, pos: nat)
    requires Utf8.IsScalar(cp) && At(src, pos, EscapeFor(cp).Text())
    ensures ParseUnicode(src, pos + 2) == Good(Utf8.Encode(cp), pos + |EscapeFor(cp).Text()|)
  {
    hide EscapeFor, ParseUnicode;
    UnicodeParses(src, pos, EscapeFor(cp));
  }

  ghost predicate EscapeAt(src: bytes, pos: nat)
  {
    exists p :: IsUnicodeEscape(p) && At(src, pos, p.Text())
  }

  /** After `\u` the parser goes on exactly when an escape or a whole pair of them stands there. */
  lemma GoodIffEscape(src: bytes, pos: nat)
    requires At(src, pos, MARK)
    ensures ParseUnicode(src, pos + 2).Good? <==> EscapeAt(src, pos)
  {
    assert src[pos] == MARK[0] && src[pos + 1] == MARK[1];
    if ParseUnicode(src, pos + 2).Good? {
      var p := UnicodeSoundKind(src, pos);
    }
    if EscapeAt(src, pos) {
      var p :| IsUnicodeEscape(p) && At(src, pos, p.Text());
      UnicodeParses(src, pos, p);
    }
  }

  lemma UnicodeSoundKind(src: bytes, pos: nat) returns (p: Piece)
    requires pos + 2 <= |src| && src[pos] == BACKSLASH && src[pos + 1] == LETTER_U
    requires ParseUnicode(src, pos + 2).Good?
    ensures IsUnicodeEscape(p) && At(src, pos, p.Text())
  {
    p := UnicodeSound(src, pos);
    var text := p.Text();
    assert src[pos] == text[0] && (|text| > 1 ==> src[pos + 1] == text[1]);
  }

  /**
   A surrogate that is not the first half of a pair is refused: a low one always, a high one
   unless a low one follows at once. The offset reported is that of its backslash, whether no escape
   follows or a whole one that is no low surrogate; a broken escape there is reported as such.
   */
  lemma LoneSurrogateFails(src: bytes, pos: nat, h: Hex4)
    requires h.Valid() && At(src, pos, MARK + h.Text())
    ensures Utf8.IsLow(h.Unit()) ==> ParseUnicode(src, pos + 2) == Bad(UNPAIRED, pos)
    ensures Utf8.IsHigh(h.Unit()) ==>
              (ParseUnicode(src, pos + 2).Good? <==>
               exists l: Hex4 :: l.Valid() && Utf8.IsLow(l.Unit()) && At(src, pos + 6, MARK + l.Text()))
    ensures Utf8.IsHigh(h.Unit()) && !At(src, pos + 6, MARK) ==> ParseUnicode(src, pos + 2) == Bad(UNPAIRED, pos)
    ensures Utf8.IsHigh(h.Unit()) && (exists l: Hex4 :: l.Valid() && !Utf8.IsLow(l.Unit()) && At(src, pos + 6, MARK + l.Text())) ==>
              ParseUnicode(src, pos + 2) == Bad(UNPAIRED, pos)
  {
    AtSplit(src, pos, MARK, h.Text());
    Hex4Parses(src, pos + 2, h);
    if Utf8.IsHigh(h.Unit()) {
      if ParseUnicode(src, pos + 2).Good? {
        var l := Hex4Sound(src, pos + 8);
        AtJoin(src, pos + 6, MARK, l.Text());
      }
      if l: Hex4 :| l.Valid() && Utf8.IsLow(l.Unit()) && At(src, pos + 6, MARK + l.Text()) {
        AtSplit(src, pos + 6, MARK, l.Text());
        Hex4Parses(src, pos + 8, l);
        assert src[pos + 6] == MARK[0] && src[pos + 7] == MARK[1];
      }
      if l: Hex4 :| l.Valid() && !Utf8.IsLow(l.Unit()) && At(src, pos + 6, MARK + l.Text()) {
        AtSplit(src, pos + 6, MARK, l.Text());
        Hex4Parses(src, pos + 8, l);
        assert src[pos + 6] == MARK[0] && src[pos + 7] == MARK[1];
      }
    }
  }
}
