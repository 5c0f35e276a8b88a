/**
 What is needed to say where a fault in a JSON text is: how many bytes settle it, and what an
 escape that is not finished can still become.
 */
module JsonFaults {
  import opened Kod
  import opened ByteText
  import opened DecimalText
  import opened JsonGrammar
  import opened JsonParse
  import Utf8

  predicate AllHex(s: bytes)
  {
    forall i :: 0 <= i < |s| ==> IsHex(s[i])
  }

  // ----- Escapes begun -----

  /** `\u` and up to three digits of its four. */
  predicate BegunOne(e: bytes)
  {
    2 <= |e| <= 5 && e[..2] == MARK && AllHex(e[2..])
  }

  function Hex4At(e: bytes, i: nat): Hex4
    requires i + 4 <= |e|
  {
    Hex4(e[i], e[i + 1], e[i + 2], e[i + 3])
  }

  /** A high surrogate, then `\u` and up to three digits. */
  predicate BegunPair(e: bytes)
  {
    && 8 <= |e| <= 11 && e[..2] == MARK && Hex4At(e, 2).Valid() && Utf8.IsHigh(Hex4At(e, 2).Unit())
    && e[6..8] == MARK && AllHex(e[8..])
  }

  predicate Begun(e: bytes)
  {
    BegunOne(e) || BegunPair(e)
  }

  /**
   Its digits already make it a low surrogate where none may stand, or no low surrogate where only
   one may stand.
   */
  predicate Doomed(e: bytes)
  {
    || (BegunOne(e) && |e| >= 4 && HexValue(e[2]) == 13 && HexValue(e[3]) >= 12)
    || (BegunPair(e) && |e| >= 9 && HexValue(e[8]) != 13)
    || (BegunPair(e) && |e| >= 10 && HexValue(e[9]) < 12)
  }

  /** Which units are surrogates can be told from the first two digits. */
  lemma SurrogateDigits(h: Hex4)
    requires h.Valid()
    ensures Utf8.IsHigh(h.Unit()) <==> HexValue(h.a) == 13 && 8 <= HexValue(h.b) < 12
    ensures Utf8.IsLow(h.Unit()) <==> HexValue(h.a) == 13 && 12 <= HexValue(h.b)
  {
    assert h.Unit() == 4096 * HexValue(h.a) + 256 * HexValue(h.b) + 16 * HexValue(h.c) + HexValue(h.d);
    assert HexValue(h.a) < 16 && HexValue(h.b) < 16 && HexValue(h.c) < 16 && HexValue(h.d) < 16;
  }

  function DigitOr(e: bytes, i: nat, c: byte): byte
  {
    if i < |e| then e[i] else c
  }

  /** What is not doomed can be finished. */
  lemma Finish(e: bytes) returns (p: Piece)
    requires Begun(e) && !Doomed(e)
    ensures p.Valid() && (p.Unit? || p.Pair?) && |e| <= |p.Text()| && p.Text()[..|e|] == e
  {
    var low := Hex4(DigitOr(e, 8, 68), DigitOr(e, 9, 67), DigitOr(e, 10, 48), 48);
    if BegunPair(e) {
      p := Pair(Hex4At(e, 2), low);
      SurrogateDigits(low);
      assert e == e[..2] + e[2..6] + e[6..8] + e[8..];
      assert p.Text()[..|e|] == e;
    } else {
      var h := Hex4(DigitOr(e, 2, 48), DigitOr(e, 3, 48), DigitOr(e, 4, 48), 48);
      FirstHexValid(e);
      SurrogateDigits(h);
      if Utf8.IsHigh(h.Unit()) {
        SurrogateDigits(Hex4(68, 67, 48, 48));
        p := Pair(h, Hex4(68, 67, 48, 48));
      } else {
        p := Unit(h);
      }
      assert e == e[..2] + e[2..];
      assert p.Text()[..|e|] == e;
    }
  }

  lemma FirstHexValid(e: bytes)
    requires BegunOne(e)
    ensures Hex4(DigitOr(e, 2, 48), DigitOr(e, 3, 48), DigitOr(e, 4, 48), 48).Valid()
  {
    assert forall i :: 2 <= i < |e| ==> e[i] == e[2..][i - 2];
  }

  // ----- Where the fault starts -----

  /** Where the piece starts that a string goes wrong at. */
  function CharsSpot(src: bytes, pos: nat): (s: nat)
    requires 0 < pos <= |src|
    ensures pos <= s <= |src|
    decreases |src| - pos
  {
    if pos >= |src| || src[pos] == QUOTE || src[pos] < 32 then pos
    else if src[pos] != BACKSLASH then CharsSpot(src, pos + 1)
    else if pos + 1 >= |src| then pos
    else if IsShortEscape(src[pos + 1]) then CharsSpot(src, pos + 2)
    else if src[pos + 1] == LETTER_U then
      match ParseUnicode(src, pos + 2)
      case Bad(_, _) => pos
      case Good(_, p) => CharsSpot(src, p)
    else pos
  }

  function ValueSpot(src: bytes, pos: nat, depth: nat, maxDepth: int): nat
    requires pos <= |src|
    decreases |src| - pos, 2
  {
    var p := SkipWs(src, pos);
    var c := Peek(src, p);
    if c == QUOTE then CharsSpot(src, p + 1)
    else if c == LBRACE then ObjectSpot(src, p, depth, maxDepth)
    else if c == LBRACKET then ArraySpot(src, p, depth, maxDepth)
    else p
  }

  function ArraySpot(src: bytes, pos: nat, depth: nat, maxDepth: int): nat
    requires pos < |src|
    decreases |src| - pos, 1
  {
    ElemsSpot(src, SkipWs(src, pos + 1), depth + 1, maxDepth)
  }

  function ElemsSpot(src: bytes, pos: nat, depth: nat, maxDepth: int): nat
    requires pos <= |src|
    decreases |src| - pos, 3
  {
    match ParseValue(src, pos, depth, maxDepth)
    case Bad(_, _) => ValueSpot(src, pos, depth, maxDepth)
    case Good(_, q) =>
      var p := SkipWs(src, q);
      if Peek(src, p) == COMMA then ElemsSpot(src, p + 1, depth, maxDepth) else p
  }

  function ObjectSpot(src: bytes, pos: nat, depth: nat, maxDepth: int): nat
    requires pos < |src|
    decreases |src| - pos, 1
  {
    MembersSpot(src, SkipWs(src, pos + 1), depth + 1, maxDepth)
  }

  function KeySpot(src: bytes, pos: nat): nat
    requires pos <= |src|
  {
    var p := SkipWs(src, pos);
    if Peek(src, p) == QUOTE then CharsSpot(src, p + 1) else p
  }

  function MembersSpot(src: bytes, pos: nat, depth: nat, maxDepth: int): nat
    requires pos <= |src|
    decreases |src| - pos, 3
  {
    match ParseKey(src, pos)
    case Bad(_, _) => KeySpot(src, pos)
    case Good(_, start) =>
      match ParseValue(src, start, depth, maxDepth)
      case Bad(_, _) => ValueSpot(src, start, depth, maxDepth)
      case Good(_, q) =>
        var p := SkipWs(src, q);
        if Peek(src, p) == COMMA then MembersSpot(src, p + 1, depth, maxDepth) else p
  }

  // ----- How many bytes settle a fault -----

  /** The end of the bytes that make a fault what it is, whatever follows them. */
  function Reach(src: bytes, message: string, offset: nat): nat
  {
    if message == INVALID_LITERAL then offset + if Peek(src, offset) == 102 then 5 else 4
    else if message == INVALID_ESCAPE then offset + 2
    else if message == UNPAIRED then PairReach(src, offset)
    else if message == BAD_ESCAPE && IsHex(Peek(src, offset)) then offset + 4
    else offset + 1
  }

  /** A low surrogate settles it at once, a high one with what follows in place of the low one. */
  function PairReach(src: bytes, offset: nat): nat
  {
    if offset + 6 <= |src| && Hex4At(src, offset + 2).Valid() && Utf8.IsLow(Hex4At(src, offset + 2).Unit()) then offset + 6
    else if offset + 7 <= |src| && src[offset + 6] != BACKSLASH then offset + 7
    else if offset + 8 <= |src| && src[offset + 7] != LETTER_U then offset + 8
    else offset + 12
  }
}
