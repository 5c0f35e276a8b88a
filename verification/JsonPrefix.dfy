/**
 What stands before a fault is still the beginning of a JSON text: for every way the parser fails,
 an ending is found that makes a text of the grammar of it, nested no deeper than the limit.
 */
module JsonPrefix {
  import opened Kod
  import opened ByteText
  import opened DecimalText
  import opened JsonGrammar
  import opened JsonParse
  import opened JsonComplete
  import opened JsonSound
  import opened JsonFaults
  import opened JsonLocal
  import Utf8

  /** What a message says of the byte at its offset, and of an escape that was begun at `spot`. */
  predicate Known(src: bytes, message: string, o: nat, spot: nat)
  {
    && o <= |src| && message != TRAILING
    && (message == TOO_DEEP ==> IsOpening(Peek(src, o)))
    && (message == INVALID_LITERAL ==> Peek(src, o) == 116 || Peek(src, o) == 102 || Peek(src, o) == 110)
    && (message == INVALID_ESCAPE || message == UNPAIRED ==> Peek(src, o) == BACKSLASH)
    && (message == BAD_ESCAPE ==> spot <= o && Begun(src[spot..o]) && (IsHex(Peek(src, o)) ==> o + 4 > |src|))
  }

  /**
   Up to where the text is to be continued: to the fault, or past the bracket that is too deep, or to
   the start of an escape that was doomed.
   */
  function CutOf(src: bytes, message: string, o: nat, spot: nat, deep: bool): nat
    requires Known(src, message, o, spot)
  {
    if deep && message == TOO_DEEP then o + 1
    else if message == BAD_ESCAPE && Doomed(src[spot..o]) then spot
    else o
  }

  const ZERO_NUMBER := NumberTree(false, [ZERO], None, None)

  // ----- Numbers -----

  lemma NumberFails(src: bytes, pos: nat) returns (num: NumberTree)
    requires pos < |src| && (src[pos] == MINUS || IsDigit(src[pos])) && ParseNumber(src, pos).Bad?
    ensures num.Valid() && src[pos..ParseNumber(src, pos).offset] + [ZERO] == num.Text()
  {
    hide ScanUnsigned, NumberTree.Text, NumberTree.Valid;
    if src[pos] != MINUS {
      num := UnsignedFails(src, pos, pos);
    } else if !IsDigit(Peek(src, pos + 1)) {
      num := NumberTree(true, [ZERO], None, None);
      LoneSign(src, pos);
    } else {
      num := UnsignedFails(src, pos, pos + 1);
    }
  }

  lemma UnsignedFails(src: bytes, pos: nat, start: nat) returns (num: NumberTree)
    requires pos < |src| && start == (if src[pos] == MINUS then pos + 1 else pos)
    requires IsDigit(Peek(src, start)) && ScanUnsigned(src, start).Bad?
    ensures num.Valid() && src[pos..ScanUnsigned(src, start).offset] + [ZERO] == num.Text()
  {
    hide ParseFraction, ParseExponent, SkipDigits, At, NumberTree.Text, NumberTree.Valid;
    var whole := WholeSound(src, start);
    if ParseFraction(src, start + |whole|).Bad? {
      num := MissingDecimals(src, pos, start, whole);
    } else {
      num := MissingExponent(src, pos, start, whole);
    }
  }

  lemma MissingDecimals(src: bytes, pos: nat, start: nat, whole: bytes) returns (num: NumberTree)
    requires pos < |src| && start == (if src[pos] == MINUS then pos + 1 else pos)
    requires DigitRun(whole) && (whole[0] == ZERO ==> |whole| == 1) && At(src, start, whole) && ParseFraction(src, start + |whole|).Bad?
    ensures num.Valid() && src[pos..ParseFraction(src, start + |whole|).offset] + [ZERO] == num.Text()
  {
    hide ParseFraction, At, NumberTree.Text;
    var text := FractionFails(src, start + |whole|);
    num := NumberTree(src[pos] == MINUS, whole, Some([ZERO]), None);
    AtJoin(src, start, whole, text);
    assert whole + text + [ZERO] == whole + (([DOT] + [ZERO]) + []);
    NumberPrefix(src, pos, start, num, whole + text);
  }

  lemma MissingExponent(src: bytes, pos: nat, start: nat, whole: bytes) returns (num: NumberTree)
    requires pos < |src| && start == (if src[pos] == MINUS then pos + 1 else pos)
    requires DigitRun(whole) && (whole[0] == ZERO ==> |whole| == 1) && At(src, start, whole) && start + |whole| <= |src|
    requires ParseFraction(src, start + |whole|).Good? && ParseExponent(src, ParseFraction(src, start + |whole|).pos).Bad?
    ensures num.Valid()
    ensures src[pos..ParseExponent(src, ParseFraction(src, start + |whole|).pos).offset] + [ZERO] == num.Text()
  {
    hide ParseFraction, ParseExponent, At, NumberTree.Text, Exponent.Text;
    var p := start + |whole|;
    var frac, fracText := FractionSound(src, p);
    var exp, mark := ExponentFails(src, p + |fracText|);
    num := NumberTree(src[pos] == MINUS, whole, frac, Some(exp));
    AtJoin(src, p, fracText, mark);
    AtJoin(src, start, whole, fracText + mark);
    assert whole + (fracText + mark) + [ZERO] == whole + (fracText + (mark + [ZERO]));
    NumberPrefix(src, pos, start, num, whole + (fracText + mark));
  }

  lemma LoneSign(src: bytes, pos: nat)
    requires pos < |src| && src[pos] == MINUS && !IsDigit(Peek(src, pos + 1))
    ensures ParseNumber(src, pos).Bad? && ParseNumber(src, pos).offset == pos + 1
    ensures src[pos..pos + 1] + [ZERO] == NumberTree(true, [ZERO], None, None).Text()
    ensures NumberTree(true, [ZERO], None, None).Valid()
  {
  }

  lemma FractionFails(src: bytes, pos: nat) returns (text: bytes)
    requires pos <= |src| && ParseFraction(src, pos).Bad?
    ensures text == [DOT] && At(src, pos, text) && ParseFraction(src, pos).offset == pos + 1
  {
    text := [DOT];
  }

  lemma ExponentFails(src: bytes, pos: nat) returns (exp: Exponent, mark: bytes)
    requires pos <= |src| && ParseExponent(src, pos).Bad?
    ensures exp.Valid() && mark + [ZERO] == exp.Text() && At(src, pos, mark) && ParseExponent(src, pos).offset == pos + |mark|
  {
    var o := ParseExponent(src, pos).offset;
    var signed := o == pos + 2;
    exp := Exponent(src[pos], if signed then Some(src[pos + 1]) else None, [ZERO]);
    mark := if signed then [src[pos], src[pos + 1]] else [src[pos]];
  }

  /** The parts of a number up to a missing digit, and the digit. */
  lemma NumberPrefix(src: bytes, pos: nat, start: nat, num: NumberTree, part: bytes)
    requires pos < |src| && start == (if src[pos] == MINUS then pos + 1 else pos) && num.minus == (src[pos] == MINUS)
    requires At(src, start, part) && part + [ZERO] == num.whole + (num.FracText() + num.ExpText())
    ensures src[pos..start + |part|] + [ZERO] == num.Text()
  {
    var sign := num.SignText();
    assert At(src, pos, sign);
    AtJoin(src, pos, sign, part);
    AtSlice(src, pos, sign + part);
    assert sign + part + [ZERO] == sign + (part + [ZERO]);
  }

  // ----- Strings -----

  lemma UnicodeFails(src: bytes, pos: nat)
    requires pos + 2 <= |src| && src[pos] == BACKSLASH && src[pos + 1] == LETTER_U && ParseUnicode(src, pos + 2).Bad?
    ensures var r := ParseUnicode(src, pos + 2); Known(src, r.message, r.offset, pos)
  {
    hide ParseHex4, Hex4.Unit, ParseUnicode;
    Messages();
    UnicodeBadWhere(src, pos + 2);
    if ParseUnicode(src, pos + 2).message == BAD_ESCAPE {
      BadEscapeBegun(src, pos);
    }
  }

  /** The messages that matter are all different. */
  lemma Messages()
    ensures TOO_DEEP != TRAILING && BAD_ESCAPE != TRAILING && UNPAIRED != TRAILING && UNTERMINATED != TRAILING
    ensures INVALID_ESCAPE != TRAILING && INVALID_LITERAL != TRAILING
    ensures TOO_DEEP != BAD_ESCAPE && TOO_DEEP != UNPAIRED && TOO_DEEP != UNTERMINATED
    ensures TOO_DEEP != INVALID_ESCAPE && TOO_DEEP != INVALID_LITERAL
    ensures BAD_ESCAPE != UNPAIRED && BAD_ESCAPE != UNTERMINATED && BAD_ESCAPE != INVALID_ESCAPE && BAD_ESCAPE != INVALID_LITERAL
    ensures UNPAIRED != UNTERMINATED && UNPAIRED != INVALID_ESCAPE && UNPAIRED != INVALID_LITERAL
    ensures UNTERMINATED != INVALID_ESCAPE && UNTERMINATED != INVALID_LITERAL && INVALID_ESCAPE != INVALID_LITERAL
  {
    assert TOO_DEEP[0] == 'n' && BAD_ESCAPE[0] == 'b' && UNPAIRED[0] == 'u' && UNTERMINATED[0] == 'u' && TRAILING[0] == 'u';
    assert INVALID_ESCAPE[0] == 'i' && INVALID_LITERAL[0] == 'i' && INVALID_ESCAPE[8] == 'e' && INVALID_LITERAL[8] == 'l';
    assert UNPAIRED[2] == 'p' && UNTERMINATED[2] == 't' && TRAILING[2] == 'e';
  }

  lemma BadEscapeBegun(src: bytes, pos: nat)
    requires pos + 2 <= |src| && src[pos] == BACKSLASH && src[pos + 1] == LETTER_U
    requires ParseUnicode(src, pos + 2).Bad? && ParseUnicode(src, pos + 2).message == BAD_ESCAPE
    ensures var o := ParseUnicode(src, pos + 2).offset;
            pos <= o <= |src| && Begun(src[pos..o]) && (IsHex(Peek(src, o)) ==> o + 4 > |src|)
  {
    Messages();
    var o := ParseUnicode(src, pos + 2).offset;
    var e := src[pos..o];
    if ParseHex4(src, pos + 2).Bad? {
      HexBegun(src, pos + 2);
      HexShort(src, pos + 2);
      assert e[..2] == MARK && e[2..] == src[pos + 2..o];
    } else {
      HexBegun(src, pos + 8);
      HexShort(src, pos + 8);
      HexFault(src, pos + 8);
      assert e[..2] == MARK && e[6..8] == MARK && e[8..] == src[pos + 8..o];
      assert Hex4At(e, 2) == Hex4(src[pos + 2], src[pos + 3], src[pos + 4], src[pos + 5]);
    }
  }

  lemma HexBegun(src: bytes, pos: nat)
    requires pos <= |src| && ParseHex4(src, pos).Bad?
    ensures var o := ParseHex4(src, pos).offset; pos <= o <= pos + 3 && o <= |src| && AllHex(src[pos..o])
  {
  }

  /**
   What stands from `pos` up to the cut, and `rest` after it, is `text`; and it keeps within the limit
   if `fits` does, unless it was to go past a bracket that is too deep.
   */
  predicate Continues(src: bytes, pos: nat, message: string, o: nat, spot: nat, deep: bool, text: bytes, rest: bytes, fits: bool)
  {
    && Known(src, message, o, spot)
    && var cut := CutOf(src, message, o, spot, deep);
       && pos <= cut <= |src| && src[pos..cut] + rest == text
       && (fits || (deep && message == TOO_DEEP))
  }

  /** What is continued, is continued with something whole before it and something more at its end. */
  lemma Extend(src: bytes, pos: nat, p: nat, message: string, o: nat, spot: nat, deep: bool, text: bytes, rest: bytes,
               fits: bool, front: bytes, last: bytes, still: bool)
    requires Continues(src, p, message, o, spot, deep, text, rest, fits)
    requires pos <= p && At(src, pos, front) && p == pos + |front| && (fits ==> still)
    ensures Continues(src, pos, message, o, spot, deep, front + text + last, rest + last, still)
  {
    hide Known, CutOf;
    AtSlice(src, pos, front);
    assert src[pos..p] == front by { AtSlice(src, pos, front); }
    assert Known(src, message, o, spot) by { KnownFrom(src, p, message, o, spot, deep, text, rest, fits); }
    var cut := CutOf(src, message, o, spot, deep);
    assert src[pos..cut] == src[pos..p] + src[p..cut];
    assert src[pos..cut] + (rest + last) == front + (src[p..cut] + rest) + last;
  }

  lemma KnownFrom(src: bytes, pos: nat, message: string, o: nat, spot: nat, deep: bool, text: bytes, rest: bytes, fits: bool)
    requires Continues(src, pos, message, o, spot, deep, text, rest, fits)
    ensures Known(src, message, o, spot)
  {
  }

  /** A fault at the byte after something whole. */
  lemma Stop(src: bytes, pos: nat, message: string, spot: nat, deep: bool, front: bytes, last: bytes)
    requires At(src, pos, front) && |message| > 0 && message[0] == 'e'
    ensures Continues(src, pos, message, pos + |front|, spot, deep, front + last, last, true) && message != TOO_DEEP
  {
    assert TOO_DEEP[0] == 'n' && BAD_ESCAPE[0] == 'b' && UNPAIRED[0] == 'u' && TRAILING[0] == 'u';
    assert INVALID_ESCAPE[0] == 'i' && INVALID_LITERAL[0] == 'i';
    AtSlice(src, pos, front);
  }

  predicate CharsContinue(src: bytes, pos: nat, ps: seq<Piece>, rest: bytes)
    requires 0 < pos <= |src| && ParseChars(src, pos).Bad?
  {
    var r := ParseChars(src, pos);
    && ValidPieces(ps) && r.message != TOO_DEEP && r.message != INVALID_LITERAL
    && Continues(src, pos, r.message, r.offset, CharsSpot(src, pos), false, PiecesText(ps) + [QUOTE], rest, true)
  }

  lemma SpotNext(src: bytes, pos: nat, p: Piece)
    requires 0 < pos && At(src, pos, p.Text()) && p.Valid()
    ensures CharsSpot(src, pos) == CharsSpot(src, pos + |p.Text()|)
  {
    hide ParseUnicode;
    AtHead(src, pos, p.Text());
    match p {
      case Plain(_) =>
      case Escape(e) => assert p.Text()[1] == e;
      case _ => UnicodeParses(src, pos, p);
    }
  }

  lemma {:induction false} GoodPieceFails(src: bytes, pos: nat, p: Piece) returns (ps: seq<Piece>, rest: bytes)
    requires 0 < pos && At(src, pos, p.Text()) && p.Valid() && ParseChars(src, pos).Bad?
    ensures CharsContinue(src, pos, ps, rest)
    decreases |src| - pos, 0
  {
    hide ParseChars, Piece.Text, Piece.Meaning, CharsSpot, Continues, PiecesText, At;
    var next := pos + |p.Text()|;
    AtFits(src, pos, p.Text());
    PieceParses(src, pos, p);
    SpotNext(src, pos, p);
    var more;
    more, rest := CharsFails(src, next);
    ps := [p] + more;
    var r := ParseChars(src, next);
    PiecesMore(p, more);
    Extend(src, pos, next, r.message, r.offset, CharsSpot(src, next), false, PiecesText(more) + [QUOTE], rest, true, p.Text(), [], true);
    assert rest + [] == rest && p.Text() + (PiecesText(more) + [QUOTE]) + [] == PiecesText(ps) + [QUOTE];
  }

  lemma PiecesMore(p: Piece, more: seq<Piece>)
    ensures PiecesText([p] + more) == p.Text() + PiecesText(more)
  {
    assert ([p] + more)[1..] == more;
  }

  lemma AtFits(src: bytes, pos: nat, text: bytes)
    requires At(src, pos, text)
    ensures pos + |text| <= |src|
  {
  }

  /** An escape that goes wrong. */
  lemma EscapeFails(src: bytes, pos: nat) returns (ps: seq<Piece>, rest: bytes)
    requires 0 < pos && pos + 1 < |src| && src[pos] == BACKSLASH && !IsShortEscape(src[pos + 1])
    requires src[pos + 1] == LETTER_U ==> ParseUnicode(src, pos + 2).Bad?
    ensures ParseChars(src, pos).Bad? && CharsContinue(src, pos, ps, rest)
  {
    hide ParseUnicode, Doomed, Begun, Piece.Text;
    Messages();
    ps, rest := [], [QUOTE];
    assert CharsSpot(src, pos) == pos && src[pos..pos] + rest == PiecesText(ps) + [QUOTE];
    if src[pos + 1] == LETTER_U {
      UnicodeFails(src, pos);
      UnicodeBadWhere(src, pos + 2);
      var r := ParseUnicode(src, pos + 2);
      if r.message == BAD_ESCAPE && !Doomed(src[pos..r.offset]) {
        var e := src[pos..r.offset];
        var p := Finish(e);
        ps, rest := [p], p.Text()[|e|..] + [QUOTE];
        assert e + p.Text()[|e|..] == p.Text();
        OnePiece(p);
      }
    }
  }

  lemma OnePiece(p: Piece)
    ensures PiecesText([p]) == p.Text()
  {
    assert [p][1..] == [];
  }

  /** The end of the input, or a byte that may not stand in a string. */
  lemma EndFails(src: bytes, pos: nat) returns (ps: seq<Piece>, rest: bytes)
    requires 0 < pos <= |src| && ParseChars(src, pos).Bad?
    requires pos >= |src| || src[pos] < 32 || (src[pos] == BACKSLASH && pos + 1 == |src|)
    ensures CharsContinue(src, pos, ps, rest)
  {
    Messages();
    if pos < |src| && src[pos] == BACKSLASH {
      ps, rest := [Escape(QUOTE)], [QUOTE, QUOTE];
      OnePiece(Escape(QUOTE));
      assert src[pos..pos + 1] == [BACKSLASH];
    } else {
      ps, rest := [], [QUOTE];
      assert pos < |src| ==> ParseChars(src, pos).message[0] == 'c';
    }
  }

  /** A string that fails, up to the piece that fails, or into it as far as that can be finished. */
  lemma {:induction false} CharsFails(src: bytes, pos: nat) returns (ps: seq<Piece>, rest: bytes)
    requires 0 < pos <= |src| && ParseChars(src, pos).Bad?
    ensures CharsContinue(src, pos, ps, rest)
    decreases |src| - pos, 1
  {
    hide ParseUnicode, CharsContinue;
    if pos >= |src| || src[pos] < 32 || (src[pos] == BACKSLASH && pos + 1 == |src|) {
      ps, rest := EndFails(src, pos);
    } else if src[pos] != BACKSLASH {
      ps, rest := GoodPieceFails(src, pos, Plain(src[pos]));
    } else if IsShortEscape(src[pos + 1]) {
      ps, rest := GoodPieceFails(src, pos, Escape(src[pos + 1]));
    } else if src[pos + 1] == LETTER_U && ParseUnicode(src, pos + 2).Good? {
      var p := UnicodeSound(src, pos);
      ps, rest := GoodPieceFails(src, pos, p);
    } else {
      ps, rest := EscapeFails(src, pos);
    }
  }

  // ----- Values -----

  predicate ValueContinues(src: bytes, pos: nat, depth: nat, maxDepth: int, deep: bool, pre: bytes, t: Tree, rest: bytes)
    requires pos <= |src| && ParseValue(src, pos, depth, maxDepth).Bad?
  {
    var r := ParseValue(src, pos, depth, maxDepth);
    && AllWs(pre) && ValidTree(t)
    && Continues(src, pos, r.message, r.offset, ValueSpot(src, pos, depth, maxDepth), deep, pre + TreeText(t), rest,
                 Fits(TreeDepth(t), depth, maxDepth))
  }

  predicate ElemsContinue(src: bytes, pos: nat, depth: nat, maxDepth: int, deep: bool, es: Elems, rest: bytes)
    requires pos <= |src| && ParseElems(src, pos, depth, maxDepth).Bad?
  {
    var r := ParseElems(src, pos, depth, maxDepth);
    && ValidElems(es)
    && Continues(src, pos, r.message, r.offset, ElemsSpot(src, pos, depth, maxDepth), deep, ElemsText(es), rest,
                 Fits(ElemsDepth(es), depth, maxDepth))
  }

  predicate MembersContinue(src: bytes, pos: nat, depth: nat, maxDepth: int, deep: bool, ms: Members, rest: bytes)
    requires pos <= |src| && ParseMembers(src, pos, depth, maxDepth).Bad?
  {
    var r := ParseMembers(src, pos, depth, maxDepth);
    && ValidMembers(ms)
    && Continues(src, pos, r.message, r.offset, MembersSpot(src, pos, depth, maxDepth), deep, MembersText(ms), rest,
                 Fits(MembersDepth(ms), depth, maxDepth))
  }

  lemma ZeroNumber()
    ensures ZERO_NUMBER.Valid() && ZERO_NUMBER.Text() == [ZERO]
  {
  }

  /** Everything but arrays and objects, from where the value should start. */
  lemma LeafFails(src: bytes, p: nat, depth: nat, maxDepth: int, deep: bool) returns (t: Tree, rest: bytes)
    requires p <= |src| && SkipWs(src, p) == p && !IsOpening(Peek(src, p)) && ParseValue(src, p, depth, maxDepth).Bad?
    ensures ValueContinues(src, p, depth, maxDepth, deep, [], t, rest)
  {
    hide ParseChars, ParseNumber, PiecesText, NumberTree.Text, Begun, Doomed, CharsSpot;
    Messages();
    ZeroNumber();
    var c := Peek(src, p);
    if c == QUOTE {
      var ps;
      ps, rest := CharsFails(src, p + 1);
      t := StringLeaf(ps);
      var r := ParseChars(src, p + 1);
      var cut := CutOf(src, r.message, r.offset, CharsSpot(src, p + 1), false);
      assert src[p..cut] == [QUOTE] + src[p + 1..cut];
    } else if c == MINUS || IsDigit(c) {
      var num := NumberFails(src, p);
      NumberMessage(src, p);
      t, rest := NumberLeaf(num), [ZERO];
      assert [] + num.Text() == num.Text();
    } else {
      t, rest := NumberLeaf(ZERO_NUMBER), [ZERO];
      OtherMessages(src, p, depth, maxDepth);
      assert src[p..p] + rest == [] + ZERO_NUMBER.Text();
    }
  }

  lemma OtherMessages(src: bytes, p: nat, depth: nat, maxDepth: int)
    requires p <= |src| && SkipWs(src, p) == p && !IsOpening(Peek(src, p)) && ParseValue(src, p, depth, maxDepth).Bad?
    requires var c := Peek(src, p); c != QUOTE && c != MINUS && !IsDigit(c)
    ensures var r := ParseValue(src, p, depth, maxDepth); r.offset == p && Known(src, r.message, p, p) && r.message != BAD_ESCAPE && r.message != TOO_DEEP
  {
    Messages();
    var m := ParseValue(src, p, depth, maxDepth).message;
    var a, b := "unexpected end of input", "unexpected character";
    assert a[0] == 'u' && a[2] == 'e' && a[11] == 'e' && b[0] == 'u' && b[2] == 'e' && b[11] == 'c' && TRAILING[11] == 't';
    assert UNPAIRED[2] == 'p' && TOO_DEEP[0] == 'n' && BAD_ESCAPE[0] == 'b' && INVALID_ESCAPE[0] == 'i' && INVALID_LITERAL[0] == 'i';
  }

  /** Leading white space makes no difference. */
  lemma WithWs(src: bytes, pos: nat, ws: bytes, depth: nat, maxDepth: int, deep: bool, t: Tree, rest: bytes)
    requires pos <= |src| && AllWs(ws) && At(src, pos, ws) && SkipWs(src, pos) == pos + |ws|
    requires ParseValue(src, pos + |ws|, depth, maxDepth).Bad?
    requires ValueContinues(src, pos + |ws|, depth, maxDepth, deep, [], t, rest)
    ensures ParseValue(src, pos, depth, maxDepth).Bad? && ValueContinues(src, pos, depth, maxDepth, deep, ws, t, rest)
  {
    hide ParseValue, ValueSpot, TreeText, TreeDepth, ValidTree, Continues, SkipWs, At;
    var p := pos + |ws|;
    ValueAfterWs(src, pos, depth, maxDepth);
    SpotAfterWs(src, pos, depth, maxDepth);
    var r := ParseValue(src, p, depth, maxDepth);
    var fits := Fits(TreeDepth(t), depth, maxDepth);
    Extend(src, pos, p, r.message, r.offset, ValueSpot(src, p, depth, maxDepth), deep, [] + TreeText(t), rest, fits, ws, [], fits);
    assert rest + [] == rest && ws + ([] + TreeText(t)) + [] == ws + TreeText(t);
  }

  lemma {:induction false} ValueFails(src: bytes, pos: nat, depth: nat, maxDepth: int, deep: bool)
    returns (pre: bytes, t: Tree, rest: bytes)
    requires pos <= |src| && ParseValue(src, pos, depth, maxDepth).Bad?
    ensures ValueContinues(src, pos, depth, maxDepth, deep, pre, t, rest)
    decreases |src| - pos, 2
  {
    hide ParseValue, ValueContinues, SkipWs, At;
    pre := SkippedWs(src, pos);
    var p := pos + |pre|;
    AtFits(src, pos, pre);
    SkipTwice(src, pos);
    ValueAfterWs(src, pos, depth, maxDepth);
    if Peek(src, p) == LBRACKET {
      t, rest := ArrayFails(src, p, depth, maxDepth, deep);
    } else if Peek(src, p) == LBRACE {
      t, rest := ObjectFails(src, p, depth, maxDepth, deep);
    } else {
      t, rest := LeafFails(src, p, depth, maxDepth, deep);
    }
    WithWs(src, pos, pre, depth, maxDepth, deep, t, rest);
  }

  /** A bracket one level too deep: a number in its place, or its closing bracket after it. */
  lemma DeepFails(src: bytes, p: nat, depth: nat, maxDepth: int, deep: bool) returns (t: Tree, rest: bytes)
    requires p < |src| && IsOpening(src[p]) && SkipWs(src, p) == p && depth + 1 > maxDepth
    ensures ParseValue(src, p, depth, maxDepth).Bad? && ValueContinues(src, p, depth, maxDepth, deep, [], t, rest)
  {
    hide ElemsSpot, MembersSpot, Doomed, Begun;
    Messages();
    ZeroNumber();
    if deep {
      t := if src[p] == LBRACKET then EmptyArray([]) else EmptyObject([]);
      rest := if src[p] == LBRACKET then [RBRACKET] else [RBRACE];
      assert src[p..p + 1] == [src[p]];
      assert src[p..p + 1] + rest == [] + TreeText(t);
    } else {
      t, rest := NumberLeaf(ZERO_NUMBER), [ZERO];
      assert src[p..p] + rest == [] + TreeText(t);
    }
  }

  lemma {:induction false} ArrayFails(src: bytes, p: nat, depth: nat, maxDepth: int, deep: bool) returns (t: Tree, rest: bytes)
    requires p < |src| && src[p] == LBRACKET && SkipWs(src, p) == p && ParseValue(src, p, depth, maxDepth).Bad?
    ensures ValueContinues(src, p, depth, maxDepth, deep, [], t, rest)
    decreases |src| - p, 1
  {
    hide ParseElems, ElemsSpot, ElemsText, ElemsDepth, ValidElems, Continues, SkipWs;
    if depth + 1 > maxDepth {
      t, rest := DeepFails(src, p, depth, maxDepth, deep);
    } else {
      ElemsAfterWs(src, p + 1, depth + 1, maxDepth);
      ElemsSpotAfterWs(src, p + 1, depth + 1, maxDepth);
      var es;
      es, rest := ElemsFails(src, p + 1, depth + 1, maxDepth, deep);
      t := ArrayTree(es);
      var r := ParseElems(src, p + 1, depth + 1, maxDepth);
      var fits := Fits(ElemsDepth(es), depth + 1, maxDepth);
      Extend(src, p, p + 1, r.message, r.offset, ElemsSpot(src, p + 1, depth + 1, maxDepth), deep, ElemsText(es), rest,
             fits, [LBRACKET], [], Fits(TreeDepth(t), depth, maxDepth));
      assert rest + [] == rest && [LBRACKET] + ElemsText(es) + [] == [] + TreeText(t);
      assert AllWs([]) && ValidTree(t) && ParseValue(src, p, depth, maxDepth) == Bad(r.message, r.offset);
      assert ValueSpot(src, p, depth, maxDepth) == ElemsSpot(src, p + 1, depth + 1, maxDepth);
    }
  }

  lemma ElemsSpotAfterWs(src: bytes, pos: nat, depth: nat, maxDepth: int)
    requires pos <= |src|
    ensures ElemsSpot(src, pos, depth, maxDepth) == ElemsSpot(src, SkipWs(src, pos), depth, maxDepth)
  {
    hide ParseValue, ValueSpot;
    ValueAfterWs(src, pos, depth, maxDepth);
    SpotAfterWs(src, pos, depth, maxDepth);
  }

  lemma {:induction false} ElemsFails(src: bytes, pos: nat, depth: nat, maxDepth: int, deep: bool) returns (es: Elems, rest: bytes)
    requires pos <= |src| && ParseElems(src, pos, depth, maxDepth).Bad?
    ensures ElemsContinue(src, pos, depth, maxDepth, deep, es, rest)
    decreases |src| - pos, 3
  {
    hide ParseValue, ValueSpot, TreeText, TreeDepth, ValidTree, SkipWs, At, Continues, ElemsText;
    var r := ParseElems(src, pos, depth, maxDepth);
    if ParseValue(src, pos, depth, maxDepth).Bad? {
      var pre, t, ending := ValueFails(src, pos, depth, maxDepth, deep);
      es, rest := LastElem(pre, t, []), ending + [RBRACKET];
      AtNothing(src, pos);
      ElemsFlat(es);
      var fits := Fits(TreeDepth(t), depth, maxDepth);
      Extend(src, pos, pos, r.message, r.offset, ValueSpot(src, pos, depth, maxDepth), deep, pre + TreeText(t), ending,
             fits, [], [RBRACKET], fits);
      assert [] + (pre + TreeText(t)) + [RBRACKET] == ElemsText(es);
    } else {
      var pre, t := ValueSound(src, pos, depth, maxDepth);
      var q := pos + |pre| + |TreeText(t)|;
      var post := SkippedWs(src, q);
      var p := q + |post|;
      var whole := pre + TreeText(t) + post;
      AtThree(src, pos, pre, TreeText(t), post);
      if Peek(src, p) == COMMA {
        var more;
        more, rest := ElemsFails(src, p + 1, depth, maxDepth, deep);
        es := MoreElems(pre, t, post, more);
        ElemsFlat(es);
        AtByte(src, p);
        AtJoin(src, pos, whole, [COMMA]);
        Extend(src, pos, p + 1, r.message, r.offset, ElemsSpot(src, p + 1, depth, maxDepth), deep, ElemsText(more), rest,
               Fits(ElemsDepth(more), depth, maxDepth), whole + [COMMA], [], Fits(ElemsDepth(es), depth, maxDepth));
        assert rest + [] == rest && whole + [COMMA] + ElemsText(more) + [] == ElemsText(es);
      } else {
        es, rest := LastElem(pre, t, post), [RBRACKET];
        ElemsFlat(es);
        Stop(src, pos, "expected `,` or `]`", p, deep, whole, [RBRACKET]);
      }
    }
  }

  lemma AtNothing(src: bytes, pos: nat)
    requires pos <= |src|
    ensures At(src, pos, [])
  {
  }

  lemma AtThree(src: bytes, pos: nat, a: bytes, b: bytes, c: bytes)
    requires At(src, pos, a) && At(src, pos + |a|, b) && At(src, pos + |a| + |b|, c)
    ensures At(src, pos, a + b + c) && pos + |a| + |b| + |c| <= |src|
  {
    AtJoin(src, pos, a, b);
    AtJoin(src, pos, a + b, c);
  }

  lemma ElemsFlat(es: Elems)
    ensures ElemsText(es) == es.pre + TreeText(es.t) + es.post + ElemsNext(es)
  {
    hide TreeText;
  }

  predicate KeyContinues(src: bytes, pos: nat, pre: bytes, key: seq<Piece>, gap: bytes, rest: bytes)
    requires pos <= |src| && ParseKey(src, pos).Bad?
  {
    var r := ParseKey(src, pos);
    && AllWs(pre) && ValidPieces(key) && AllWs(gap) && r.message != TOO_DEEP
    && Continues(src, pos, r.message, r.offset, KeySpot(src, pos), false, pre + StringText(key) + gap, rest, true)
  }

  lemma KeyFails(src: bytes, pos: nat) returns (pre: bytes, key: seq<Piece>, gap: bytes, rest: bytes)
    requires pos <= |src| && ParseKey(src, pos).Bad?
    ensures KeyContinues(src, pos, pre, key, gap, rest)
  {
    hide ParseChars, CharsSpot, SkipWs, At, PiecesText, Continues;
    pre := SkippedWs(src, pos);
    var p := pos + |pre|;
    AtFits(src, pos, pre);
    if Peek(src, p) != QUOTE {
      key, gap, rest := [], [], [QUOTE, QUOTE];
      NoPieces();
      Stop(src, pos, "expected a string key", KeySpot(src, pos), false, pre, rest);
      assert pre + StringText(key) + gap == pre + rest;
    } else if ParseChars(src, p + 1).Bad? {
      gap := [];
      key, rest := CharsFails(src, p + 1);
      var r := ParseChars(src, p + 1);
      AtByte(src, p);
      AtJoin(src, pos, pre, [QUOTE]);
      Extend(src, pos, p + 1, r.message, r.offset, CharsSpot(src, p + 1), false, PiecesText(key) + [QUOTE], rest,
             true, pre + [QUOTE], [], true);
      assert rest + [] == rest && pre + [QUOTE] + (PiecesText(key) + [QUOTE]) + [] == pre + StringText(key) + gap;
    } else {
      key := StringSound(src, p);
      var q := p + |StringText(key)|;
      gap := SkippedWs(src, q);
      rest := [];
      AtThree(src, pos, pre, StringText(key), gap);
      Stop(src, pos, "expected `:`", KeySpot(src, pos), false, pre + StringText(key) + gap, []);
      assert pre + StringText(key) + gap + [] == pre + StringText(key) + gap;
    }
  }

  lemma NoPieces()
    ensures StringText([]) == [QUOTE, QUOTE] && ValidPieces([])
  {
  }

  lemma {:induction false} ObjectFails(src: bytes, p: nat, depth: nat, maxDepth: int, deep: bool) returns (t: Tree, rest: bytes)
    requires p < |src| && src[p] == LBRACE && SkipWs(src, p) == p && ParseValue(src, p, depth, maxDepth).Bad?
    ensures ValueContinues(src, p, depth, maxDepth, deep, [], t, rest)
    decreases |src| - p, 1
  {
    hide ParseMembers, MembersSpot, MembersText, MembersDepth, ValidMembers, Continues, SkipWs;
    if depth + 1 > maxDepth {
      t, rest := DeepFails(src, p, depth, maxDepth, deep);
    } else {
      MembersAfterWs(src, p + 1, depth + 1, maxDepth);
      MembersSpotAfterWs(src, p + 1, depth + 1, maxDepth);
      var ms;
      ms, rest := MembersFails(src, p + 1, depth + 1, maxDepth, deep);
      t := ObjectTree(ms);
      var r := ParseMembers(src, p + 1, depth + 1, maxDepth);
      var fits := Fits(MembersDepth(ms), depth + 1, maxDepth);
      Extend(src, p, p + 1, r.message, r.offset, MembersSpot(src, p + 1, depth + 1, maxDepth), deep, MembersText(ms), rest,
             fits, [LBRACE], [], Fits(TreeDepth(t), depth, maxDepth));
      assert rest + [] == rest && [LBRACE] + MembersText(ms) + [] == [] + TreeText(t);
      assert AllWs([]) && ValidTree(t) && ParseValue(src, p, depth, maxDepth) == Bad(r.message, r.offset);
      assert ValueSpot(src, p, depth, maxDepth) == MembersSpot(src, p + 1, depth + 1, maxDepth);
    }
  }

  lemma MembersSpotAfterWs(src: bytes, pos: nat, depth: nat, maxDepth: int)
    requires pos <= |src|
    ensures MembersSpot(src, pos, depth, maxDepth) == MembersSpot(src, SkipWs(src, pos), depth, maxDepth)
  {
    hide ParseValue, ValueSpot, ParseChars, CharsSpot;
    SkipTwice(src, pos);
  }

  lemma {:induction false} MembersFails(src: bytes, pos: nat, depth: nat, maxDepth: int, deep: bool) returns (ms: Members, rest: bytes)
    requires pos <= |src| && ParseMembers(src, pos, depth, maxDepth).Bad?
    ensures MembersContinue(src, pos, depth, maxDepth, deep, ms, rest)
    decreases |src| - pos, 3
  {
    if ParseKey(src, pos).Bad? {
      ms, rest := MemberKeyFails(src, pos, depth, maxDepth, deep);
    } else {
      ms, rest := MemberValueFails(src, pos, depth, maxDepth, deep);
    }
  }

  lemma MemberKeyFails(src: bytes, pos: nat, depth: nat, maxDepth: int, deep: bool) returns (ms: Members, rest: bytes)
    requires pos <= |src| && ParseKey(src, pos).Bad?
    ensures ParseMembers(src, pos, depth, maxDepth).Bad? && MembersContinue(src, pos, depth, maxDepth, deep, ms, rest)
  {
    hide ParseKey, KeySpot, StringText, Continues, MembersText, NumberTree.Text, At;
    var pre, key, gap, ending := KeyFails(src, pos);
    ZeroNumber();
    ms := LastMember(pre, key, gap, [], NumberLeaf(ZERO_NUMBER), []);
    rest := ending + [COLON, ZERO, RBRACE];
    MembersFlat(ms);
    var r := ParseKey(src, pos);
    AtNothing(src, pos);
    Extend(src, pos, pos, r.message, r.offset, KeySpot(src, pos), false, pre + StringText(key) + gap, ending, true,
           [], [COLON, ZERO, RBRACE], true);
    assert [] + (pre + StringText(key) + gap) + [COLON, ZERO, RBRACE] == MembersText(ms);
    ZeroMember(pre, key, gap);
    assert MembersSpot(src, pos, depth, maxDepth) == KeySpot(src, pos);
    EitherWay(src, pos, r.message, r.offset, KeySpot(src, pos), deep, MembersText(ms), rest);
  }

  lemma ZeroMember(pre: bytes, key: seq<Piece>, gap: bytes)
    requires AllWs(pre) && ValidPieces(key) && AllWs(gap)
    ensures var ms := LastMember(pre, key, gap, [], NumberLeaf(ZERO_NUMBER), []); ValidMembers(ms) && MembersDepth(ms) == 0
  {
    assert AllWs([]);
    ZeroNumber();
  }

  lemma EitherWay(src: bytes, pos: nat, message: string, o: nat, spot: nat, deep: bool, text: bytes, rest: bytes)
    requires Continues(src, pos, message, o, spot, false, text, rest, true) && message != TOO_DEEP
    ensures Continues(src, pos, message, o, spot, deep, text, rest, true)
  {
  }

  lemma {:induction false} MemberValueFails(src: bytes, pos: nat, depth: nat, maxDepth: int, deep: bool) returns (ms: Members, rest: bytes)
    requires pos <= |src| && ParseKey(src, pos).Good? && ParseMembers(src, pos, depth, maxDepth).Bad?
    ensures MembersContinue(src, pos, depth, maxDepth, deep, ms, rest)
    decreases |src| - pos, 2
  {
    hide ParseValue, ValueSpot, ParseKey, KeySpot, TreeText, TreeDepth, ValidTree, StringText, SkipWs, At, Continues, MembersText;
    var pre, key, gap := KeySound(src, pos);
    var front := pre + StringText(key) + gap + [COLON];
    var start := pos + |front|;
    AtThree(src, pos, pre, StringText(key), gap);
    AtJoin(src, pos, pre + StringText(key) + gap, [COLON]);
    AtFits(src, pos, front);
    var r := ParseMembers(src, pos, depth, maxDepth);
    if ParseValue(src, start, depth, maxDepth).Bad? {
      var mid, t, ending := ValueFails(src, start, depth, maxDepth, deep);
      ms, rest := LastMember(pre, key, gap, mid, t, []), ending + [RBRACE];
      MembersFlat(ms);
      var fits := Fits(TreeDepth(t), depth, maxDepth);
      Extend(src, pos, start, r.message, r.offset, ValueSpot(src, start, depth, maxDepth), deep, mid + TreeText(t), ending,
             fits, front, [RBRACE], fits);
      assert front + (mid + TreeText(t)) + [RBRACE] == MembersText(ms);
    } else {
      ms, rest := MemberMoreFails(src, pos, depth, maxDepth, deep, pre, key, gap);
    }
  }

  lemma {:induction false} MemberMoreFails(src: bytes, pos: nat, depth: nat, maxDepth: int, deep: bool, pre: bytes, key: seq<Piece>, gap: bytes)
    returns (ms: Members, rest: bytes)
    requires pos <= |src| && ParseKey(src, pos).Good? && ParseMembers(src, pos, depth, maxDepth).Bad?
    requires AllWs(pre) && ValidPieces(key) && AllWs(gap) && At(src, pos, pre + StringText(key) + gap + [COLON])
    requires ParseKey(src, pos).pos == pos + |pre + StringText(key) + gap + [COLON]|
    requires ParseValue(src, ParseKey(src, pos).pos, depth, maxDepth).Good?
    ensures MembersContinue(src, pos, depth, maxDepth, deep, ms, rest)
    decreases |src| - pos, 1
  {
    hide ParseValue, ValueSpot, ParseKey, KeySpot, TreeText, TreeDepth, ValidTree, StringText, SkipWs, At, Continues, MembersText;
    var front := pre + StringText(key) + gap + [COLON];
    var start := pos + |front|;
    var mid, t := ValueSound(src, start, depth, maxDepth);
    var q := start + |mid| + |TreeText(t)|;
    var post := SkippedWs(src, q);
    var p := q + |post|;
    AtThree(src, start, mid, TreeText(t), post);
    AtJoin(src, pos, front, mid + TreeText(t) + post);
    if Peek(src, p) == COMMA {
      var more;
      more, rest := MembersFails(src, p + 1, depth, maxDepth, deep);
      ms := MoreMembers(pre, key, gap, mid, t, post, more);
      MemberThenMore(src, pos, p, depth, maxDepth, deep, ms, rest);
    } else {
      ms, rest := LastMember(pre, key, gap, mid, t, post), [RBRACE];
      MembersFlat(ms);
      Stop(src, pos, "expected `,` or `}`", p, deep, front + (mid + TreeText(t) + post), [RBRACE]);
      assert front + (mid + TreeText(t) + post) + [RBRACE] == MembersText(ms);
    }
  }

  /** A whole member and a comma before what is continued. */
  lemma MemberThenMore(src: bytes, pos: nat, p: nat, depth: nat, maxDepth: int, deep: bool, ms: Members, rest: bytes)
    requires pos <= p < |src| && src[p] == COMMA && ms.MoreMembers? && ParseMembers(src, p + 1, depth, maxDepth).Bad?
    requires var front := ms.pre + StringText(ms.key) + ms.gap + [COLON] + (ms.mid + TreeText(ms.t) + ms.post);
             At(src, pos, front) && p == pos + |front|
    requires MembersContinue(src, p + 1, depth, maxDepth, deep, ms.more, rest) && Fits(TreeDepth(ms.t), depth, maxDepth)
    ensures var r := ParseMembers(src, p + 1, depth, maxDepth);
            Continues(src, pos, r.message, r.offset, MembersSpot(src, p + 1, depth, maxDepth), deep, MembersText(ms), rest,
                      Fits(MembersDepth(ms), depth, maxDepth))
  {
    hide ParseMembers, MembersSpot, TreeText, TreeDepth, StringText, At, Continues, MembersText, ValidMembers;
    var r := ParseMembers(src, p + 1, depth, maxDepth);
    var front := ms.pre + StringText(ms.key) + ms.gap + [COLON] + (ms.mid + TreeText(ms.t) + ms.post);
    MembersFlat(ms);
    AtByte(src, p);
    AtJoin(src, pos, front, [COMMA]);
    Extend(src, pos, p + 1, r.message, r.offset, MembersSpot(src, p + 1, depth, maxDepth), deep, MembersText(ms.more), rest,
           Fits(MembersDepth(ms.more), depth, maxDepth), front + [COMMA], [], Fits(MembersDepth(ms), depth, maxDepth));
    assert rest + [] == rest && front + [COMMA] + MembersText(ms.more) + [] == MembersText(ms);
  }

  lemma MembersFlat(ms: Members)
    ensures MembersText(ms) ==
            (ms.pre + StringText(ms.key) + ms.gap + [COLON]) + ms.mid + TreeText(ms.t) + ms.post + MembersNext(ms)
  {
    hide TreeText, StringText;
    var value := ms.mid + TreeText(ms.t) + ms.post + MembersNext(ms);
    assert MemberValueText(ms) == value;
    assert MembersText(ms) == ms.pre + StringText(ms.key) + ms.gap + [COLON] + value;
  }
}
