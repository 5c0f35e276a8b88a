/** What the parser accepts is JSON text, and the value it returns is the one the grammar gives. */
module JsonSound {
  import opened Kod
  import opened ByteText
  import opened DecimalText
  import opened JsonGrammar
  import opened JsonParse
  import opened JsonComplete
  import Utf8

  lemma {:induction false} SkippedWs(src: bytes, pos: nat) returns (ws: bytes)
    requires pos <= |src|
    ensures AllWs(ws) && At(src, pos, ws) && SkipWs(src, pos) == pos + |ws|
    decreases |src| - pos
  {
    if pos < |src| && IsWs(src[pos]) {
      var rest := SkippedWs(src, pos + 1);
      ws := [src[pos]] + rest;
      AtJoin(src, pos, [src[pos]], rest);
    } else {
      ws := [];
    }
  }

  // ----- Strings -----

  lemma Hex4Sound(src: bytes, pos: nat) returns (h: Hex4)
    requires pos <= |src| && ParseHex4(src, pos).Good?
    ensures h.Valid() && At(src, pos, h.Text()) && ParseHex4(src, pos) == Good(h.Unit(), pos + 4)
  {
    h := Hex4(src[pos], src[pos + 1], src[pos + 2], src[pos + 3]);
  }

  lemma UnicodeSound(src: bytes, pos: nat) returns (p: Piece)
    requires pos + 2 <= |src| && src[pos] == BACKSLASH && src[pos + 1] == LETTER_U
    requires ParseUnicode(src, pos + 2).Good?
    ensures p.Valid() && At(src, pos, p.Text())
    ensures ParseUnicode(src, pos + 2) == Good(p.Meaning(), pos + |p.Text()|)
  {
    var mark: bytes := [BACKSLASH, LETTER_U];
    var h := Hex4Sound(src, pos + 2);
    AtJoin(src, pos, mark, h.Text());
    if Utf8.IsHigh(h.Unit()) {
      var l := Hex4Sound(src, pos + 8);
      AtJoin(src, pos, mark + h.Text(), mark);
      AtJoin(src, pos, mark + h.Text() + mark, l.Text());
      p := Pair(h, l);
    } else {
      p := Unit(h);
    }
  }

  lemma PieceSound(src: bytes, pos: nat) returns (p: Piece)
    requires 0 < pos < |src| && src[pos] != QUOTE && ParseChars(src, pos).Good?
    ensures p.Valid() && At(src, pos, p.Text())
    ensures pos + |p.Text()| <= |src|
    ensures ParseChars(src, pos) == Prefixed(p.Meaning(), ParseChars(src, pos + |p.Text()|))
  {
    if src[pos] != BACKSLASH {
      p := Plain(src[pos]);
    } else if IsShortEscape(src[pos + 1]) {
      p := Escape(src[pos + 1]);
    } else {
      p := UnicodeSound(src, pos);
    }
  }

  lemma {:induction false} CharsSound(src: bytes, pos: nat) returns (ps: seq<Piece>)
    requires 0 < pos <= |src| && ParseChars(src, pos).Good?
    ensures ValidPieces(ps) && At(src, pos, PiecesText(ps) + [QUOTE])
    ensures ParseChars(src, pos) == Good(PiecesMeaning(ps), pos + |PiecesText(ps)| + 1)
    decreases |src| - pos
  {
    hide Piece.Text, Piece.Meaning;
    if src[pos] == QUOTE {
      ps := [];
      assert PiecesText(ps) + [QUOTE] == [QUOTE];
    } else {
      var p := PieceSound(src, pos);
      var rest := CharsSound(src, pos + |p.Text()|);
      ps := [p] + rest;
      assert ps[1..] == rest;
      AtJoin(src, pos, p.Text(), PiecesText(rest) + [QUOTE]);
      assert PiecesText(ps) + [QUOTE] == p.Text() + (PiecesText(rest) + [QUOTE]);
    }
  }

  lemma StringSound(src: bytes, pos: nat) returns (ps: seq<Piece>)
    requires pos < |src| && src[pos] == QUOTE && ParseChars(src, pos + 1).Good?
    ensures ValidPieces(ps) && At(src, pos, StringText(ps))
    ensures ParseChars(src, pos + 1) == Good(PiecesMeaning(ps), pos + |StringText(ps)|)
  {
    hide PiecesText, PiecesMeaning;
    ps := CharsSound(src, pos + 1);
    AtJoin(src, pos, [QUOTE], PiecesText(ps) + [QUOTE]);
  }

  // ----- Numbers -----

  lemma FractionSound(src: bytes, pos: nat) returns (frac: Option<bytes>, text: bytes)
    requires pos <= |src| && ParseFraction(src, pos).Good?
    ensures frac.Some? ==> DigitRun(frac.value)
    ensures text == if frac.Some? then [DOT] + frac.value else []
    ensures At(src, pos, text) && ParseFraction(src, pos) == Good(frac.Some?, pos + |text|)
  {
    if Peek(src, pos) == DOT {
      var digits := SkippedDigits(src, pos + 1);
      AtJoin(src, pos, [DOT], digits);
      frac, text := Some(digits), [DOT] + digits;
    } else {
      frac, text := None, [];
    }
  }

  lemma ExponentSound(src: bytes, pos: nat) returns (exp: Option<Exponent>, text: bytes)
    requires pos <= |src| && ParseExponent(src, pos).Good?
    ensures exp.Some? ==> exp.value.Valid()
    ensures text == if exp.Some? then exp.value.Text() else []
    ensures At(src, pos, text) && ParseExponent(src, pos) == Good(exp.Some?, pos + |text|)
  {
    var c := Peek(src, pos);
    if c == 101 || c == 69 {
      var s := Peek(src, pos + 1);
      var signed := s == PLUS || s == MINUS;
      var sign: bytes := if signed then [src[pos + 1]] else [];
      var digits := SkippedDigits(src, pos + 1 + |sign|);
      AtJoin(src, pos + 1, sign, digits);
      AtJoin(src, pos, [src[pos]], sign + digits);
      var e := Exponent(src[pos], if signed then Some(src[pos + 1]) else None, digits);
      exp, text := Some(e), e.Text();
    } else {
      exp, text := None, [];
    }
  }

  lemma WholeSound(src: bytes, pos: nat) returns (whole: bytes)
    requires pos <= |src| && IsDigit(Peek(src, pos))
    ensures DigitRun(whole) && (whole[0] == ZERO ==> |whole| == 1) && At(src, pos, whole)
    ensures (if Peek(src, pos) == ZERO then pos + 1 else SkipDigits(src, pos)) == pos + |whole|
  {
    if Peek(src, pos) == ZERO {
      whole := [src[pos]];
    } else {
      whole := SkippedDigits(src, pos);
      AtHead(src, pos, whole);
    }
  }

  lemma NumberSound(src: bytes, pos: nat) returns (num: NumberTree)
    requires pos <= |src| && ParseNumber(src, pos).Good?
    ensures num.Valid() && At(src, pos, num.Text())
    ensures ParseNumber(src, pos) == Good(num.Meaning(), pos + |num.Text()|)
  {
    hide NumberTree.Meaning, NumberValue, ScanUnsigned, At;
    var minus := Peek(src, pos) == MINUS;
    var start := if minus then pos + 1 else pos;
    num := UnsignedSound(src, start, minus);
    SignAt(src, pos, num);
    AtSlice(src, pos, num.Text());
    NumberMeans(num);
  }

  lemma SignAt(src: bytes, pos: nat, num: NumberTree)
    requires pos <= |src| && (num.minus ==> Peek(src, pos) == MINUS)
    requires At(src, pos + |num.SignText()|, num.whole + (num.FracText() + num.ExpText()))
    ensures At(src, pos, num.Text())
  {
    AtJoin(src, pos, num.SignText(), num.whole + (num.FracText() + num.ExpText()));
  }

  lemma UnsignedSound(src: bytes, pos: nat, minus: bool) returns (num: NumberTree)
    requires pos <= |src| && ScanUnsigned(src, pos).Good?
    ensures num.Valid() && num.minus == minus
    ensures At(src, pos, num.whole + (num.FracText() + num.ExpText()))
    ensures ScanUnsigned(src, pos) ==
            Good(num.frac.None? && num.exp.None?, pos + |num.whole| + |num.FracText()| + |num.ExpText()|)
  {
    hide ParseFraction, ParseExponent, SkipDigits, At;
    var whole := WholeSound(src, pos);
    var p := pos + |whole|;
    var frac, fracText := FractionSound(src, p);
    var exp, expText := ExponentSound(src, p + |fracText|);
    num := NumberTree(minus, whole, frac, exp);
    AtJoin(src, p, fracText, expText);
    AtJoin(src, pos, whole, fracText + expText);
  }

  // ----- Values -----

  /** `t` accounts for what the parser consumed at `pos`, without leading whitespace. */
  predicate Explains(src: bytes, pos: nat, t: Tree, depth: nat, maxDepth: int, r: Parsed<Value>)
  {
    && ValidTree(t) && At(src, pos, TreeText(t))
    && r == Good(TreeMeaning(t), pos + |TreeText(t)|)
    && Fits(TreeDepth(t), depth, maxDepth)
  }

  lemma LeafSound(src: bytes, pos: nat, depth: nat, maxDepth: int) returns (t: Tree)
    requires pos < |src| && !IsWs(src[pos]) && src[pos] != LBRACE && src[pos] != LBRACKET
    requires ParseValue(src, pos, depth, maxDepth).Good?
    ensures Explains(src, pos, t, depth, maxDepth, ParseValue(src, pos, depth, maxDepth))
  {
    hide ParseChars, ParseNumber, PiecesText, PiecesMeaning, NumberTree.Text, NumberTree.Meaning;
    SkipWsOver(src, pos, []);
    if src[pos] == QUOTE {
      var ps := StringSound(src, pos);
      t := StringLeaf(ps);
    } else if src[pos] == 116 {
      t := TrueTree;
    } else if src[pos] == 102 {
      t := FalseTree;
    } else if src[pos] == 110 {
      t := NullTree;
    } else {
      var num := NumberSound(src, pos);
      t := NumberLeaf(num);
    }
  }

  lemma {:induction false} ValueSound(src: bytes, pos: nat, depth: nat, maxDepth: int) returns (pre: bytes, t: Tree)
    requires pos <= |src| && ParseValue(src, pos, depth, maxDepth).Good?
    ensures AllWs(pre) && At(src, pos, pre)
    ensures Explains(src, pos + |pre|, t, depth, maxDepth, ParseValue(src, pos, depth, maxDepth))
    decreases |src| - pos, 2
  {
    pre := SkippedWs(src, pos);
    var p := pos + |pre|;
    ValueAfterWs(src, pos, depth, maxDepth);
    if src[p] == LBRACKET {
      t := ArraySound(src, p, depth, maxDepth);
    } else if src[p] == LBRACE {
      t := ObjectSound(src, p, depth, maxDepth);
    } else {
      t := LeafSound(src, p, depth, maxDepth);
    }
  }

  lemma {:induction false} ArraySound(src: bytes, pos: nat, depth: nat, maxDepth: int) returns (t: Tree)
    requires pos < |src| && src[pos] == LBRACKET && ParseArray(src, pos, depth, maxDepth).Good?
    ensures Explains(src, pos, t, depth, maxDepth, ParseArray(src, pos, depth, maxDepth))
    decreases |src| - pos, 1
  {
    hide ParseElems, ElemsText, ElemsMeaning, At;
    var ws := SkippedWs(src, pos + 1);
    var p := pos + 1 + |ws|;
    AtByte(src, pos);
    if Peek(src, p) == RBRACKET {
      t := EmptyArray(ws);
      AtByte(src, p);
      AtJoin(src, pos + 1, ws, [RBRACKET]);
      AtJoin(src, pos, [LBRACKET], ws + [RBRACKET]);
    } else {
      ElemsAfterWs(src, pos + 1, depth + 1, maxDepth);
      var es := ElemsSound(src, pos + 1, depth + 1, maxDepth);
      AtJoin(src, pos, [LBRACKET], ElemsText(es));
      t := ArrayTree(es);
    }
  }

  lemma {:induction false} ElemsSound(src: bytes, pos: nat, depth: nat, maxDepth: int) returns (es: Elems)
    requires pos <= |src| && ParseElems(src, pos, depth, maxDepth).Good?
    ensures ValidElems(es) && At(src, pos, ElemsText(es))
    ensures ParseElems(src, pos, depth, maxDepth) == Good(ElemsMeaning(es), pos + |ElemsText(es)|)
    ensures Fits(ElemsDepth(es), depth, maxDepth)
    decreases |src| - pos, 3
  {
    hide ParseValue, TreeText, TreeMeaning, TreeDepth, ValidTree, At;
    var pre, t := ValueSound(src, pos, depth, maxDepth);
    var q := pos + |pre| + |TreeText(t)|;
    var post := SkippedWs(src, q);
    var p := q + |post|;
    if Peek(src, p) == COMMA {
      var rest := ElemsSound(src, p + 1, depth, maxDepth);
      es := MoreElems(pre, t, post, rest);
      AtByte(src, p);
      AtJoin(src, p, [COMMA], ElemsText(rest));
    } else {
      es := LastElem(pre, t, post);
      AtByte(src, p);
    }
    SpacedAt(src, pos, pre, TreeText(t), post, ElemsNext(es));
  }

  lemma SpacedAt(src: bytes, pos: nat, pre: bytes, text: bytes, post: bytes, next: bytes)
    requires At(src, pos, pre) && At(src, pos + |pre|, text)
    requires At(src, pos + |pre| + |text|, post) && At(src, pos + |pre| + |text| + |post|, next)
    ensures At(src, pos, Spaced(pre, text, post, next))
  {
    AtJoin(src, pos + |pre| + |text|, post, next);
    AtJoin(src, pos + |pre|, text, post + next);
    AtJoin(src, pos, pre, text + (post + next));
  }

  lemma {:induction false} ObjectSound(src: bytes, pos: nat, depth: nat, maxDepth: int) returns (t: Tree)
    requires pos < |src| && src[pos] == LBRACE && ParseObject(src, pos, depth, maxDepth).Good?
    ensures Explains(src, pos, t, depth, maxDepth, ParseObject(src, pos, depth, maxDepth))
    decreases |src| - pos, 1
  {
    hide ParseMembers, MembersText, MembersKeys, MembersValues, At;
    var ws := SkippedWs(src, pos + 1);
    var p := pos + 1 + |ws|;
    AtByte(src, pos);
    if Peek(src, p) == RBRACE {
      t := EmptyObject(ws);
      AtByte(src, p);
      AtJoin(src, pos + 1, ws, [RBRACE]);
      AtJoin(src, pos, [LBRACE], ws + [RBRACE]);
    } else {
      MembersAfterWs(src, pos + 1, depth + 1, maxDepth);
      var ms := MembersSound(src, pos + 1, depth + 1, maxDepth);
      AtJoin(src, pos, [LBRACE], MembersText(ms));
      t := ObjectTree(ms);
    }
  }

  lemma KeySound(src: bytes, pos: nat) returns (pre: bytes, key: seq<Piece>, gap: bytes)
    requires pos <= |src| && ParseKey(src, pos).Good?
    ensures AllWs(pre) && ValidPieces(key) && AllWs(gap)
    ensures At(src, pos, pre) && At(src, pos + |pre|, StringText(key)) && At(src, pos + |pre| + |StringText(key)|, gap)
    ensures var colon := pos + |pre| + |StringText(key)| + |gap|;
            At(src, colon, [COLON]) && ParseKey(src, pos) == Good(PiecesMeaning(key), colon + 1)
  {
    hide ParseChars, PiecesText, PiecesMeaning;
    pre := SkippedWs(src, pos);
    key := StringSound(src, pos + |pre|);
    gap := SkippedWs(src, pos + |pre| + |StringText(key)|);
  }

  lemma {:induction false} MembersSound(src: bytes, pos: nat, depth: nat, maxDepth: int) returns (ms: Members)
    requires pos <= |src| && ParseMembers(src, pos, depth, maxDepth).Good?
    ensures ValidMembers(ms) && At(src, pos, MembersText(ms))
    ensures ParseMembers(src, pos, depth, maxDepth) == Good((MembersKeys(ms), MembersValues(ms)), pos + |MembersText(ms)|)
    ensures Fits(MembersDepth(ms), depth, maxDepth)
    decreases |src| - pos, 3
  {
    hide ParseValue, ParseKey, TreeText, TreeMeaning, TreeDepth, ValidTree, StringText, PiecesMeaning, At;
    var pre, key, gap := KeySound(src, pos);
    var value := pos + |pre| + |StringText(key)| + |gap| + 1;
    var mid, t := ValueSound(src, value, depth, maxDepth);
    var q := value + |mid| + |TreeText(t)|;
    var post := SkippedWs(src, q);
    var p := q + |post|;
    if Peek(src, p) == COMMA {
      var more := MembersSound(src, p + 1, depth, maxDepth);
      ms := MoreMembers(pre, key, gap, mid, t, post, more);
      AtByte(src, p);
      AtJoin(src, p, [COMMA], MembersText(more));
    } else {
      ms := LastMember(pre, key, gap, mid, t, post);
      AtByte(src, p);
    }
    SpacedAt(src, value, mid, TreeText(t), post, MembersNext(ms));
    AtJoin(src, value - 1, [COLON], MemberValueText(ms));
    SpacedAt(src, pos, pre, StringText(key), gap, [COLON] + MemberValueText(ms));
  }

  /** From the end of the byte order mark to the end of the source. */
  lemma BodySound(src: bytes, start: nat, maxDepth: int) returns (pre: bytes, t: Tree, post: bytes)
    requires start <= |src|
    requires var r := ParseValue(src, start, 0, maxDepth); r.Good? && SkipWs(src, r.pos) == |src|
    ensures AllWs(pre) && ValidTree(t) && AllWs(post)
    ensures At(src, start, pre + (TreeText(t) + post)) && |src| == start + |pre| + |TreeText(t)| + |post|
    ensures ParseValue(src, start, 0, maxDepth).value == TreeMeaning(t)
    ensures Fits(TreeDepth(t), 0, maxDepth)
  {
    hide ParseValue, TreeText, TreeMeaning, TreeDepth, ValidTree, At;
    pre, t := ValueSound(src, start, 0, maxDepth);
    post := SkippedWs(src, start + |pre| + |TreeText(t)|);
    AtJoin(src, start + |pre|, TreeText(t), post);
    AtJoin(src, start, pre, TreeText(t) + post);
  }

  /** Soundness for whole texts. */
  lemma TextSound(src: bytes, maxDepth: int) returns (d: Document)
    requires ParseText(src, maxDepth).Good?
    ensures d.Valid() && d.Text() == src
    ensures ParseText(src, maxDepth) == Good(TreeMeaning(d.t), |src|)
    ensures Fits(TreeDepth(d.t), 0, maxDepth)
  {
    hide ParseValue, TreeText, TreeMeaning, TreeDepth, ValidTree, At;
    var bom := At(src, 0, BOM);
    var mark: bytes := if bom then BOM else [];
    AtStart(src, mark);
    var pre, t, post := BodySound(src, |mark|, maxDepth);
    AtJoin(src, 0, mark, pre + (TreeText(t) + post));
    AtAll(src, mark + (pre + (TreeText(t) + post)));
    d := Document(bom, pre, t, post);
  }

  lemma AtStart(src: bytes, mark: bytes)
    requires mark == [] || At(src, 0, mark)
    ensures At(src, 0, mark) && |mark| <= |src|
  {
  }

  /**
   `parse` accepts exactly the JSON texts nested no deeper than the limit, and returns their
   value; a text without arrays and objects is accepted under any limit, even a negative one.
   */
  lemma ParseIsExact(src: bytes, maxDepth: int, v: Value)
    ensures ParseText(src, maxDepth) == Good(v, |src|) <==>
            exists depth: nat :: Denotes(src, v, depth) && Fits(depth, 0, maxDepth)
  {
    hide ParseText, Document.Text, TreeMeaning, TreeDepth, ValidTree;
    if ParseText(src, maxDepth) == Good(v, |src|) {
      var d := TextSound(src, maxDepth);
      assert Denotes(src, v, TreeDepth(d.t));
    }
    forall depth: nat | Denotes(src, v, depth) && Fits(depth, 0, maxDepth)
      ensures ParseText(src, maxDepth) == Good(v, |src|)
    {
      var d: Document :| d.Valid() && d.Text() == src && TreeMeaning(d.t) == v && TreeDepth(d.t) == depth;
      DocumentParses(d, maxDepth);
    }
  }

  /** A JSON text fails only for its depth, so the message is always the same. */
  lemma OnlyDepthFails(src: bytes, maxDepth: int, v: Value, depth: nat)
    requires Denotes(src, v, depth) && !Fits(depth, 0, maxDepth)
    ensures TooDeep(ParseText(src, maxDepth))
  {
    hide ParseText, Document.Text, TreeMeaning, TreeDepth, ValidTree;
    var d: Document :| d.Valid() && d.Text() == src && TreeMeaning(d.t) == v && TreeDepth(d.t) == depth;
    DocumentParses(d, maxDepth);
  }
}
