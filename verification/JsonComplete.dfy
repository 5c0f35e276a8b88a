/** Every JSON text is parsed, to the value the grammar gives it, unless it is nested too deeply. */
module JsonComplete {
  import opened Kod
  import opened ByteText
  import opened DecimalText
  import opened JsonGrammar
  import opened JsonParse

  // ----- Whitespace -----

  lemma {:induction false} SkipWsOver(src: bytes, pos: nat, ws: bytes)
    requires At(src, pos, ws) && AllWs(ws) && !IsWs(Peek(src, pos + |ws|))
    ensures SkipWs(src, pos) == pos + |ws|
    decreases |ws|
  {
    if ws != [] {
      AtHead(src, pos, ws);
      assert ws == ws[..1] + ws[1..];
      AtSplit(src, pos, ws[..1], ws[1..]);
      SkipWsOver(src, pos + 1, ws[1..]);
    }
  }

  // ----- Strings -----

  lemma Hex4Parses(src: bytes, pos: nat, h: Hex4)
    requires At(src, pos, h.Text()) && h.Valid()
    ensures ParseHex4(src, pos) == Good(h.Unit(), pos + 4)
  {
    var text := h.Text();
    assert text[0] == h.a && text[1] == h.b && text[2] == h.c && text[3] == h.d;
  }

  lemma UnicodeParses(src: bytes, pos: nat, p: Piece)
    requires At(src, pos, p.Text()) && p.Valid() && (p.Unit? || p.Pair?)
    ensures ParseUnicode(src, pos + 2) == Good(p.Meaning(), pos + |p.Text()|)
    ensures src[pos] == BACKSLASH && src[pos + 1] == LETTER_U
  {
    var mark: bytes := [BACKSLASH, LETTER_U];
    if p.Unit? {
      AtSplit(src, pos, mark, p.h.Text());
      Hex4Parses(src, pos + 2, p.h);
      assert mark[0] == BACKSLASH && mark[1] == LETTER_U;
    } else {
      AtSplit(src, pos, mark + p.high.Text() + mark, p.low.Text());
      AtSplit(src, pos, mark + p.high.Text(), mark);
      AtSplit(src, pos, mark, p.high.Text());
      Hex4Parses(src, pos + 2, p.high);
      Hex4Parses(src, pos + 8, p.low);
      assert mark[0] == BACKSLASH && mark[1] == LETTER_U;
    }
  }

  /** One piece: the parser appends its meaning and goes on after its text. */
  lemma PieceParses(src: bytes, pos: nat, p: Piece)
    requires 0 < pos && At(src, pos, p.Text()) && p.Valid()
    ensures ParseChars(src, pos) == Prefixed(p.Meaning(), ParseChars(src, pos + |p.Text()|))
  {
    AtHead(src, pos, p.Text());
    match p {
      case Plain(_) =>
      case Escape(e) =>
        assert p.Text()[1] == e;
      case _ =>
        UnicodeParses(src, pos, p);
    }
  }

  lemma {:induction false} CharsParse(src: bytes, pos: nat, ps: seq<Piece>)
    requires 0 < pos && At(src, pos, PiecesText(ps) + [QUOTE]) && ValidPieces(ps)
    ensures ParseChars(src, pos) == Good(PiecesMeaning(ps), pos + |PiecesText(ps)| + 1)
    decreases |ps|
  {
    hide Piece.Text, Piece.Meaning;
    if ps == [] {
      assert PiecesText(ps) + [QUOTE] == [QUOTE];
      AtHead(src, pos, [QUOTE]);
    } else {
      var p, rest := ps[0], ps[1..];
      assert PiecesText(ps) + [QUOTE] == p.Text() + (PiecesText(rest) + [QUOTE]);
      AtSplit(src, pos, p.Text(), PiecesText(rest) + [QUOTE]);
      PieceParses(src, pos, p);
      CharsParse(src, pos + |p.Text()|, rest);
    }
  }

  lemma StringParses(src: bytes, pos: nat, ps: seq<Piece>)
    requires At(src, pos, StringText(ps)) && ValidPieces(ps)
    ensures Peek(src, pos) == QUOTE
    ensures ParseChars(src, pos + 1) == Good(PiecesMeaning(ps), pos + |StringText(ps)|)
  {
    AtHead(src, pos, StringText(ps));
    AtSplit(src, pos, [QUOTE], PiecesText(ps) + [QUOTE]);
    CharsParse(src, pos + 1, ps);
  }

  // ----- Numbers -----

  /** What may stand after a value: the end, whitespace, a comma or a closing bracket. */
  predicate Ends(src: bytes, pos: nat)
  {
    var c := Peek(src, pos);
    c == -1 || IsWs(c) || c == COMMA || c == RBRACKET || c == RBRACE
  }

  predicate EndsNumber(src: bytes, pos: nat)
  {
    var c := Peek(src, pos);
    !IsDigit(c) && c != DOT && c != 101 && c != 69
  }

  lemma FractionParses(src: bytes, pos: nat, num: NumberTree)
    requires num.Valid() && At(src, pos, num.FracText() + num.ExpText())
    requires EndsNumber(src, pos + |num.FracText()| + |num.ExpText()|)
    ensures ParseFraction(src, pos) == Good(num.frac.Some?, pos + |num.FracText()|)
    ensures !IsDigit(Peek(src, pos))
  {
    AtSplit(src, pos, num.FracText(), num.ExpText());
    if num.exp.Some? {
      AtHead(src, pos + |num.FracText()|, num.ExpText());
    }
    if num.frac.Some? {
      AtHead(src, pos, num.FracText());
      AtSplit(src, pos, [DOT], num.frac.value);
      SkipDigitsOver(src, pos + 1, num.frac.value);
    }
  }

  lemma ExponentParses(src: bytes, pos: nat, num: NumberTree)
    requires num.Valid() && At(src, pos, num.ExpText())
    requires EndsNumber(src, pos + |num.ExpText()|)
    ensures ParseExponent(src, pos) == Good(num.exp.Some?, pos + |num.ExpText()|)
  {
    if num.exp.Some? {
      var e := num.exp.value;
      var sign: bytes := if e.sign.Some? then [e.sign.value] else [];
      AtHead(src, pos, e.Text());
      AtSplit(src, pos, [e.mark], sign + e.digits);
      AtSplit(src, pos + 1, sign, e.digits);
      AtHead(src, pos + 1 + |sign|, e.digits);
      if e.sign.Some? {
        AtHead(src, pos + 1, sign);
      }
      SkipDigitsOver(src, pos + 1 + |sign|, e.digits);
    }
  }

  lemma UnsignedScans(src: bytes, pos: nat, num: NumberTree)
    requires num.Valid() && At(src, pos, num.whole + (num.FracText() + num.ExpText()))
    requires EndsNumber(src, pos + |num.whole| + |num.FracText()| + |num.ExpText()|)
    ensures ScanUnsigned(src, pos) == Good(num.frac.None? && num.exp.None?, pos + |num.whole| + |num.FracText()| + |num.ExpText()|)
    ensures IsDigit(Peek(src, pos))
  {
    hide ParseFraction, ParseExponent, SkipDigits, NumberTree.FracText, NumberTree.ExpText, At;
    var whole := pos + |num.whole|;
    AtSplit(src, pos, num.whole, num.FracText() + num.ExpText());
    AtHead(src, pos, num.whole);
    assert IsDigit(num.whole[0]);
    FractionParses(src, whole, num);
    AtSplit(src, whole, num.FracText(), num.ExpText());
    ExponentParses(src, whole + |num.FracText()|, num);
    SkipDigitsOver(src, pos, num.whole);
  }

  lemma NumberScans(src: bytes, pos: nat, num: NumberTree)
    requires num.Valid() && At(src, pos, num.Text())
    requires EndsNumber(src, pos + |num.Text()|)
    ensures ScanNumber(src, pos) == Good(num.frac.None? && num.exp.None?, pos + |num.Text()|)
    ensures Peek(src, pos) == MINUS || IsDigit(Peek(src, pos))
  {
    hide ScanUnsigned, NumberTree.FracText, NumberTree.ExpText, At;
    var sign := num.SignText();
    AtSplit(src, pos, sign, num.whole + (num.FracText() + num.ExpText()));
    UnsignedScans(src, pos + |sign|, num);
    if num.minus {
      AtHead(src, pos, sign);
    }
  }

  /** What the parser makes of a number text is what the grammar means by it. */
  lemma NumberMeans(num: NumberTree)
    requires num.Valid()
    ensures NumberValue(num.Text(), num.frac.None? && num.exp.None?) == num.Meaning()
  {
    if num.frac.None? && num.exp.None? {
      assert num.Text() == num.SignText() + num.whole;
      assert IsDigit(num.whole[0]);
      if num.minus {
        assert num.Text()[1..] == num.whole;
      } else {
        assert num.Text() == num.whole;
      }
    }
  }

  lemma NumberParses(src: bytes, pos: nat, num: NumberTree)
    requires num.Valid() && At(src, pos, num.Text())
    requires EndsNumber(src, pos + |num.Text()|)
    ensures ParseNumber(src, pos) == Good(num.Meaning(), pos + |num.Text()|)
  {
    hide ScanNumber, NumberTree.Text, NumberTree.Meaning, NumberValue;
    NumberScans(src, pos, num);
    AtSlice(src, pos, num.Text());
    NumberMeans(num);
  }

  // ----- Values -----

  /** How a tree's text starts: enough to send the parser down the right branch. */
  lemma TreeHead(t: Tree)
    requires ValidTree(t)
    ensures StartsValue(TreeText(t))
  {
    if t.NumberLeaf? {
      assert IsDigit(t.num.whole[0]);
    }
  }

  /** A tree of depth 0 always fits; a deeper one must leave the limit alone. */
  predicate Fits(treeDepth: nat, depth: nat, maxDepth: int)
  {
    treeDepth == 0 || depth + treeDepth <= maxDepth
  }

  predicate TooDeep<T>(r: Parsed<T>)
  {
    r.Bad? && r.message == TOO_DEEP
  }

  lemma LiteralParses(src: bytes, pos: nat, t: Tree, depth: nat, maxDepth: int)
    requires At(src, pos, TreeText(t)) && (t.NullTree? || t.TrueTree? || t.FalseTree?)
    ensures ParseValue(src, pos, depth, maxDepth) == Good(TreeMeaning(t), pos + |TreeText(t)|)
  {
    AtHead(src, pos, TreeText(t));
    SkipWsOver(src, pos, []);
  }

  lemma LeafParses(src: bytes, pos: nat, t: Tree, depth: nat, maxDepth: int)
    requires At(src, pos, TreeText(t)) && ValidTree(t) && (t.NumberLeaf? || t.StringLeaf?)
    requires t.NumberLeaf? ==> Ends(src, pos + |TreeText(t)|)
    ensures ParseValue(src, pos, depth, maxDepth) == Good(TreeMeaning(t), pos + |TreeText(t)|)
  {
    hide ParseChars, PiecesText, PiecesMeaning, ParseNumber, NumberTree.Meaning, At;
    TreeHead(t);
    AtHead(src, pos, TreeText(t));
    SkipWsOver(src, pos, []);
    if t.NumberLeaf? {
      NumberScans(src, pos, t.num);
      NumberParses(src, pos, t.num);
    } else {
      StringParses(src, pos, t.ps);
    }
  }

  predicate StartsValue(text: bytes)
  {
    text != [] && !IsWs(text[0]) && text[0] != RBRACKET && text[0] != RBRACE
  }

  predicate StartsNext(next: bytes)
  {
    next != [] && (next[0] == COMMA || next[0] == RBRACKET || next[0] == RBRACE || next[0] == COLON)
  }

  /** The parser's way through `pre text post next`. */
  lemma AroundText(src: bytes, pos: nat, pre: bytes, text: bytes, post: bytes, next: bytes)
    requires At(src, pos, Spaced(pre, text, post, next))
    requires AllWs(pre) && StartsValue(text) && AllWs(post) && StartsNext(next)
    ensures SkipWs(src, pos) == pos + |pre|
    ensures At(src, pos + |pre|, text) && Peek(src, pos + |pre|) == text[0]
    ensures var end := pos + |pre| + |text|;
            && (next[0] != COLON ==> Ends(src, end))
            && SkipWs(src, end) == end + |post|
            && At(src, end + |post|, next)
            && Peek(src, end + |post|) == next[0]
  {
    var start := pos + |pre|;
    var end := start + |text|;
    AtSplit(src, pos, pre, text + (post + next));
    AtSplit(src, start, text, post + next);
    AtSplit(src, end, post, next);
    AtHead(src, end, post + next);
    AtHead(src, end + |post|, next);
    AtHead(src, start, text);
    SkipWsOver(src, pos, pre);
    SkipWsOver(src, end, post);
  }

  lemma ValueAfterWs(src: bytes, pos: nat, depth: nat, maxDepth: int)
    requires pos <= |src|
    ensures ParseValue(src, pos, depth, maxDepth) == ParseValue(src, SkipWs(src, pos), depth, maxDepth)
  {
    var p := SkipWs(src, pos);
    SkipWsOver(src, p, []);
  }

  /** At a tree's text, the parser returns its meaning or finds it too deep. */
  predicate TreeRead(src: bytes, pos: nat, t: Tree, depth: nat, maxDepth: int)
    requires pos <= |src| && ValidTree(t)
  {
    var r := ParseValue(src, pos, depth, maxDepth);
    if Fits(TreeDepth(t), depth, maxDepth) then r == Good(TreeMeaning(t), pos + |TreeText(t)|) else TooDeep(r)
  }

  predicate ElemsRead(src: bytes, pos: nat, es: Elems, depth: nat, maxDepth: int)
    requires pos <= |src| && ValidElems(es)
  {
    var r := ParseElems(src, pos, depth, maxDepth);
    if Fits(ElemsDepth(es), depth, maxDepth) then r == Good(ElemsMeaning(es), pos + |ElemsText(es)|) else TooDeep(r)
  }

  predicate MembersRead(src: bytes, pos: nat, ms: Members, depth: nat, maxDepth: int)
    requires pos <= |src| && ValidMembers(ms)
  {
    var r := ParseMembers(src, pos, depth, maxDepth);
    if Fits(MembersDepth(ms), depth, maxDepth) then
      r == Good((MembersKeys(ms), MembersValues(ms)), pos + |MembersText(ms)|)
    else TooDeep(r)
  }

  /** One round of the array loop: a value, then a comma and the rest, or the closing bracket. */
  lemma ElemsRound(src: bytes, pos: nat, pre: bytes, text: bytes, post: bytes, next: bytes, depth: nat, maxDepth: int)
    requires At(src, pos, Spaced(pre, text, post, next))
    requires AllWs(pre) && StartsValue(text) && AllWs(post)
    requires next != [] && (next[0] == COMMA || next[0] == RBRACKET)
    ensures var start := pos + |pre|;
            var end := start + |text| + |post|;
            var value := ParseValue(src, start, depth, maxDepth);
            var r := ParseElems(src, pos, depth, maxDepth);
            && (value.Bad? ==> r == Bad(value.message, value.offset))
            && (value.Good? && value.pos == start + |text| && next[0] == RBRACKET ==> r == Good([value.value], end + 1))
            && (value.Good? && value.pos == start + |text| && next[0] == COMMA ==>
                  end < |src| &&
                  var rest := ParseElems(src, end + 1, depth, maxDepth);
                  if rest.Good? then r == Good([value.value] + rest.value, rest.pos)
                  else r == Bad(rest.message, rest.offset))
  {
    hide ParseValue;
    AroundText(src, pos, pre, text, post, next);
    ValueAfterWs(src, pos, depth, maxDepth);
  }

  lemma MembersRound(src: bytes, pos: nat, pre: bytes, key: seq<Piece>, gap: bytes,
                     mid: bytes, text: bytes, post: bytes, next: bytes, depth: nat, maxDepth: int)
    requires At(src, pos, Spaced(pre, StringText(key), gap, [COLON] + Spaced(mid, text, post, next)))
    requires AllWs(pre) && ValidPieces(key) && AllWs(gap) && AllWs(mid) && StartsValue(text) && AllWs(post)
    requires next != [] && (next[0] == COMMA || next[0] == RBRACE)
    ensures var start := pos + |pre| + |StringText(key)| + |gap| + 1 + |mid|;
            var end := start + |text| + |post|;
            && start <= |src|
            && var value := ParseValue(src, start, depth, maxDepth);
            var r := ParseMembers(src, pos, depth, maxDepth);
            && (value.Bad? ==> r == Bad(value.message, value.offset))
            && (value.Good? && value.pos == start + |text| && next[0] == RBRACE ==>
                  r == Good(([PiecesMeaning(key)], [value.value]), end + 1))
            && (value.Good? && value.pos == start + |text| && next[0] == COMMA ==>
                  end < |src| &&
                  var rest := ParseMembers(src, end + 1, depth, maxDepth);
                  if rest.Good? then
                    r == Good(([PiecesMeaning(key)] + rest.value.0, [value.value] + rest.value.1), rest.pos)
                  else r == Bad(rest.message, rest.offset))
  {
    hide ParseValue, ParseChars, PiecesText, PiecesMeaning, At;
    KeyParses(src, pos, pre, key, gap, Spaced(mid, text, post, next));
    var start := pos + |pre| + |StringText(key)| + |gap| + 1;
    AroundText(src, start, mid, text, post, next);
    ValueAfterWs(src, start, depth, maxDepth);
  }

  lemma KeyParses(src: bytes, pos: nat, pre: bytes, key: seq<Piece>, gap: bytes, rest: bytes)
    requires At(src, pos, Spaced(pre, StringText(key), gap, [COLON] + rest))
    requires AllWs(pre) && ValidPieces(key) && AllWs(gap)
    ensures var colon := pos + |pre| + |StringText(key)| + |gap|;
            && SkipWs(src, pos) == pos + |pre| && Peek(src, pos + |pre|) == QUOTE
            && ParseKey(src, pos) == Good(PiecesMeaning(key), colon + 1)
            && At(src, colon + 1, rest)
  {
    hide ParseChars, PiecesText, PiecesMeaning;
    AroundText(src, pos, pre, StringText(key), gap, [COLON] + rest);
    AtSplit(src, pos + |pre| + |StringText(key)| + |gap|, [COLON], rest);
    StringParses(src, pos + |pre|, key);
  }

  lemma ElemsAfterWs(src: bytes, pos: nat, depth: nat, maxDepth: int)
    requires pos <= |src|
    ensures ParseElems(src, pos, depth, maxDepth) == ParseElems(src, SkipWs(src, pos), depth, maxDepth)
  {
    hide ParseValue;
    ValueAfterWs(src, pos, depth, maxDepth);
  }

  lemma MembersAfterWs(src: bytes, pos: nat, depth: nat, maxDepth: int)
    requires pos <= |src|
    ensures ParseMembers(src, pos, depth, maxDepth) == ParseMembers(src, SkipWs(src, pos), depth, maxDepth)
  {
    hide ParseValue, ParseChars;
    SkipWsOver(src, SkipWs(src, pos), []);
    assert ParseKey(src, pos) == ParseKey(src, SkipWs(src, pos));
  }

  /** The brackets around elements and members. */
  lemma ArrayOpens(src: bytes, pos: nat, pre: bytes, text: bytes, post: bytes, next: bytes, depth: nat, maxDepth: int)
    requires At(src, pos, [LBRACKET] + Spaced(pre, text, post, next))
    requires AllWs(pre) && StartsValue(text) && AllWs(post)
    requires next != [] && (next[0] == COMMA || next[0] == RBRACKET)
    ensures var r := ParseValue(src, pos, depth, maxDepth);
            if depth + 1 > maxDepth then r == Bad(TOO_DEEP, pos)
            else
              pos + 1 <= |src| &&
              var items := ParseElems(src, pos + 1, depth + 1, maxDepth);
              if items.Good? then r == Good(Array(items.value), items.pos) else r == Bad(items.message, items.offset)
  {
    hide ParseElems, ParseMembers, ParseChars;
    AtHead(src, pos, [LBRACKET] + Spaced(pre, text, post, next));
    AtSplit(src, pos, [LBRACKET], Spaced(pre, text, post, next));
    SkipWsOver(src, pos, []);
    AroundText(src, pos + 1, pre, text, post, next);
    ElemsAfterWs(src, pos + 1, depth + 1, maxDepth);
  }

  lemma ObjectOpens(src: bytes, pos: nat, ms: Members, depth: nat, maxDepth: int)
    requires At(src, pos, [LBRACE] + MembersText(ms)) && ValidMembers(ms)
    ensures var r := ParseValue(src, pos, depth, maxDepth);
            if depth + 1 > maxDepth then r == Bad(TOO_DEEP, pos)
            else
              pos + 1 <= |src| &&
              var items := ParseMembers(src, pos + 1, depth + 1, maxDepth);
              if items.Good? then r == Good(Object(items.value.0, items.value.1), items.pos)
              else r == Bad(items.message, items.offset)
  {
    hide PiecesText, PiecesMeaning, TreeText, ValidTree, ParseChars, ParseMembers, ParseElems, At;
    AtHead(src, pos, [LBRACE] + MembersText(ms));
    AtSplit(src, pos, [LBRACE], MembersText(ms));
    SkipWsOver(src, pos, []);
    KeyParses(src, pos + 1, ms.pre, ms.key, ms.gap, MemberValueText(ms));
    MembersAfterWs(src, pos + 1, depth + 1, maxDepth);
  }

  lemma EmptyParses(src: bytes, pos: nat, t: Tree, depth: nat, maxDepth: int)
    requires At(src, pos, TreeText(t)) && ValidTree(t) && (t.EmptyArray? || t.EmptyObject?)
    ensures TreeRead(src, pos, t, depth, maxDepth)
  {
    var open: byte, close: byte := if t.EmptyArray? then LBRACKET else LBRACE, if t.EmptyArray? then RBRACKET else RBRACE;
    AtHead(src, pos, TreeText(t));
    SkipWsOver(src, pos, []);
    AtSplit(src, pos, [open], t.ws + [close]);
    AtSplit(src, pos + 1, t.ws, [close]);
    AtHead(src, pos + 1 + |t.ws|, [close]);
    SkipWsOver(src, pos + 1, t.ws);
  }

  lemma ScalarParses(src: bytes, pos: nat, t: Tree, depth: nat, maxDepth: int)
    requires At(src, pos, TreeText(t)) && ValidTree(t) && (t.NumberLeaf? ==> Ends(src, pos + |TreeText(t)|))
    requires t.NumberLeaf? || t.StringLeaf? || t.NullTree? || t.TrueTree? || t.FalseTree?
    ensures TreeRead(src, pos, t, depth, maxDepth)
  {
    hide ParseValue, TreeText, ValidTree, TreeMeaning;
    if t.NumberLeaf? || t.StringLeaf? {
      LeafParses(src, pos, t, depth, maxDepth);
    } else {
      LiteralParses(src, pos, t, depth, maxDepth);
    }
  }

  lemma ArrayParses(src: bytes, pos: nat, es: Elems, depth: nat, maxDepth: int)
    requires At(src, pos, [LBRACKET] + ElemsText(es)) && ValidElems(es) && pos + 1 <= |src|
    requires ElemsRead(src, pos + 1, es, depth + 1, maxDepth)
    ensures TreeRead(src, pos, ArrayTree(es), depth, maxDepth)
  {
    hide ParseValue, ParseElems, ParseMembers;
    TreeHead(es.t);
    ArrayOpens(src, pos, es.pre, TreeText(es.t), es.post, ElemsNext(es), depth, maxDepth);
  }

  lemma ObjectParses(src: bytes, pos: nat, ms: Members, depth: nat, maxDepth: int)
    requires At(src, pos, [LBRACE] + MembersText(ms)) && ValidMembers(ms) && pos + 1 <= |src|
    requires MembersRead(src, pos + 1, ms, depth + 1, maxDepth)
    ensures TreeRead(src, pos, ObjectTree(ms), depth, maxDepth)
  {
    hide ParseValue, ParseElems, ParseMembers;
    ObjectOpens(src, pos, ms, depth, maxDepth);
  }

  /** The central result, by induction over the syntax tree. */
  lemma {:induction false} TreeParses(src: bytes, pos: nat, t: Tree, depth: nat, maxDepth: int)
    requires At(src, pos, TreeText(t)) && ValidTree(t) && (t.NumberLeaf? ==> Ends(src, pos + |TreeText(t)|))
    ensures TreeRead(src, pos, t, depth, maxDepth)
    decreases t, 0
  {
    hide TreeRead, ElemsRead, MembersRead, ElemsText, MembersText;
    match t {
      case EmptyArray(_) => EmptyParses(src, pos, t, depth, maxDepth);
      case EmptyObject(_) => EmptyParses(src, pos, t, depth, maxDepth);
      case ArrayTree(es) =>
        AtSplit(src, pos, [LBRACKET], ElemsText(es));
        ElemsParse(src, pos + 1, es, depth + 1, maxDepth);
        ArrayParses(src, pos, es, depth, maxDepth);
      case ObjectTree(ms) =>
        AtSplit(src, pos, [LBRACE], MembersText(ms));
        MembersParse(src, pos + 1, ms, depth + 1, maxDepth);
        ObjectParses(src, pos, ms, depth, maxDepth);
      case _ => ScalarParses(src, pos, t, depth, maxDepth);
    }
  }

  lemma {:induction false} ElemsParse(src: bytes, pos: nat, es: Elems, depth: nat, maxDepth: int)
    requires At(src, pos, ElemsText(es)) && ValidElems(es)
    ensures ElemsRead(src, pos, es, depth, maxDepth)
    decreases es, 0
  {
    hide ParseValue, ParseElems, TreeText, TreeMeaning, TreeDepth, ValidTree;
    var start := pos + |es.pre|;
    TreeHead(es.t);
    AroundText(src, pos, es.pre, TreeText(es.t), es.post, ElemsNext(es));
    TreeParses(src, start, es.t, depth, maxDepth);
    ElemsRound(src, pos, es.pre, TreeText(es.t), es.post, ElemsNext(es), depth, maxDepth);
    if es.MoreElems? {
      var comma := start + |TreeText(es.t)| + |es.post|;
      AtSplit(src, comma, [COMMA], ElemsText(es.rest));
      ElemsParse(src, comma + 1, es.rest, depth, maxDepth);
    }
  }

  lemma {:induction false} MembersParse(src: bytes, pos: nat, ms: Members, depth: nat, maxDepth: int)
    requires At(src, pos, MembersText(ms)) && ValidMembers(ms)
    ensures MembersRead(src, pos, ms, depth, maxDepth)
    decreases ms, 0
  {
    hide ParseValue, ParseMembers, TreeText, TreeMeaning, TreeDepth, ValidTree, PiecesText, PiecesMeaning, At;
    KeyParses(src, pos, ms.pre, ms.key, ms.gap, MemberValueText(ms));
    var value := pos + |ms.pre| + |StringText(ms.key)| + |ms.gap| + 1;
    TreeHead(ms.t);
    AroundText(src, value, ms.mid, TreeText(ms.t), ms.post, MembersNext(ms));
    TreeParses(src, value + |ms.mid|, ms.t, depth, maxDepth);
    MembersRound(src, pos, ms.pre, ms.key, ms.gap, ms.mid, TreeText(ms.t), ms.post, MembersNext(ms), depth, maxDepth);
    if ms.MoreMembers? {
      var comma := value + |ms.mid| + |TreeText(ms.t)| + |ms.post|;
      AtSplit(src, comma, [COMMA], MembersText(ms.more));
      MembersParse(src, comma + 1, ms.more, depth, maxDepth);
    }
  }

  /** From the end of the byte order mark on. */
  lemma BodyParses(src: bytes, pos: nat, d: Document, maxDepth: int)
    requires d.Valid() && At(src, pos, d.pre + (TreeText(d.t) + d.post))
    requires |src| == pos + |d.pre| + |TreeText(d.t)| + |d.post|
    ensures var r := ParseValue(src, pos, 0, maxDepth);
            if Fits(TreeDepth(d.t), 0, maxDepth) then
              r == Good(TreeMeaning(d.t), |src| - |d.post|) && SkipWs(src, r.pos) == |src|
            else TooDeep(r)
  {
    hide TreeText, TreeMeaning, ValidTree, ParseValue, At;
    var start := pos + |d.pre|;
    var end := start + |TreeText(d.t)|;
    AtSplit(src, pos, d.pre, TreeText(d.t) + d.post);
    AtSplit(src, start, TreeText(d.t), d.post);
    TreeHead(d.t);
    AtHead(src, start, TreeText(d.t));
    if d.post != [] {
      AtHead(src, end, d.post);
    }
    SkipWsOver(src, pos, d.pre);
    SkipWsOver(src, end, d.post);
    TreeParses(src, start, d.t, 0, maxDepth);
    ValueAfterWs(src, pos, 0, maxDepth);
  }

  /** The parser finds a byte order mark exactly where the document has one. */
  lemma MarkIsFound(d: Document)
    requires d.Valid()
    ensures At(d.Text(), 0, BOM) <==> d.bom
    ensures At(d.Text(), if d.bom then 3 else 0, d.pre + (TreeText(d.t) + d.post))
  {
    hide TreeText, ValidTree;
    var mark: bytes, body := if d.bom then BOM else [], d.pre + (TreeText(d.t) + d.post);
    assert At(d.Text(), 0, mark + body);
    AtSplit(d.Text(), 0, mark, body);
    if At(d.Text(), 0, BOM) {
      AtHead(d.Text(), 0, BOM);
      BodyHead(d.pre, d.t, d.post);
      AtHead(d.Text(), |mark|, body);
    }
  }

  /** Completeness for whole documents, depth limit included. */
  lemma DocumentParses(d: Document, maxDepth: int)
    requires d.Valid()
    ensures var r := ParseText(d.Text(), maxDepth);
            if Fits(TreeDepth(d.t), 0, maxDepth) then r == Good(TreeMeaning(d.t), |d.Text()|)
            else TooDeep(r)
  {
    hide ParseValue, TreeText, TreeMeaning, TreeDepth, ValidTree, At;
    MarkIsFound(d);
    BodyParses(d.Text(), if d.bom then 3 else 0, d, maxDepth);
  }

  /** No document starts with the first byte of a byte order mark. */
  lemma BodyHead(pre: bytes, t: Tree, post: bytes)
    requires AllWs(pre) && ValidTree(t)
    ensures var body := pre + (TreeText(t) + post); body != [] && body[0] != 239
  {
    TreeHead(t);
    if pre == [] && t.NumberLeaf? {
      assert IsDigit(t.num.whole[0]);
    }
  }

  /** The grammar is unambiguous: one text has one value. */
  lemma MeaningIsUnique(a: Document, b: Document)
    requires a.Valid() && b.Valid() && a.Text() == b.Text()
    ensures TreeMeaning(a.t) == TreeMeaning(b.t)
  {
    var limit := TreeDepth(a.t) + TreeDepth(b.t);
    DocumentParses(a, limit);
    DocumentParses(b, limit);
  }
}
