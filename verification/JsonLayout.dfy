/**
 How emitted JSON looks, told byte by byte: a reader that knows strings and brackets walks through
 the text and says where white space may stand. It knows nothing of the emitter.
 */
module JsonLayout {
  import opened Kod
  import opened DecimalText
  import opened JsonGrammar
  import opened JsonComplete
  import opened JsonEmit
  import Utf8

  /** Where in a text a walk is, with the number of brackets open there. */
  datatype Place =
    | Begin(open: nat)                  // a value or a key must start
    | Opened(open: nat)                 // right after an opening bracket
    | Parted(open: nat)                 // right after a comma
    | Keyed(open: nat)                  // right after a colon
    | ItemLine(open: nat, spaces: nat)  // in the indentation of a value or a key
    | CloseLine(open: nat, spaces: nat) // in the indentation of a closing bracket
    | Within(open: nat)                 // in or right after a number, a literal, a string or a closing bracket
    | Quoted(open: nat, escaped: bool)  // inside a string
    | Wrong

  predicate IsClosing(c: byte) { c == RBRACKET || c == RBRACE }

  /** A byte of a number or a literal. */
  predicate IsScalar(c: byte)
  {
    !IsWs(c) && c != QUOTE && !IsOpening(c) && !IsClosing(c) && c != COMMA && c != COLON
  }

  function Started(open: nat, c: byte): Place
  {
    if c == QUOTE then Quoted(open, false)
    else if IsOpening(c) then Opened(open + 1)
    else if IsScalar(c) then Within(open)
    else Wrong
  }

  /**
   One byte on. Compact text, with a negative indent, has no white space but in strings. Other text
   has a line feed after every opening bracket, unless it is closed at once, after every comma, and
   before every closing bracket of something that is not empty; after the line feed as many times
   the indent in spaces as there are brackets open there, the one being closed not counted; one
   space after a colon; and white space nowhere else but in strings.
   */
  function Step(indent: int, p: Place, c: byte): Place
  {
    match p
    case Begin(open) => Started(open, c)
    case Opened(open) =>
      if IsClosing(c) && open > 0 then Within(open - 1)
      else if indent < 0 then Started(open, c)
      else if c == 10 then ItemLine(open, 0)
      else Wrong
    case Parted(open) =>
      if indent < 0 then Started(open, c) else if c == 10 then ItemLine(open, 0) else Wrong
    case Keyed(open) =>
      if indent < 0 then Started(open, c) else if c == 32 then Begin(open) else Wrong
    case ItemLine(open, spaces) =>
      if spaces < indent * open then (if c == 32 then ItemLine(open, spaces + 1) else Wrong)
      else Started(open, c)
    case CloseLine(open, spaces) =>
      if open == 0 then Wrong
      else if spaces < indent * (open - 1) then (if c == 32 then CloseLine(open, spaces + 1) else Wrong)
      else if IsClosing(c) then Within(open - 1)
      else Wrong
    case Within(open) =>
      if IsScalar(c) then Within(open)
      else if open == 0 then Wrong
      else if c == COMMA then Parted(open)
      else if c == COLON then Keyed(open)
      else if indent < 0 then (if IsClosing(c) then Within(open - 1) else Wrong)
      else if c == 10 then CloseLine(open, 0)
      else Wrong
    case Quoted(open, escaped) =>
      if escaped then Quoted(open, false)
      else if c == BACKSLASH then Quoted(open, true)
      else if c == QUOTE then Within(open)
      else Quoted(open, false)
    case Wrong => Wrong
  }

  function Walk(indent: int, p: Place, text: bytes): Place
    decreases |text|
  {
    if text == [] then p else Walk(indent, Step(indent, p, text[0]), text[1..])
  }

  /** The text is laid out as one whole value. */
  predicate LaidOut(indent: int, text: bytes)
  {
    Walk(indent, Begin(0), text) == Within(0)
  }

  // ----- Walking -----

  lemma {:induction false} WalkOn(indent: int, p: Place, a: bytes, b: bytes)
    ensures Walk(indent, p, a + b) == Walk(indent, Walk(indent, p, a), b)
    decreases |a|
  {
    if a == [] {
      assert a + b == b;
    } else {
      assert (a + b)[1..] == a[1..] + b;
      WalkOn(indent, Step(indent, p, a[0]), a[1..], b);
    }
  }

  lemma WalkByte(indent: int, p: Place, c: byte)
    ensures Walk(indent, p, [c]) == Step(indent, p, c)
  {
    assert [c][1..] == [];
  }

  lemma {:induction false} WrongStays(indent: int, text: bytes)
    ensures Walk(indent, Wrong, text) == Wrong
  {
    if text != [] {
      WrongStays(indent, text[1..]);
    }
  }

  /** In compact text every byte of white space is inside a string. */
  lemma CompactHasNoSpace(indent: int, text: bytes, i: nat)
    requires indent < 0 && LaidOut(indent, text) && i < |text| && IsWs(text[i])
    ensures Walk(indent, Begin(0), text[..i]).Quoted?
  {
    assert text == text[..i] + ([text[i]] + text[i + 1..]);
    WalkOn(indent, Begin(0), text[..i], [text[i]] + text[i + 1..]);
    assert ([text[i]] + text[i + 1..])[1..] == text[i + 1..];
    WrongStays(indent, text[i + 1..]);
    LinesOnlyWithIndent(indent, text[..i]);
  }

  /** Compact text is in no line's indentation anywhere. */
  lemma {:induction false} LinesOnlyWithIndent(indent: int, text: bytes)
    requires indent < 0
    ensures var p := Walk(indent, Begin(0), text); !p.ItemLine? && !p.CloseLine?
  {
    if text != [] {
      var n := |text| - 1;
      LinesOnlyWithIndent(indent, text[..n]);
      assert text == text[..n] + [text[n]];
      WalkOn(indent, Begin(0), text[..n], [text[n]]);
      WalkByte(indent, Walk(indent, Begin(0), text[..n]), text[n]);
    }
  }

  // ----- Scalars and strings -----

  predicate AllScalar(text: bytes)
  {
    forall i :: 0 <= i < |text| ==> IsScalar(text[i])
  }

  lemma {:induction false} ScalarWalk(indent: int, open: nat, text: bytes)
    requires AllScalar(text)
    ensures Walk(indent, Within(open), text) == Within(open)
  {
    if text != [] {
      ScalarWalk(indent, open, text[1..]);
    }
  }

  lemma ScalarStarts(indent: int, open: nat, text: bytes)
    requires AllScalar(text) && text != []
    ensures Walk(indent, Begin(open), text) == Within(open)
  {
    ScalarWalk(indent, open, text[1..]);
  }

  lemma NumberIsScalar(num: NumberTree)
    requires num.Valid()
    ensures AllScalar(num.Text()) && num.Text() != []
  {
    hide AllScalar;
    DigitsAreScalar(num.whole);
    MarksAreScalar();
    if num.frac.Some? {
      DigitsAreScalar(num.frac.value);
      ScalarJoin([DOT], num.frac.value);
    }
    if num.exp.Some? {
      var e := num.exp.value;
      var sign: bytes := if e.sign.Some? then [e.sign.value] else [];
      DigitsAreScalar(e.digits);
      ScalarJoin(sign, e.digits);
      ScalarJoin([e.mark], sign + e.digits);
    }
    ScalarJoin(num.FracText(), num.ExpText());
    ScalarJoin(num.whole, num.FracText() + num.ExpText());
    ScalarJoin(num.SignText(), num.whole + (num.FracText() + num.ExpText()));
  }

  lemma MarksAreScalar()
    ensures AllScalar([]) && AllScalar([DOT]) && AllScalar([MINUS]) && AllScalar([PLUS]) && AllScalar([101]) && AllScalar([69])
  {
  }

  lemma ScalarJoin(a: bytes, b: bytes)
    requires AllScalar(a) && AllScalar(b)
    ensures AllScalar(a + b)
  {
  }

  lemma DigitsAreScalar(s: bytes)
    requires AllDigits(s)
    ensures AllScalar(s)
  {
  }

  lemma PieceWalk(indent: int, open: nat, p: Piece)
    requires p.Valid()
    ensures Walk(indent, Quoted(open, false), p.Text()) == Quoted(open, false)
  {
    match p
    case Plain(b) => WalkByte(indent, Quoted(open, false), b);
    case Escape(e) => EscapeWalk(indent, open, e);
    case Unit(h) => UnitWalk(indent, open, h);
    case Pair(h, l) =>
      UnitWalk(indent, open, h);
      UnitWalk(indent, open, l);
      assert p.Text() == ([BACKSLASH, LETTER_U] + h.Text()) + ([BACKSLASH, LETTER_U] + l.Text());
      WalkOn(indent, Quoted(open, false), [BACKSLASH, LETTER_U] + h.Text(), [BACKSLASH, LETTER_U] + l.Text());
  }

  lemma EscapeWalk(indent: int, open: nat, e: byte)
    ensures Walk(indent, Quoted(open, false), [BACKSLASH, e]) == Quoted(open, false)
  {
    assert [BACKSLASH, e] == [BACKSLASH] + [e];
    WalkOn(indent, Quoted(open, false), [BACKSLASH], [e]);
    WalkByte(indent, Quoted(open, false), BACKSLASH);
    WalkByte(indent, Quoted(open, true), e);
  }

  lemma UnitWalk(indent: int, open: nat, h: Hex4)
    requires h.Valid()
    ensures Walk(indent, Quoted(open, false), [BACKSLASH, LETTER_U] + h.Text()) == Quoted(open, false)
  {
    EscapeWalk(indent, open, LETTER_U);
    WalkOn(indent, Quoted(open, false), [BACKSLASH, LETTER_U], h.Text());
    PlainWalk(indent, open, h.Text());
  }

  lemma {:induction false} PlainWalk(indent: int, open: nat, text: bytes)
    requires forall i :: 0 <= i < |text| ==> text[i] != QUOTE && text[i] != BACKSLASH
    ensures Walk(indent, Quoted(open, false), text) == Quoted(open, false)
  {
    if text != [] {
      PlainWalk(indent, open, text[1..]);
    }
  }

  lemma {:induction false} PiecesWalk(indent: int, open: nat, ps: seq<Piece>)
    requires ValidPieces(ps)
    ensures Walk(indent, Quoted(open, false), PiecesText(ps)) == Quoted(open, false)
  {
    hide Walk, Piece.Text;
    if ps == [] {
      NoWalk(indent, Quoted(open, false));
    } else {
      PieceWalk(indent, open, ps[0]);
      PiecesWalk(indent, open, ps[1..]);
      WalkOn(indent, Quoted(open, false), ps[0].Text(), PiecesText(ps[1..]));
    }
  }

  lemma NoWalk(indent: int, p: Place)
    ensures Walk(indent, p, []) == p
  {
  }

  lemma StringWalk(indent: int, open: nat, ps: seq<Piece>)
    requires ValidPieces(ps)
    ensures Walk(indent, Begin(open), StringText(ps)) == Within(open)
  {
    hide Walk, PiecesText;
    PiecesWalk(indent, open, ps);
    WalkOn(indent, Begin(open), [QUOTE], PiecesText(ps) + [QUOTE]);
    WalkOn(indent, Quoted(open, false), PiecesText(ps), [QUOTE]);
    WalkByte(indent, Begin(open), QUOTE);
    WalkByte(indent, Quoted(open, false), QUOTE);
  }

  // ----- Lines -----

  lemma {:induction false} SpacesFront(n: nat)
    requires n > 0
    ensures Spaces(n)[0] == 32 && Spaces(n)[1..] == Spaces(n - 1)
  {
    if n > 1 {
      SpacesFront(n - 1);
      assert Spaces(n)[1..] == Spaces(n - 1)[1..] + [32];
    }
  }

  lemma {:induction false} IndentWalk(indent: int, open: nat, spaces: nat, n: nat)
    requires indent >= 0 && spaces + n == indent * open
    ensures Walk(indent, ItemLine(open, spaces), Spaces(n)) == ItemLine(open, indent * open)
    decreases n
  {
    if n > 0 {
      IndentWalk(indent, open, spaces + 1, n - 1);
      SpacesFront(n);
    }
  }

  lemma {:induction false} CloseIndentWalk(indent: int, open: nat, spaces: nat, n: nat)
    requires indent >= 0 && open > 0 && spaces + n == indent * (open - 1)
    ensures Walk(indent, CloseLine(open, spaces), Spaces(n)) == CloseLine(open, indent * (open - 1))
    decreases n
  {
    if n > 0 {
      CloseIndentWalk(indent, open, spaces + 1, n - 1);
      SpacesFront(n);
    }
  }

  /** The break before a value or a key, and the value or key. */
  lemma ItemWalk(indent: int, p: Place, open: nat, text: bytes)
    requires (p == Opened(open) || p == Parted(open)) && open > 0 && StartsValue(text)
    ensures Walk(indent, p, Break(indent, open) + text) == Walk(indent, Begin(open), text)
  {
    if indent < 0 {
      assert Break(indent, open) + text == text;
    } else {
      var spaces := Spaces(indent * open);
      assert Break(indent, open) + text == [10] + (spaces + text);
      WalkOn(indent, p, [10], spaces + text);
      WalkByte(indent, p, 10);
      WalkOn(indent, ItemLine(open, 0), spaces, text);
      IndentWalk(indent, open, 0, indent * open);
    }
  }

  /** The break before a closing bracket, and the bracket. */
  lemma CloseWalk(indent: int, open: nat, c: byte)
    requires open > 0 && IsClosing(c)
    ensures Walk(indent, Within(open), Break(indent, open - 1) + [c]) == Within(open - 1)
  {
    if indent < 0 {
      assert Break(indent, open - 1) + [c] == [c];
      WalkByte(indent, Within(open), c);
    } else {
      var spaces := Spaces(indent * (open - 1));
      assert Break(indent, open - 1) + [c] == [10] + (spaces + [c]);
      WalkOn(indent, Within(open), [10], spaces + [c]);
      WalkByte(indent, Within(open), 10);
      WalkOn(indent, CloseLine(open, 0), spaces, [c]);
      CloseIndentWalk(indent, open, 0, indent * (open - 1));
      WalkByte(indent, CloseLine(open, indent * (open - 1)), c);
    }
  }

  lemma ColonWalk(indent: int, open: nat, text: bytes)
    requires open > 0 && StartsValue(text)
    ensures Walk(indent, Within(open), [COLON] + (KeyGap(indent) + text)) == Walk(indent, Begin(open), text)
  {
    WalkOn(indent, Within(open), [COLON], KeyGap(indent) + text);
    WalkByte(indent, Within(open), COLON);
    if indent < 0 {
      assert KeyGap(indent) + text == text;
    } else {
      WalkOn(indent, Keyed(open), [32], text);
      WalkByte(indent, Keyed(open), 32);
    }
  }

  lemma EmptyWalk(indent: int, open: nat, a: byte, c: byte)
    requires IsOpening(a) && IsClosing(c)
    ensures Walk(indent, Begin(open), [a] + ([] + [c])) == Within(open)
  {
    assert [a] + ([] + [c]) == [a] + [c];
    WalkOn(indent, Begin(open), [a], [c]);
    WalkByte(indent, Begin(open), a);
    WalkByte(indent, Opened(open + 1), c);
  }

  // ----- Values -----

  lemma ScalarLaid(v: Value, indent: int, level: nat)
    requires !v.Array? && !v.Object?
    ensures Walk(indent, Begin(level), TreeText(TreeOf(v, indent, level))) == Within(level)
  {
    hide Walk, StringText, NumberTree.Text;
    match v {
      case Number(n) =>
        IntTreeMeans(n);
        NumberIsScalar(IntTree(n));
        ScalarStarts(indent, level, IntTree(n).Text());
      case Decimal(text) =>
        if IsNumber(text) {
          NumberIsScalar(NumberOf(text));
          ScalarStarts(indent, level, NumberOf(text).Text());
        } else {
          ScalarStarts(indent, level, NULL_TEXT);
        }
      case Str(s) =>
        PiecesOfMean(s);
        StringWalk(indent, level, PiecesOf(s));
      case Bool(b) => ScalarStarts(indent, level, if b then TRUE_TEXT else FALSE_TEXT);
      case _ => ScalarStarts(indent, level, NULL_TEXT);
    }
  }

  lemma {:induction false} TreeLaid(v: Value, indent: int, level: nat)
    requires Paired(v)
    ensures Walk(indent, Begin(level), TreeText(TreeOf(v, indent, level))) == Within(level)
    decreases v, 1
  {
    hide Walk, ElemsText, MembersText, ElemsOf, MembersOf;
    match v {
      case Array(items) =>
        if items == [] {
          EmptyWalk(indent, level, LBRACKET, RBRACKET);
        } else {
          ElemsLaid(items, indent, level, Opened(level + 1));
          BracketWalk(indent, level, LBRACKET, ElemsText(ElemsOf(items, indent, level)));
        }
      case Object(keys, values) =>
        if keys == [] {
          EmptyWalk(indent, level, LBRACE, RBRACE);
        } else {
          MembersLaid(keys, values, indent, level, Opened(level + 1));
          BracketWalk(indent, level, LBRACE, MembersText(MembersOf(keys, values, indent, level)));
        }
      case _ => ScalarLaid(v, indent, level);
    }
  }

  lemma BracketWalk(indent: int, open: nat, a: byte, text: bytes)
    requires IsOpening(a)
    ensures Walk(indent, Begin(open), [a] + text) == Walk(indent, Opened(open + 1), text)
  {
    WalkOn(indent, Begin(open), [a], text);
    WalkByte(indent, Begin(open), a);
  }

  lemma CommaWalk(indent: int, open: nat, text: bytes)
    requires open > 0
    ensures Walk(indent, Within(open), [] + ([COMMA] + text)) == Walk(indent, Parted(open), text)
  {
    assert [] + ([COMMA] + text) == [COMMA] + text;
    WalkOn(indent, Within(open), [COMMA], text);
    WalkByte(indent, Within(open), COMMA);
  }

  /** A value in its place and what follows it. */
  lemma SpacedWalk(indent: int, p: Place, open: nat, text: bytes, post: bytes, next: bytes)
    requires (p == Opened(open) || p == Parted(open)) && open > 0 && StartsValue(text)
    requires Walk(indent, Begin(open), text) == Within(open)
    ensures Walk(indent, p, Spaced(Break(indent, open), text, post, next)) == Walk(indent, Within(open), post + next)
  {
    hide Walk, Break;
    assert Spaced(Break(indent, open), text, post, next) == (Break(indent, open) + text) + (post + next);
    WalkOn(indent, p, Break(indent, open) + text, post + next);
    ItemWalk(indent, p, open, text);
  }

  lemma {:induction false} ElemsLaid(items: seq<Value>, indent: int, level: nat, p: Place)
    requires items != [] && forall i :: 0 <= i < |items| ==> Paired(items[i])
    requires p == Opened(level + 1) || p == Parted(level + 1)
    ensures Walk(indent, p, ElemsText(ElemsOf(items, indent, level))) == Within(level)
    decreases items, 0
  {
    hide Walk, TreeText, TreeOf, Break, Spaced;
    var open := level + 1;
    var es := ElemsOf(items, indent, level);
    TreeLaid(items[0], indent, open);
    TreeStarts(items[0], indent, open);
    SpacedWalk(indent, p, open, TreeText(es.t), es.post, ElemsNext(es));
    if |items| > 1 {
      ElemsLaid(items[1..], indent, level, Parted(open));
      CommaWalk(indent, open, ElemsText(es.rest));
    } else {
      CloseWalk(indent, open, RBRACKET);
    }
  }

  lemma TreeStarts(v: Value, indent: int, level: nat)
    requires Paired(v)
    ensures StartsValue(TreeText(TreeOf(v, indent, level)))
  {
    hide NumberTree.Text, PiecesOf, ElemsOf, MembersOf;
    match v {
      case Number(n) =>
        IntTreeMeans(n);
        TreeHead(NumberLeaf(IntTree(n)));
      case Decimal(text) =>
        if IsNumber(text) {
          TreeHead(NumberLeaf(NumberOf(text)));
        }
      case _ =>
    }
  }

  lemma {:induction false} MembersLaid(keys: seq<bytes>, values: seq<Value>, indent: int, level: nat, p: Place)
    requires keys != [] && |keys| <= |values| && forall i :: 0 <= i < |keys| ==> Paired(values[i])
    requires p == Opened(level + 1) || p == Parted(level + 1)
    ensures Walk(indent, p, MembersText(MembersOf(keys, values, indent, level))) == Within(level)
    decreases values, 0
  {
    hide Walk, TreeText, TreeOf, Break, PiecesOf, StringText, KeyGap;
    var open := level + 1;
    var ms := MembersOf(keys, values, indent, level);
    PiecesOfMean(keys[0]);
    StringWalk(indent, open, ms.key);
    StringStarts(ms.key);
    TreeLaid(values[0], indent, open);
    TreeStarts(values[0], indent, open);
    var value := TreeText(ms.t) + (ms.post + MembersNext(ms));
    SpacedWalk(indent, p, open, StringText(ms.key), [], [COLON] + MemberValueText(ms));
    assert [] + ([COLON] + MemberValueText(ms)) == [COLON] + (KeyGap(indent) + value);
    ColonWalk(indent, open, value);
    WalkOn(indent, Begin(open), TreeText(ms.t), ms.post + MembersNext(ms));
    if |keys| > 1 {
      MembersLaid(keys[1..], values[1..], indent, level, Parted(open));
      CommaWalk(indent, open, MembersText(ms.more));
    } else {
      CloseWalk(indent, open, RBRACE);
    }
  }

  lemma StringStarts(ps: seq<Piece>)
    ensures StartsValue(StringText(ps))
  {
  }

  /** Whatever is emitted, compact or with any indent, is laid out so. */
  lemma EmittedIsLaidOut(v: Value, indent: int)
    requires Paired(v)
    ensures LaidOut(indent, EmitText(v, indent))
  {
    TreeLaid(v, indent, 0);
  }

  // ----- Strings are as short as can be -----

  lemma EscapedByte(b: byte)
    ensures Escaped([b]) == PieceOf(b).Text() && |Escaped([b])| <= 6
    ensures IsPlain(b) ==> |Escaped([b])| == 1
    ensures b == 34 || b == 92 || b == 10 || b == 13 || b == 9 || b == 8 || b == 12 ==> |Escaped([b])| == 2
  {
    var ps := PiecesOf([b]);
    assert ps == [PieceOf(b)] && ps[1..] == [];
    assert PiecesText(ps) == PieceOf(b).Text() + [];
  }

  lemma EscapedJoin(a: bytes, b: bytes)
    ensures Escaped(a + b) == Escaped(a) + Escaped(b)
  {
    assert PiecesOf(a + b) == PiecesOf(a) + PiecesOf(b);
    PiecesTextJoin(PiecesOf(a), PiecesOf(b));
  }

  lemma {:induction false} HighIsPlain(s: bytes)
    requires forall i :: 0 <= i < |s| ==> s[i] >= 128
    ensures |Escaped(s)| == |s|
  {
    if s != [] {
      assert s == s[..1] + s[1..] && s[..1] == [s[0]];
      EscapedJoin(s[..1], s[1..]);
      EscapedByte(s[0]);
      HighIsPlain(s[1..]);
    }
  }

  lemma EncodedCost(cp: nat)
    requires cp < 0x110000
    ensures cp < 0x10000 ==> |Escaped(Utf8.Encode(cp))| <= 6
    ensures |Escaped(Utf8.Encode(cp))| <= 12
  {
    if cp < 128 {
      EscapedByte(cp);
    } else {
      HighIsPlain(Utf8.Encode(cp));
    }
  }

  lemma PieceCost(p: Piece)
    requires p.Valid()
    ensures |Escaped(p.Meaning())| <= |p.Text()|
  {
    hide Escaped, Utf8.Encode;
    match p
    case Plain(b) => EscapedByte(b);
    case Escape(e) => EscapedByte(EscapeMeaning(e));
    case Unit(h) => EncodedCost(h.Unit());
    case Pair(h, l) => EncodedCost(Utf8.Join(h.Unit(), l.Unit()));
  }

  /** Of all JSON strings that mean the same bytes, none is shorter than the one written. */
  lemma {:induction false} StringIsShortest(ps: seq<Piece>)
    requires ValidPieces(ps)
    ensures |StringText(PiecesOf(PiecesMeaning(ps)))| <= |StringText(ps)|
  {
    hide Piece.Text, Piece.Meaning;
    if ps != [] {
      StringIsShortest(ps[1..]);
      PieceCost(ps[0]);
      EscapedJoin(ps[0].Meaning(), PiecesMeaning(ps[1..]));
    }
  }
}
