/**
 The emitter of stdlib/json.kod. Every value is given the syntax tree that its compact or
 indented text is the text of; the methods are proved to append exactly that text.
 */
module JsonEmit {
  import opened Kod
  import opened ByteText
  import opened DecimalText
  import opened JsonGrammar
  import opened JsonParse
  import JsonComplete
  import JsonSound

  /** Every key that is written has a value; further values are never looked at. */
  predicate Paired(v: Value)
  {
    match v
    case Array(items) => forall i :: 0 <= i < |items| ==> Paired(items[i])
    case Object(keys, values) => |keys| <= |values| && forall i :: 0 <= i < |keys| ==> Paired(values[i])
    case _ => true
  }

  // ----- Strings -----

  /** How `write_string` writes one byte. */
  function PieceOf(c: byte): Piece
  {
    if c == 34 || c == 92 then Escape(c)
    else if c == 10 then Escape(110)
    else if c == 13 then Escape(114)
    else if c == 9 then Escape(116)
    else if c == 8 then Escape(98)
    else if c == 12 then Escape(102)
    else if c < 32 then Unit(Hex4(48, 48, HexDigit(c / 16), HexDigit(c % 16)))
    else Plain(c)
  }

  function PiecesOf(s: bytes): (ps: seq<Piece>)
    ensures |ps| == |s|
  {
    seq(|s|, i requires 0 <= i < |s| => PieceOf(s[i]))
  }

  lemma PieceOfMeans(c: byte)
    ensures PieceOf(c).Valid() && PieceOf(c).Meaning() == [c]
  {
    if c < 32 {
      assert HexValue(HexDigit(c / 16)) == c / 16 && HexValue(HexDigit(c % 16)) == c % 16;
    }
  }

  lemma {:induction false} PiecesOfMean(s: bytes)
    ensures ValidPieces(PiecesOf(s)) && PiecesMeaning(PiecesOf(s)) == s
  {
    if s != [] {
      PieceOfMeans(s[0]);
      PiecesOfMean(s[1..]);
      assert PiecesOf(s)[1..] == PiecesOf(s[1..]);
      assert PiecesOf(s) == [PieceOf(s[0])] + PiecesOf(s[1..]);
    }
  }

  /** The text between the quotes. */
  function Escaped(s: bytes): bytes
  {
    PiecesText(PiecesOf(s))
  }

  lemma {:induction false} PiecesTextJoin(a: seq<Piece>, b: seq<Piece>)
    ensures PiecesText(a + b) == PiecesText(a) + PiecesText(b)
  {
    hide Piece.Text;
    if a == [] {
      assert a + b == b;
    } else {
      PiecesTextJoin(a[1..], b);
      assert (a + b)[1..] == a[1..] + b;
    }
  }

  lemma EscapedStep(s: bytes, i: nat)
    requires i < |s|
    ensures Escaped(s[..i + 1]) == Escaped(s[..i]) + PieceOf(s[i]).Text()
  {
    var last := [PieceOf(s[i])];
    assert PiecesOf(s[..i + 1]) == PiecesOf(s[..i]) + last;
    PiecesTextJoin(PiecesOf(s[..i]), last);
    assert PiecesText(last) == PieceOf(s[i]).Text() by { assert last[1..] == []; }
  }

  /** The escape of a quote, a backslash or a control character. */
  method WriteEscape(out: bytes, c: byte) returns (r: bytes)
    requires c == 34 || c == 92 || c < 32
    ensures r == out + PieceOf(c).Text()
  {
    if c == 34 {
      r := out + [92, 34];
    } else if c == 92 {
      r := out + [92, 92];
    } else if c == 10 {
      r := out + [92, 110];
    } else if c == 13 {
      r := out + [92, 114];
    } else if c == 9 {
      r := out + [92, 116];
    } else if c == 8 {
      r := out + [92, 98];
    } else if c == 12 {
      r := out + [92, 102];
    } else {
      r := out + [92, 117, 48, 48];
      r := r + [HexDigit(c / 16)];
      r := r + [HexDigit(c % 16)];
    }
  }

  method WriteString(out: bytes, s: bytes) returns (r: bytes)
    ensures r == out + StringText(PiecesOf(s))
  {
    hide PiecesOf, PiecesText;
    r := out + [34];
    var n := |s|;
    var i, run := 0, 0;
    EscapedNothing(s);
    while i < n
      invariant 0 <= run <= i <= n
      invariant r + s[run..i] == out + [34] + Escaped(s[..i])
    {
      var c := s[i];
      EscapedStep(s, i);
      ghost var before := r + s[run..i];
      if c == 34 || c == 92 || c < 32 {
        r := r + s[run..i];
        run := i + 1;
        r := WriteEscape(r, c);
      } else {
        assert s[run..i + 1] == s[run..i] + [c];
      }
      i := i + 1;
      assert r + s[run..i] == before + PieceOf(c).Text();
    }
    r := r + s[run..n];
    assert s[..n] == s;
    r := r + [34];
  }

  lemma EscapedNothing(s: bytes)
    ensures Escaped(s[..0]) == []
  {
  }

  // ----- Numbers -----

  /** `text` is a number of section 6 of RFC 8259. */
  ghost predicate IsNumber(text: bytes)
  {
    exists num: NumberTree :: num.Valid() && num.Text() == text
  }

  ghost function NumberOf(text: bytes): (num: NumberTree)
    requires IsNumber(text)
    ensures num.Valid() && num.Text() == text
  {
    var num: NumberTree :| num.Valid() && num.Text() == text;
    num
  }

  /** `is_number_text`: the scan of `parse_number`, over the whole of a text. */
  method IsNumberText(text: bytes) returns (r: bool)
    ensures r <==> IsNumber(text)
  {
    hide IsNumber, ParseFraction, ParseExponent, SkipDigits;
    NumberScan(text);
    var n := |text|;
    var i := 0;
    if i < n && text[i] == 45 {
      i := i + 1;
    }
    if i >= n {
      return false;
    }
    if text[i] == 48 {
      i := i + 1;
    } else if text[i] >= 49 && text[i] <= 57 {
      i := DigitsEnd(text, i);
    } else {
      return false;
    }
    var ok: bool;
    ok, i := FractionEnd(text, i);
    if !ok {
      return false;
    }
    ok, i := ExponentEnd(text, i);
    if !ok {
      return false;
    }
    return i == n;
  }

  /** The two optional parts: false when a part has no digit. */
  method FractionEnd(text: bytes, start: nat) returns (ok: bool, i: nat)
    requires start <= |text|
    ensures ok == ParseFraction(text, start).Good?
    ensures i <= |text| && (ok ==> i == ParseFraction(text, start).pos)
  {
    i := start;
    if i < |text| && text[i] == 46 {
      i := i + 1;
      var frac := i;
      i := DigitsEnd(text, i);
      if i == frac {
        return false, i;
      }
    }
    return true, i;
  }

  method ExponentEnd(text: bytes, start: nat) returns (ok: bool, i: nat)
    requires start <= |text|
    ensures ok == ParseExponent(text, start).Good?
    ensures i <= |text| && (ok ==> i == ParseExponent(text, start).pos)
  {
    i := start;
    if i < |text| && (text[i] == 101 || text[i] == 69) {
      i := i + 1;
      if i < |text| && (text[i] == 43 || text[i] == 45) {
        i := i + 1;
      }
      var digits := i;
      i := DigitsEnd(text, i);
      if i == digits {
        return false, i;
      }
    }
    return true, i;
  }

  /** `for i < n and is_digit(text[i])`. */
  method DigitsEnd(text: bytes, start: nat) returns (i: nat)
    requires start <= |text|
    ensures i == SkipDigits(text, start)
  {
    i := start;
    while i < |text| && IsDigit(text[i])
      invariant start <= i <= |text|
      invariant SkipDigits(text, i) == SkipDigits(text, start)
    {
      i := i + 1;
    }
  }

  lemma NumberScan(text: bytes)
    ensures IsNumber(text) <==> ScanNumber(text, 0).Good? && ScanNumber(text, 0).pos == |text|
  {
    hide ScanNumber, NumberTree.Text;
    if IsNumber(text) {
      var num := NumberOf(text);
      JsonComplete.NumberScans(text, 0, num);
    }
    if ScanNumber(text, 0).Good? && ScanNumber(text, 0).pos == |text| {
      var num := JsonSound.NumberSound(text, 0);
      AtAll(text, num.Text());
    }
  }

  function IntTree(n: int64): (num: NumberTree)
  {
    var m: int := n;
    NumberTree(m < 0, NatText(if m < 0 then -m else m), None, None)
  }

  lemma IntTreeMeans(n: int64)
    ensures IntTree(n).Valid() && IntTree(n).Text() == IntText(n) && IntTree(n).Meaning() == Number(n)
  {
    var m: int := n;
    var size: nat := if m < 0 then -m else m;
    NatTextValue(size);
    NatTextLead(size);
    if size == 0 {
      assert NatText(0) == [48];
    }
  }

  // ----- Values -----

  function Spaces(n: nat): bytes
  {
    if n == 0 then [] else Spaces(n - 1) + [32]
  }

  /** `write_break`: a line feed and the indentation, or nothing when `indent` is negative. */
  function Break(indent: int, level: nat): bytes
  {
    if indent < 0 then [] else [10] + Spaces(indent * level)
  }

  lemma BreakIsWs(indent: int, level: nat)
    ensures AllWs(Break(indent, level))
  {
    if indent >= 0 {
      SpacesAreWs(indent * level);
    }
  }

  lemma {:induction false} SpacesAreWs(n: nat)
    ensures AllWs(Spaces(n))
  {
    if n > 0 {
      SpacesAreWs(n - 1);
    }
  }

  method WriteBreak(out: bytes, indent: int, level: nat) returns (r: bytes)
    ensures r == out + Break(indent, level)
  {
    if indent < 0 {
      return out;
    }
    r := out + [10];
    assert indent * level >= 0;
    for i := 0 to indent * level
      invariant r == out + ([10] + Spaces(i))
    {
      r := r + [32];
    }
  }

  /** The syntax tree whose text `write_value` writes. A `Decimal` that is no number is written as `null`. */
  ghost function TreeOf(v: Value, indent: int, level: nat): Tree
    requires Paired(v)
    decreases v, 1
  {
    match v
    case Null => NullTree
    case Bool(b) => if b then TrueTree else FalseTree
    case Number(n) => NumberLeaf(IntTree(n))
    case Decimal(text) => if IsNumber(text) then NumberLeaf(NumberOf(text)) else NullTree
    case Str(s) => StringLeaf(PiecesOf(s))
    case Array(items) => if items == [] then EmptyArray([]) else ArrayTree(ElemsOf(items, indent, level))
    case Object(keys, values) =>
      if keys == [] then EmptyObject([]) else ObjectTree(MembersOf(keys, values, indent, level))
  }

  ghost function ElemsOf(items: seq<Value>, indent: int, level: nat): Elems
    requires items != [] && forall i :: 0 <= i < |items| ==> Paired(items[i])
    decreases items, 0
  {
    var t := TreeOf(items[0], indent, level + 1);
    if |items| == 1 then LastElem(Break(indent, level + 1), t, Break(indent, level))
    else MoreElems(Break(indent, level + 1), t, [], ElemsOf(items[1..], indent, level))
  }

  function KeyGap(indent: int): bytes
  {
    if indent >= 0 then [32] else []
  }

  ghost function MembersOf(keys: seq<bytes>, values: seq<Value>, indent: int, level: nat): Members
    requires keys != [] && |keys| <= |values| && forall i :: 0 <= i < |keys| ==> Paired(values[i])
    decreases values, 0
  {
    var key, t := PiecesOf(keys[0]), TreeOf(values[0], indent, level + 1);
    if |keys| == 1 then LastMember(Break(indent, level + 1), key, [], KeyGap(indent), t, Break(indent, level))
    else MoreMembers(Break(indent, level + 1), key, [], KeyGap(indent), t, [], MembersOf(keys[1..], values[1..], indent, level))
  }

  ghost function EmitText(v: Value, indent: int): bytes
    requires Paired(v)
  {
    TreeText(TreeOf(v, indent, 0))
  }

  /** What is left to write of an array when `i` elements are written. */
  ghost function ElemsLeft(items: seq<Value>, i: nat, indent: int, level: nat): bytes
    requires i <= |items| && forall j :: 0 <= j < |items| ==> Paired(items[j])
  {
    if i == |items| then Break(indent, level) + [RBRACKET]
    else (if i > 0 then [COMMA] else []) + ElemsText(ElemsOf(items[i..], indent, level))
  }

  lemma ElemsLeftStep(items: seq<Value>, i: nat, indent: int, level: nat)
    requires i < |items| && forall j :: 0 <= j < |items| ==> Paired(items[j])
    ensures ElemsLeft(items, i, indent, level) ==
            (if i > 0 then [COMMA] else []) + Break(indent, level + 1)
            + TreeText(TreeOf(items[i], indent, level + 1)) + ElemsLeft(items, i + 1, indent, level)
  {
    hide TreeText, TreeOf, Break;
    assert items[i..][1..] == items[i + 1..];
    var es := ElemsOf(items[i..], indent, level);
    assert es.t == TreeOf(items[i], indent, level + 1);
    assert es.pre == Break(indent, level + 1);
    assert es.post + ElemsNext(es) == ElemsLeft(items, i + 1, indent, level);
    FlattenElem(if i > 0 then [COMMA] else [], es.pre, TreeText(es.t), es.post, ElemsNext(es));
  }

  ghost function MembersLeft(keys: seq<bytes>, values: seq<Value>, i: nat, indent: int, level: nat): bytes
    requires i <= |keys| <= |values| && forall j :: 0 <= j < |keys| ==> Paired(values[j])
  {
    if i == |keys| then Break(indent, level) + [RBRACE]
    else (if i > 0 then [COMMA] else []) + MembersText(MembersOf(keys[i..], values[i..], indent, level))
  }

  lemma MembersLeftStep(keys: seq<bytes>, values: seq<Value>, i: nat, indent: int, level: nat)
    requires i < |keys| <= |values| && forall j :: 0 <= j < |keys| ==> Paired(values[j])
    ensures MembersLeft(keys, values, i, indent, level) ==
            (if i > 0 then [COMMA] else []) + Break(indent, level + 1) + StringText(PiecesOf(keys[i])) + [COLON] + KeyGap(indent)
            + TreeText(TreeOf(values[i], indent, level + 1)) + MembersLeft(keys, values, i + 1, indent, level)
  {
    hide TreeText, TreeOf, Break, StringText, PiecesOf, KeyGap;
    assert keys[i..][1..] == keys[i + 1..] && values[i..][1..] == values[i + 1..];
    var ms := MembersOf(keys[i..], values[i..], indent, level);
    assert ms.t == TreeOf(values[i], indent, level + 1);
    assert ms.pre == Break(indent, level + 1) && ms.key == PiecesOf(keys[i]) && ms.gap == [] && ms.mid == KeyGap(indent);
    assert ms.post + MembersNext(ms) == MembersLeft(keys, values, i + 1, indent, level);
    assert MembersText(ms) == Spaced(ms.pre, StringText(ms.key), [], [COLON] + Spaced(ms.mid, TreeText(ms.t), ms.post, MembersNext(ms)));
    Flatten(if i > 0 then [COMMA] else [], ms.pre, StringText(ms.key), ms.mid, TreeText(ms.t), ms.post, MembersNext(ms));
  }

  lemma FlattenElem(sep: bytes, pre: bytes, text: bytes, post: bytes, next: bytes)
    ensures sep + Spaced(pre, text, post, next) == sep + pre + text + (post + next)
  {
  }

  lemma Flatten(sep: bytes, pre: bytes, key: bytes, mid: bytes, text: bytes, post: bytes, next: bytes)
    ensures sep + Spaced(pre, key, [], [COLON] + Spaced(mid, text, post, next)) ==
            sep + pre + key + [COLON] + mid + text + (post + next)
  {
  }

  lemma ArrayIsBracketed(items: seq<Value>, indent: int, level: nat)
    requires items != [] && Paired(Array(items))
    ensures TreeText(TreeOf(Array(items), indent, level)) == [LBRACKET] + ElemsLeft(items, 0, indent, level)
  {
    assert items[0..] == items;
  }

  lemma ObjectIsBracketed(keys: seq<bytes>, values: seq<Value>, indent: int, level: nat)
    requires keys != [] && Paired(Object(keys, values))
    ensures TreeText(TreeOf(Object(keys, values), indent, level)) == [LBRACE] + MembersLeft(keys, values, 0, indent, level)
  {
    assert keys[0..] == keys && values[0..] == values;
  }

  method WriteValue(out: bytes, v: Value, indent: int, level: nat) returns (r: bytes)
    requires Paired(v)
    ensures r == out + TreeText(TreeOf(v, indent, level))
    decreases v, 1
  {
    hide ElemsLeft, MembersLeft, ElemsOf, MembersOf, NumberTree.Text, StringText, IsNumber;
    match v
    case Null => r := out + NULL_TEXT;
    case Bool(b) =>
      if b {
        r := out + TRUE_TEXT;
      } else {
        r := out + FALSE_TEXT;
      }
    case Number(n) =>
      IntTreeMeans(n);
      var text := ToStr(n);
      r := out + text;
    case Decimal(text) =>
      var number := IsNumberText(text);
      if number {
        r := out + text;
      } else {
        r := out + NULL_TEXT;
      }
    case Str(s) => r := WriteString(out, s);
    case Array(items) =>
      if |items| == 0 {
        return out + [91, 93];
      }
      r := WriteElems(out + [91], items, indent, level);
      ArrayIsBracketed(items, indent, level);
    case Object(keys, values) =>
      if |keys| == 0 {
        return out + [123, 125];
      }
      r := WriteMembers(out + [123], keys, values, indent, level);
      ObjectIsBracketed(keys, values, indent, level);
  }

  /** The loop over the elements of a nonempty array, and its closing bracket. */
  method WriteElems(out: bytes, items: seq<Value>, indent: int, level: nat) returns (r: bytes)
    requires items != [] && forall i :: 0 <= i < |items| ==> Paired(items[i])
    ensures r == out + ElemsLeft(items, 0, indent, level)
    decreases items, 0
  {
    hide TreeText, TreeOf, ElemsLeft, Break;
    r := out;
    var i := 0;
    while i < |items|
      invariant 0 <= i <= |items|
      invariant r + ElemsLeft(items, i, indent, level) == out + ElemsLeft(items, 0, indent, level)
    {
      ElemsLeftStep(items, i, indent, level);
      if i > 0 {
        r := r + [44];
      }
      r := WriteBreak(r, indent, level + 1);
      r := WriteValue(r, items[i], indent, level + 1);
      i := i + 1;
    }
    ElemsLeftEnd(items, indent, level);
    r := WriteBreak(r, indent, level);
    r := r + [93];
  }

  lemma ElemsLeftEnd(items: seq<Value>, indent: int, level: nat)
    requires forall j :: 0 <= j < |items| ==> Paired(items[j])
    ensures ElemsLeft(items, |items|, indent, level) == Break(indent, level) + [RBRACKET]
  {
  }

  method WriteMembers(out: bytes, keys: seq<bytes>, values: seq<Value>, indent: int, level: nat) returns (r: bytes)
    requires keys != [] && |keys| <= |values| && forall i :: 0 <= i < |keys| ==> Paired(values[i])
    ensures r == out + MembersLeft(keys, values, 0, indent, level)
    decreases values, 0
  {
    hide TreeText, TreeOf, MembersLeft, Break, StringText, PiecesOf;
    r := out;
    var i := 0;
    while i < |keys|
      invariant 0 <= i <= |keys|
      invariant r + MembersLeft(keys, values, i, indent, level) == out + MembersLeft(keys, values, 0, indent, level)
    {
      MembersLeftStep(keys, values, i, indent, level);
      if i > 0 {
        r := r + [44];
      }
      r := WriteBreak(r, indent, level + 1);
      r := WriteString(r, keys[i]);
      r := r + [58];
      if indent >= 0 {
        r := r + [32];
      }
      r := WriteValue(r, values[i], indent, level + 1);
      i := i + 1;
    }
    MembersLeftEnd(keys, values, indent, level);
    r := WriteBreak(r, indent, level);
    r := r + [125];
  }

  lemma MembersLeftEnd(keys: seq<bytes>, values: seq<Value>, indent: int, level: nat)
    requires |keys| <= |values| && forall j :: 0 <= j < |keys| ==> Paired(values[j])
    ensures MembersLeft(keys, values, |keys|, indent, level) == Break(indent, level) + [RBRACE]
  {
  }

  /** `emit` when `indent` is negative, `emit_pretty` otherwise. */
  method Emit(v: Value, indent: int) returns (text: bytes)
    requires Paired(v)
    ensures text == EmitText(v, indent)
  {
    text := WriteValue([], v, indent, 0);
  }
}
