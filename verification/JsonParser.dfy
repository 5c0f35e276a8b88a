/** The `JsonParser` object of stdlib/json.kod: `pos` and `depth` change in place as it reads. */
module JsonParser {
  import opened Kod
  import opened ByteText
  import opened DecimalText
  import opened JsonGrammar
  import opened JsonParse
  import Utf8

  // ----- Errors -----

  datatype JsonError = JsonError(message: string, offset: nat, line: nat, column: int)

  /** How many line feeds stand before `offset`. */
  function LineFeeds(src: bytes, offset: nat): nat
    requires offset <= |src|
  {
    if offset == 0 then 0 else LineFeeds(src, offset - 1) + if src[offset - 1] == 10 then 1 else 0
  }

  /** Where the line of `offset` starts: after the last line feed before it. */
  function LineStart(src: bytes, offset: nat): (s: nat)
    requires offset <= |src|
    ensures s <= offset
  {
    if offset == 0 then 0
    else if src[offset - 1] == 10 then offset
    else LineStart(src, offset - 1)
  }

  function ErrorAt(src: bytes, offset: nat, message: string): JsonError
    requires offset <= |src|
  {
    JsonError(message, offset, LineFeeds(src, offset) + 1, offset - LineStart(src, offset) + 1)
  }

  /** No line feed stands between a line's start and the offset, and one stands just before the start. */
  lemma {:induction false} LineStartSpec(src: bytes, offset: nat)
    requires offset <= |src|
    ensures var s := LineStart(src, offset);
            && (s > 0 ==> src[s - 1] == 10)
            && (forall i :: s <= i < offset ==> src[i] != 10)
            && LineFeeds(src, s) == LineFeeds(src, offset)
  {
    if offset > 0 && src[offset - 1] != 10 {
      LineStartSpec(src, offset - 1);
    }
  }

  lemma {:induction false} LineFeedsGrow(src: bytes, a: nat, b: nat)
    requires a <= b <= |src|
    ensures LineFeeds(src, a) <= LineFeeds(src, b)
  {
    if a < b {
      LineFeedsGrow(src, a, b - 1);
    }
  }

  /** The line and the column recover the offset: no two places of a text share both. */
  lemma PlaceIsUnique(src: bytes, a: nat, b: nat, m: string, n: string)
    requires a <= b <= |src|
    requires ErrorAt(src, a, m).line == ErrorAt(src, b, n).line
    requires ErrorAt(src, a, m).column == ErrorAt(src, b, n).column
    ensures a == b
  {
    LineStartSpec(src, a);
    LineStartSpec(src, b);
    var s, t := LineStart(src, a), LineStart(src, b);
    if s < t {
      LineFeedsGrow(src, s, t - 1);
    }
  }

  method MakeError(src: bytes, offset: nat, message: string) returns (e: JsonError)
    requires offset <= |src|
    ensures e == ErrorAt(src, offset, message)
  {
    var line, lineStart, i := 1, 0, 0;
    while i < offset && i < |src|
      invariant 0 <= i <= offset
      invariant line == LineFeeds(src, i) + 1 && lineStart == LineStart(src, i)
    {
      if src[i] == 10 {
        line := line + 1;
        lineStart := i + 1;
      }
      i := i + 1;
    }
    e := JsonError(message, offset, line, offset - lineStart + 1);
  }

  // ----- Accumulated results -----

  lemma NothingRead(r: Parsed<bytes>, items: Parsed<seq<Value>>, members: Parsed<(seq<bytes>, seq<Value>)>)
    ensures Prefixed([], r) == r && WithItems([], items) == items && WithMembers([], [], members) == members
  {
    assert r.Good? ==> [] + r.value == r.value;
    assert items.Good? ==> [] + items.value == items.value;
    assert members.Good? ==> [] + members.value.0 == members.value.0 && [] + members.value.1 == members.value.1;
  }

  lemma OneMoreItem(items: seq<Value>, v: Value, r: Parsed<seq<Value>>)
    ensures WithItems(items, WithItems([v], r)) == WithItems(items + [v], r)
  {
    assert r.Good? ==> items + ([v] + r.value) == items + [v] + r.value;
  }

  lemma OneMoreMember(keys: seq<bytes>, values: seq<Value>, k: bytes, v: Value, r: Parsed<(seq<bytes>, seq<Value>)>)
    ensures WithMembers(keys, values, WithMembers([k], [v], r)) == WithMembers(keys + [k], values + [v], r)
  {
    if r.Good? {
      assert keys + ([k] + r.value.0) == keys + [k] + r.value.0;
      assert values + ([v] + r.value.1) == values + [v] + r.value.1;
    }
  }

  lemma PrefixedTwice(a: bytes, b: bytes, r: Parsed<bytes>)
    ensures Prefixed(a, Prefixed(b, r)) == Prefixed(a + b, r)
  {
    if r.Good? {
      assert a + (b + r.value) == a + b + r.value;
    }
  }

  function WithItems(items: seq<Value>, r: Parsed<seq<Value>>): Parsed<seq<Value>>
  {
    if r.Good? then Good(items + r.value, r.pos) else r
  }

  function WithMembers(keys: seq<bytes>, values: seq<Value>, r: Parsed<(seq<bytes>, seq<Value>)>): Parsed<(seq<bytes>, seq<Value>)>
  {
    if r.Good? then Good((keys + r.value.0, values + r.value.1), r.pos) else r
  }

  class Parser {
    const src: bytes
    const maxDepth: int
    var pos: nat
    var depth: nat

    ghost predicate Valid()
      reads this
    {
      pos <= |src|
    }

    constructor (src: bytes, pos: nat, maxDepth: int)
      requires pos <= |src|
      ensures Valid() && this.src == src && this.pos == pos && depth == 0 && this.maxDepth == maxDepth
    {
      this.src, this.pos, this.depth, this.maxDepth := src, pos, 0, maxDepth;
    }

    /** A method's outcome is the one the specification gives: value, position and depth, or error. */
    ghost predicate Meets<T>(spec: Parsed<T>, r: Result<T, JsonError>, before: nat)
      reads this
    {
      match spec
      case Good(v, p) => r == Ok(v) && pos == p && depth == before
      case Bad(m, o) => o <= |src| && r == Err(ErrorAt(src, o, m))
    }

    method Fail(message: string) returns (e: JsonError)
      requires Valid()
      ensures e == ErrorAt(src, pos, message)
    {
      e := MakeError(src, pos, message);
    }

    method PeekByte() returns (c: int)
      ensures c == Peek(src, pos)
    {
      if pos >= |src| {
        return -1;
      }
      return src[pos];
    }

    method SkipSpace()
      requires Valid()
      modifies this`pos
      ensures Valid() && pos == SkipWs(src, old(pos))
    {
      while pos < |src|
        invariant Valid() && SkipWs(src, pos) == SkipWs(src, old(pos))
        decreases |src| - pos
      {
        var c := src[pos];
        if c == 32 || c == 9 || c == 10 || c == 13 {
          pos := pos + 1;
        } else {
          return;
        }
      }
    }

    method ConsumeLiteral(lit: bytes) returns (found: bool)
      requires Valid()
      modifies this`pos
      ensures Valid() && found == At(src, old(pos), lit)
      ensures pos == if found then old(pos) + |lit| else old(pos)
    {
      if pos + |lit| > |src| {
        return false;
      }
      var i := 0;
      while i < |lit|
        invariant 0 <= i <= |lit|
        invariant forall j :: 0 <= j < i ==> src[pos + j] == lit[j]
      {
        if src[pos + i] != lit[i] {
          return false;
        }
        i := i + 1;
      }
      pos := pos + |lit|;
      return true;
    }

    method ReadHex4() returns (r: Result<nat, JsonError>)
      requires Valid()
      modifies this`pos
      ensures Valid() && Meets(ParseHex4(src, old(pos)), r, depth)
    {
      if pos + 4 > |src| {
        var e := Fail(BAD_ESCAPE);
        return Err(e);
      }
      var n, i := 0, 0;
      while i < 4
        invariant 0 <= i <= 4 && pos == old(pos)
        invariant forall j :: pos <= j < pos + i ==> IsHex(src[j])
        invariant n == HexPrefix(src, pos, i)
      {
        var d := HexValue(src[pos + i]);
        if d < 0 {
          pos := pos + i;
          var e := Fail(BAD_ESCAPE);
          return Err(e);
        }
        n := n * 16 + d;
        i := i + 1;
      }
      assert n == HexPrefix(src, pos, 4) == Hex4(src[pos], src[pos + 1], src[pos + 2], src[pos + 3]).Unit() by {
        assert HexPrefix(src, pos, 2) == HexValue(src[pos]) * 16 + HexValue(src[pos + 1]);
      }
      pos := pos + 4;
      return Ok(n);
    }

    /** After `\u`; what it appends is returned. */
    method ReadUnicode() returns (r: Result<bytes, JsonError>)
      requires Valid() && pos >= 2
      modifies this`pos
      ensures Valid() && Meets(ParseUnicode(src, old(pos)), r, depth)
    {
      hide ParseHex4, Utf8.Encode;
      var start := pos - 2;
      var a := ReadHex4();
      if a.Err? {
        return Err(a.error);
      }
      var first := a.value;
      if first >= 55296 && first <= 56319 {
        if pos + 1 < |src| && src[pos] == 92 && src[pos + 1] == 117 {
          pos := pos + 2;
          var b := ReadHex4();
          if b.Err? {
            return Err(b.error);
          }
          var second := b.value;
          if second < 56320 || second > 57343 {
            pos := start;
            var e := Fail(UNPAIRED);
            return Err(e);
          }
          return Ok(Utf8.Encode(65536 + (first - 55296) * 1024 + (second - 56320)));
        }
        pos := start;
        var e := Fail(UNPAIRED);
        return Err(e);
      }
      if first >= 56320 && first <= 57343 {
        pos := start;
        var e := Fail(UNPAIRED);
        return Err(e);
      }
      return Ok(Utf8.Encode(first));
    }

    /** The run of plain bytes before the next quote, backslash or control character. */
    method SkipPlain(ghost out: bytes, ghost whole: Parsed<bytes>)
      requires Valid() && pos > 0
      requires Prefixed(out, ParseChars(src, pos)) == whole
      modifies this`pos
      ensures Valid() && old(pos) <= pos
      ensures Prefixed(out + src[old(pos)..pos], ParseChars(src, pos)) == whole
      ensures pos < |src| ==> !IsPlain(src[pos])
    {
      hide ParseUnicode, EscapeMeaning, IsShortEscape;
      assert out + src[pos..pos] == out;
      while pos < |src|
        invariant Valid() && old(pos) <= pos
        invariant Prefixed(out + src[old(pos)..pos], ParseChars(src, pos)) == whole
        decreases |src| - pos
      {
        var c := src[pos];
        if c == 34 || c == 92 || c < 32 {
          break;
        }
        PrefixedTwice(out + src[old(pos)..pos], [c], ParseChars(src, pos + 1));
        assert out + src[old(pos)..pos + 1] == out + src[old(pos)..pos] + [c];
        pos := pos + 1;
      }
    }

    method ReadString() returns (r: Result<bytes, JsonError>)
      requires Valid() && pos < |src|
      modifies this`pos
      ensures Valid() && Meets(ParseChars(src, old(pos) + 1), r, depth)
    {
      hide ParseUnicode;
      pos := pos + 1;
      var out: bytes := [];
      ghost var whole := ParseChars(src, pos);
      NothingRead(whole, Bad("", 0), Bad("", 0));
      var n := |src|;
      while true
        invariant Valid() && pos > old(pos)
        invariant Prefixed(out, ParseChars(src, pos)) == whole
        decreases |src| - pos
      {
        var start := pos;
        SkipPlain(out, whole);
        out := out + src[start..pos];
        if pos >= n {
          var e := Fail(UNTERMINATED);
          return Err(e);
        }
        var c := src[pos];
        if c == 34 {
          pos := pos + 1;
          assert out + [] == out;
          return Ok(out);
        }
        if c < 32 {
          var e := Fail("control character in string");
          return Err(e);
        }
        pos := pos + 1;
        if pos >= n {
          var e := Fail(UNTERMINATED);
          return Err(e);
        }
        var e := src[pos];
        pos := pos + 1;
        if IsShortEscape(e) {
          PrefixedTwice(out, [EscapeMeaning(e)], ParseChars(src, pos));
          out := out + [EscapeMeaning(e)];
        } else if e == 117 {
          var unicode := ReadUnicode();
          if unicode.Err? {
            return Err(unicode.error);
          }
          PrefixedTwice(out, unicode.value, ParseChars(src, pos));
          out := out + unicode.value;
        } else {
          pos := pos - 2;
          var error := Fail("invalid escape");
          return Err(error);
        }
      }
    }

    method SkipDecimals() returns (count: nat)
      requires Valid()
      modifies this`pos
      ensures Valid() && pos == SkipDigits(src, old(pos)) && count == pos - old(pos)
    {
      var start := pos;
      while pos < |src| && IsDigit(src[pos])
        invariant Valid() && old(pos) <= pos && SkipDigits(src, pos) == SkipDigits(src, old(pos))
        decreases |src| - pos
      {
        pos := pos + 1;
      }
      count := pos - start;
    }

    method ReadNumber() returns (r: Result<Value, JsonError>)
      requires Valid()
      modifies this`pos
      ensures Valid() && Meets(ParseNumber(src, old(pos)), r, depth)
    {
      hide NumberValue, ParseFraction, ParseExponent;
      var start := pos;
      var c := PeekByte();
      if c == 45 {
        pos := pos + 1;
      }
      var first := PeekByte();
      if first == 48 {
        pos := pos + 1;
      } else if first >= 49 && first <= 57 {
        var _ := SkipDecimals();
      } else {
        var e := Fail("expected a digit");
        return Err(e);
      }
      var dotted := ReadFraction();
      if dotted.Err? {
        return Err(dotted.error);
      }
      var scaled := ReadExponent();
      if scaled.Err? {
        return Err(scaled.error);
      }
      var v := ReadNumberText(src[start..pos], !dotted.value && !scaled.value);
      return Ok(v);
    }

    method ReadFraction() returns (r: Result<bool, JsonError>)
      requires Valid()
      modifies this`pos
      ensures Valid() && Meets(ParseFraction(src, old(pos)), r, depth)
    {
      var c := PeekByte();
      if c == 46 {
        pos := pos + 1;
        var count := SkipDecimals();
        if count == 0 {
          var e := Fail("expected a digit after the decimal point");
          return Err(e);
        }
        return Ok(true);
      }
      return Ok(false);
    }

    method ReadExponent() returns (r: Result<bool, JsonError>)
      requires Valid()
      modifies this`pos
      ensures Valid() && Meets(ParseExponent(src, old(pos)), r, depth)
    {
      var c := PeekByte();
      if c == 101 || c == 69 {
        pos := pos + 1;
        var sign := PeekByte();
        if sign == 43 || sign == 45 {
          pos := pos + 1;
        }
        var count := SkipDecimals();
        if count == 0 {
          var e := Fail("expected a digit in the exponent");
          return Err(e);
        }
        return Ok(true);
      }
      return Ok(false);
    }

    method ReadValue() returns (r: Result<Value, JsonError>)
      requires Valid()
      modifies this
      ensures Valid() && Meets(ParseValue(src, old(pos), old(depth), maxDepth), r, old(depth))
      decreases |src| - pos, 2
    {
      hide ParseArray, ParseObject, ParseNumber, ParseChars;
      SkipSpace();
      var c := PeekByte();
      if c < 0 {
        var e := Fail("unexpected end of input");
        return Err(e);
      }
      if c == 34 {
        var s := ReadString();
        if s.Err? {
          return Err(s.error);
        }
        return Ok(Str(s.value));
      }
      if c == 123 {
        r := ReadObject();
        return;
      }
      if c == 91 {
        r := ReadArray();
        return;
      }
      if c == 116 {
        r := ReadLiteral(TRUE_TEXT, Bool(true));
        return;
      }
      if c == 102 {
        r := ReadLiteral(FALSE_TEXT, Bool(false));
        return;
      }
      if c == 110 {
        r := ReadLiteral(NULL_TEXT, Null);
        return;
      }
      if c == 45 || IsDigit(c) {
        r := ReadNumber();
        return;
      }
      var e := Fail("unexpected character");
      return Err(e);
    }

    method ReadLiteral(text: bytes, v: Value) returns (r: Result<Value, JsonError>)
      requires Valid() && |text| > 0
      modifies this`pos
      ensures Valid() && Meets(ParseLiteral(src, old(pos), text, v), r, depth)
    {
      var found := ConsumeLiteral(text);
      if found {
        return Ok(v);
      }
      var e := Fail("invalid literal");
      return Err(e);
    }

    method ReadArray() returns (r: Result<Value, JsonError>)
      requires Valid() && pos < |src|
      modifies this
      ensures Valid() && Meets(ParseArray(src, old(pos), old(depth), maxDepth), r, old(depth))
      decreases |src| - pos, 1
    {
      hide ParseElems;
      depth := depth + 1;
      if depth > maxDepth {
        var e := Fail(TOO_DEEP);
        return Err(e);
      }
      pos := pos + 1;
      SkipSpace();
      var next := PeekByte();
      if next == 93 {
        pos := pos + 1;
        depth := depth - 1;
        return Ok(Array([]));
      }
      var items := ReadElems();
      if items.Err? {
        return Err(items.error);
      }
      depth := depth - 1;
      return Ok(Array(items.value));
    }

    /** The loop over the elements, up to and including the closing bracket. */
    method ReadElems() returns (r: Result<seq<Value>, JsonError>)
      requires Valid()
      modifies this
      ensures Valid() && Meets(ParseElems(src, old(pos), old(depth), maxDepth), r, old(depth))
      decreases |src| - pos, 3
    {
      hide ParseValue;
      var items: seq<Value> := [];
      ghost var whole := ParseElems(src, pos, depth, maxDepth);
      NothingRead(Bad("", 0), whole, Bad("", 0));
      while true
        invariant Valid() && pos >= old(pos) && depth == old(depth)
        invariant WithItems(items, ParseElems(src, pos, depth, maxDepth)) == whole
        decreases |src| - pos
      {
        var v := ReadValue();
        if v.Err? {
          return Err(v.error);
        }
        ghost var before := items;
        items := items + [v.value];
        SkipSpace();
        var c := PeekByte();
        if c == 44 {
          pos := pos + 1;
          OneMoreItem(before, v.value, ParseElems(src, pos, depth, maxDepth));
        } else if c == 93 {
          pos := pos + 1;
          return Ok(items);
        } else {
          var e := Fail("expected `,` or `]`");
          return Err(e);
        }
      }
    }

    method ReadKey() returns (r: Result<bytes, JsonError>)
      requires Valid()
      modifies this`pos
      ensures Valid() && Meets(ParseKey(src, old(pos)), r, depth)
    {
      hide ParseChars;
      SkipSpace();
      var q := PeekByte();
      if q != 34 {
        var e := Fail("expected a string key");
        return Err(e);
      }
      var key := ReadString();
      if key.Err? {
        return Err(key.error);
      }
      SkipSpace();
      var c := PeekByte();
      if c != 58 {
        var e := Fail("expected `:`");
        return Err(e);
      }
      pos := pos + 1;
      return key;
    }

    method ReadObject() returns (r: Result<Value, JsonError>)
      requires Valid() && pos < |src|
      modifies this
      ensures Valid() && Meets(ParseObject(src, old(pos), old(depth), maxDepth), r, old(depth))
      decreases |src| - pos, 1
    {
      hide ParseMembers;
      depth := depth + 1;
      if depth > maxDepth {
        var e := Fail(TOO_DEEP);
        return Err(e);
      }
      pos := pos + 1;
      SkipSpace();
      var next := PeekByte();
      if next == 125 {
        pos := pos + 1;
        depth := depth - 1;
        return Ok(Object([], []));
      }
      var members := ReadMembers();
      if members.Err? {
        return Err(members.error);
      }
      depth := depth - 1;
      return Ok(Object(members.value.0, members.value.1));
    }

    /** The loop over the members, up to and including the closing brace. */
    method ReadMembers() returns (r: Result<(seq<bytes>, seq<Value>), JsonError>)
      requires Valid()
      modifies this
      ensures Valid() && Meets(ParseMembers(src, old(pos), old(depth), maxDepth), r, old(depth))
      decreases |src| - pos, 3
    {
      hide ParseValue, ParseKey;
      var keys: seq<bytes>, values: seq<Value> := [], [];
      ghost var whole := ParseMembers(src, pos, depth, maxDepth);
      NothingRead(Bad("", 0), Bad("", 0), whole);
      while true
        invariant Valid() && pos >= old(pos) && depth == old(depth)
        invariant WithMembers(keys, values, ParseMembers(src, pos, depth, maxDepth)) == whole
        decreases |src| - pos
      {
        var key := ReadKey();
        if key.Err? {
          return Err(key.error);
        }
        var v := ReadValue();
        if v.Err? {
          return Err(v.error);
        }
        ghost var keysBefore, valuesBefore := keys, values;
        keys := keys + [key.value];
        values := values + [v.value];
        SkipSpace();
        var c := PeekByte();
        if c == 44 {
          pos := pos + 1;
          OneMoreMember(keysBefore, valuesBefore, key.value, v.value, ParseMembers(src, pos, depth, maxDepth));
        } else if c == 125 {
          pos := pos + 1;
          return Ok((keys, values));
        } else {
          var e := Fail("expected `,` or `}`");
          return Err(e);
        }
      }
    }
  }

  /** The value of the digits read so far by `parse_hex4`. */
  function HexPrefix(src: bytes, pos: nat, i: nat): nat
    requires pos + i <= |src| && forall j :: pos <= j < pos + i ==> IsHex(src[j])
  {
    if i == 0 then 0 else assert IsHex(src[pos + i - 1]); HexPrefix(src, pos, i - 1) * 16 + HexValue(src[pos + i - 1])
  }

  method ReadNumberText(text: bytes, integer: bool) returns (v: Value)
    ensures v == NumberValue(text, integer)
  {
    if integer {
      var n := ParseInt(text);
      if n.Some? {
        return Number(n.value);
      }
    }
    return Decimal(text);
  }

  /** `parse`: the specified value, or the specified error with its line and column. */
  method Parse(src: bytes, maxDepth: int) returns (r: Result<Value, JsonError>)
    ensures match ParseText(src, maxDepth)
            case Good(v, _) => r == Ok(v)
            case Bad(m, o) => o <= |src| && r == Err(ErrorAt(src, o, m))
  {
    hide ParseValue;
    var start := 0;
    if |src| >= 3 && src[0] == 239 && src[1] == 187 && src[2] == 191 {
      start := 3;
    }
    assert BOM[0] == 239 && BOM[1] == 187 && BOM[2] == 191;
    assert At(src, 0, BOM) <==> start == 3;
    var p := new Parser(src, start, maxDepth);
    var v := p.ReadValue();
    if v.Err? {
      return v;
    }
    p.SkipSpace();
    if p.pos < |src| {
      var e := p.Fail("unexpected text after the value");
      return Err(e);
    }
    return v;
  }
}
