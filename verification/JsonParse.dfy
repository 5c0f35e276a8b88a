/**
 The recursive-descent parser of stdlib/json.kod as functions of the source and a position:
 the specification that the methods of `JsonParser` meet, branch by branch.
 */
module JsonParse {
  import opened Kod
  import opened ByteText
  import opened DecimalText
  import opened JsonGrammar
  import Utf8

  /** A value and the position after it, or a message and the offset it is reported at. */
  datatype Parsed<+T> = Good(value: T, pos: nat) | Bad(message: string, offset: nat)

  const TOO_DEEP := "nesting too deep"
  const BAD_ESCAPE := "bad \\u escape"
  const UNPAIRED := "unpaired surrogate"
  const UNTERMINATED := "unterminated string"
  const INVALID_ESCAPE := "invalid escape"
  const INVALID_LITERAL := "invalid literal"
  const TRAILING := "unexpected text after the value"

  /** What every parsing function promises: it moves forward and stays inside the source, failing or not. */
  predicate Sane<T>(src: bytes, pos: nat, r: Parsed<T>)
  {
    if r.Good? then pos < r.pos <= |src| else pos <= r.offset <= |src|
  }

  function SkipWs(src: bytes, pos: nat): (p: nat)
    requires pos <= |src|
    ensures pos <= p <= |src| && !IsWs(Peek(src, p))
    decreases |src| - pos
  {
    if pos < |src| && IsWs(src[pos]) then SkipWs(src, pos + 1) else pos
  }

  function ParseHex4(src: bytes, pos: nat): (r: Parsed<nat>)
    requires pos <= |src|
    ensures Sane(src, pos, r)
    ensures r.Good? ==> r.value < 0x10000
  {
    if pos + 4 > |src| then Bad(BAD_ESCAPE, pos)
    else if !IsHex(src[pos]) then Bad(BAD_ESCAPE, pos)
    else if !IsHex(src[pos + 1]) then Bad(BAD_ESCAPE, pos + 1)
    else if !IsHex(src[pos + 2]) then Bad(BAD_ESCAPE, pos + 2)
    else if !IsHex(src[pos + 3]) then Bad(BAD_ESCAPE, pos + 3)
    else Good(Hex4(src[pos], src[pos + 1], src[pos + 2], src[pos + 3]).Unit(), pos + 4)
  }

  /** After `\u`: one code point, joining a surrogate pair; a lone surrogate is reported at its backslash. */
  function ParseUnicode(src: bytes, pos: nat): (r: Parsed<bytes>)
    requires 2 <= pos <= |src|
    ensures if r.Good? then pos < r.pos <= |src| else pos - 2 <= r.offset <= |src|
  {
    match ParseHex4(src, pos)
    case Bad(m, o) => Bad(m, o)
    case Good(first, p) =>
      if Utf8.IsHigh(first) then
        if p + 1 < |src| && src[p] == BACKSLASH && src[p + 1] == LETTER_U then
          match ParseHex4(src, p + 2)
          case Bad(m, o) => Bad(m, o)
          case Good(second, q) =>
            if Utf8.IsLow(second) then Good(Utf8.Encode(Utf8.Join(first, second)), q)
            else Bad(UNPAIRED, pos - 2)
        else Bad(UNPAIRED, pos - 2)
      else if Utf8.IsLow(first) then Bad(UNPAIRED, pos - 2)
      else Good(Utf8.Encode(first), p)
  }

  function Prefixed(head: bytes, r: Parsed<bytes>): Parsed<bytes>
  {
    if r.Good? then Good(head + r.value, r.pos) else r
  }

  /** A string from after its opening quote, or from the middle of it. */
  function ParseChars(src: bytes, pos: nat): (r: Parsed<bytes>)
    requires 0 < pos <= |src|
    ensures Sane(src, pos, r)
    decreases |src| - pos
  {
    if pos >= |src| then Bad(UNTERMINATED, pos)
    else if src[pos] == QUOTE then Good([], pos + 1)
    else if src[pos] < 32 then Bad("control character in string", pos)
    else if src[pos] != BACKSLASH then Prefixed([src[pos]], ParseChars(src, pos + 1))
    else if pos + 1 >= |src| then Bad(UNTERMINATED, pos + 1)
    else
      var e := src[pos + 1];
      if IsShortEscape(e) then Prefixed([EscapeMeaning(e)], ParseChars(src, pos + 2))
      else if e == LETTER_U then
        match ParseUnicode(src, pos + 2)
        case Bad(m, o) => Bad(m, o)
        case Good(out, p) => Prefixed(out, ParseChars(src, p))
      else Bad(INVALID_ESCAPE, pos)
  }

  /** The end of an optional fraction, then of an optional exponent. */
  function ParseFraction(src: bytes, pos: nat): (r: Parsed<bool>)
    requires pos <= |src|
    ensures if r.Good? then pos <= r.pos <= |src| else pos <= r.offset <= |src|
  {
    if Peek(src, pos) != DOT then Good(false, pos)
    else
      var p := SkipDigits(src, pos + 1);
      if p == pos + 1 then Bad("expected a digit after the decimal point", p) else Good(true, p)
  }

  function ParseExponent(src: bytes, pos: nat): (r: Parsed<bool>)
    requires pos <= |src|
    ensures if r.Good? then pos <= r.pos <= |src| else pos <= r.offset <= |src|
  {
    if Peek(src, pos) != 101 && Peek(src, pos) != 69 then Good(false, pos)
    else
      var s := if Peek(src, pos + 1) == PLUS || Peek(src, pos + 1) == MINUS then pos + 2 else pos + 1;
      var p := SkipDigits(src, s);
      if p == s then Bad("expected a digit in the exponent", p) else Good(true, p)
  }

  /** The end of the number text at `pos`, and whether it is an integer's. */
  function ScanNumber(src: bytes, pos: nat): (r: Parsed<bool>)
    requires pos <= |src|
    ensures Sane(src, pos, r)
  {
    ScanUnsigned(src, if Peek(src, pos) == MINUS then pos + 1 else pos)
  }

  function ScanUnsigned(src: bytes, pos: nat): (r: Parsed<bool>)
    requires pos <= |src|
    ensures Sane(src, pos, r)
  {
    var first := Peek(src, pos);
    if !IsDigit(first) then Bad("expected a digit", pos)
    else
      var whole := if first == ZERO then pos + 1 else SkipDigits(src, pos);
      match ParseFraction(src, whole)
      case Bad(m, o) => Bad(m, o)
      case Good(dotted, p) =>
        match ParseExponent(src, p)
        case Bad(m, o) => Bad(m, o)
        case Good(scaled, q) => Good(!dotted && !scaled, q)
  }

  function NumberValue(text: bytes, integer: bool): Value
  {
    var n := ParsedInt(text);
    if integer && n.Some? then Number(n.value) else Decimal(text)
  }

  function ParseNumber(src: bytes, pos: nat): (r: Parsed<Value>)
    requires pos <= |src|
    ensures Sane(src, pos, r)
  {
    match ScanNumber(src, pos)
    case Bad(m, o) => Bad(m, o)
    case Good(integer, end) => Good(NumberValue(src[pos..end], integer), end)
  }

  function ParseLiteral(src: bytes, pos: nat, text: bytes, v: Value): (r: Parsed<Value>)
    requires pos <= |src| && |text| > 0
    ensures Sane(src, pos, r)
  {
    if At(src, pos, text) then Good(v, pos + |text|) else Bad(INVALID_LITERAL, pos)
  }

  function ParseValue(src: bytes, pos: nat, depth: nat, maxDepth: int): (r: Parsed<Value>)
    requires pos <= |src|
    ensures Sane(src, pos, r)
    decreases |src| - pos, 2
  {
    var p := SkipWs(src, pos);
    var c := Peek(src, p);
    if c < 0 then Bad("unexpected end of input", p)
    else if c == QUOTE then
      match ParseChars(src, p + 1)
      case Good(s, q) => Good(Str(s), q)
      case Bad(m, o) => Bad(m, o)
    else if c == LBRACE then ParseObject(src, p, depth, maxDepth)
    else if c == LBRACKET then ParseArray(src, p, depth, maxDepth)
    else if c == 116 then ParseLiteral(src, p, TRUE_TEXT, Bool(true))
    else if c == 102 then ParseLiteral(src, p, FALSE_TEXT, Bool(false))
    else if c == 110 then ParseLiteral(src, p, NULL_TEXT, Null)
    else if c == MINUS || IsDigit(c) then ParseNumber(src, p)
    else Bad("unexpected character", p)
  }

  function ParseArray(src: bytes, pos: nat, depth: nat, maxDepth: int): (r: Parsed<Value>)
    requires pos < |src|
    ensures Sane(src, pos, r)
    decreases |src| - pos, 1
  {
    if depth + 1 > maxDepth then Bad(TOO_DEEP, pos)
    else
      var p := SkipWs(src, pos + 1);
      if Peek(src, p) == RBRACKET then Good(Array([]), p + 1)
      else
        match ParseElems(src, p, depth + 1, maxDepth)
        case Good(items, q) => Good(Array(items), q)
        case Bad(m, o) => Bad(m, o)
  }

  /** Elements and the closing bracket. */
  function ParseElems(src: bytes, pos: nat, depth: nat, maxDepth: int): (r: Parsed<seq<Value>>)
    requires pos <= |src|
    ensures Sane(src, pos, r)
    decreases |src| - pos, 3
  {
    match ParseValue(src, pos, depth, maxDepth)
    case Bad(m, o) => Bad(m, o)
    case Good(v, q) =>
      var p := SkipWs(src, q);
      if Peek(src, p) == COMMA then
        match ParseElems(src, p + 1, depth, maxDepth)
        case Good(vs, end) => Good([v] + vs, end)
        case Bad(m, o) => Bad(m, o)
      else if Peek(src, p) == RBRACKET then Good([v], p + 1)
      else Bad("expected `,` or `]`", p)
  }

  function ParseObject(src: bytes, pos: nat, depth: nat, maxDepth: int): (r: Parsed<Value>)
    requires pos < |src|
    ensures Sane(src, pos, r)
    decreases |src| - pos, 1
  {
    if depth + 1 > maxDepth then Bad(TOO_DEEP, pos)
    else
      var p := SkipWs(src, pos + 1);
      if Peek(src, p) == RBRACE then Good(Object([], []), p + 1)
      else
        match ParseMembers(src, p, depth + 1, maxDepth)
        case Good((keys, values), q) => Good(Object(keys, values), q)
        case Bad(m, o) => Bad(m, o)
  }

  /** A key, its colon and the position after that. */
  function ParseKey(src: bytes, pos: nat): (r: Parsed<bytes>)
    requires pos <= |src|
    ensures Sane(src, pos, r)
  {
    var p := SkipWs(src, pos);
    if Peek(src, p) != QUOTE then Bad("expected a string key", p)
    else
      match ParseChars(src, p + 1)
      case Bad(m, o) => Bad(m, o)
      case Good(key, q) =>
        var colon := SkipWs(src, q);
        if Peek(src, colon) != COLON then Bad("expected `:`", colon) else Good(key, colon + 1)
  }

  /** Members and the closing brace. */
  function ParseMembers(src: bytes, pos: nat, depth: nat, maxDepth: int): (r: Parsed<(seq<bytes>, seq<Value>)>)
    requires pos <= |src|
    ensures Sane(src, pos, r)
    decreases |src| - pos, 3
  {
    match ParseKey(src, pos)
    case Bad(m, o) => Bad(m, o)
    case Good(key, start) =>
      match ParseValue(src, start, depth, maxDepth)
      case Bad(m, o) => Bad(m, o)
      case Good(v, q) =>
        var p := SkipWs(src, q);
        if Peek(src, p) == COMMA then
          match ParseMembers(src, p + 1, depth, maxDepth)
          case Good((keys, values), end) => Good(([key] + keys, [v] + values), end)
          case Bad(m, o) => Bad(m, o)
        else if Peek(src, p) == RBRACE then Good(([key], [v]), p + 1)
        else Bad("expected `,` or `}`", p)
  }

  /** The whole of `parse`. */
  function ParseText(src: bytes, maxDepth: int): (r: Parsed<Value>)
    ensures r.Good? ==> r.pos == |src|
    ensures r.Bad? ==> r.offset <= |src|
  {
    match ParseValue(src, if At(src, 0, BOM) then 3 else 0, 0, maxDepth)
    case Bad(m, o) => Bad(m, o)
    case Good(v, q) =>
      var p := SkipWs(src, q);
      if p < |src| then Bad(TRAILING, p) else Good(v, p)
  }
}
