/**
 JSON texts as RFC 8259 writes them (sections 2 to 7), independent of any parser: a concrete
 syntax tree has a text and a meaning, and a byte string is JSON when some tree has it as text.
 Strings are taken byte-wise, as stdlib/json.kod takes them.
 */
module JsonGrammar {
  import opened Kod
  import opened DecimalText
  import Utf8

  datatype Value =
    | Null
    | Bool(b: bool)
    | Number(n: int64)
    | Str(s: bytes)
    | Array(items: seq<Value>)
    | Object(keys: seq<bytes>, values: seq<Value>)
    | Decimal(text: bytes)

  const QUOTE: byte := 34
  const COMMA: byte := 44
  const DOT: byte := 46
  const COLON: byte := 58
  const LBRACKET: byte := 91
  const BACKSLASH: byte := 92
  const RBRACKET: byte := 93
  const LETTER_U: byte := 117
  const LBRACE: byte := 123
  const RBRACE: byte := 125

  const TRUE_TEXT: bytes := [116, 114, 117, 101]
  const FALSE_TEXT: bytes := [102, 97, 108, 115, 101]
  const NULL_TEXT: bytes := [110, 117, 108, 108]
  const BOM: bytes := [239, 187, 191]

  /** `\u` */
  const MARK: bytes := [BACKSLASH, LETTER_U]

  predicate IsOpening(c: int)
  {
    c == LBRACKET || c == LBRACE
  }

  // ----- Section 2: whitespace -----

  predicate IsWs(c: int)
  {
    c == 32 || c == 9 || c == 10 || c == 13
  }

  predicate AllWs(s: bytes)
  {
    forall i :: 0 <= i < |s| ==> IsWs(s[i])
  }

  // ----- Section 7: strings -----

  /** `hex_value`: the digit's value, or -1. */
  function HexValue(c: int): int
  {
    if IsDigit(c) then c - 48
    else if 97 <= c <= 102 then c - 87
    else if 65 <= c <= 70 then c - 55
    else -1
  }

  /** `hex_digit`: the lower-case digit of a value. */
  function HexDigit(n: int): (c: byte)
    requires 0 <= n < 16
    ensures HexValue(c) == n
  {
    if n < 10 then 48 + n else 87 + n
  }

  predicate IsHex(c: int)
  {
    HexValue(c) >= 0
  }

  datatype Hex4 = Hex4(a: byte, b: byte, c: byte, d: byte) {
    predicate Valid() { IsHex(a) && IsHex(b) && IsHex(c) && IsHex(d) }

    function Text(): bytes { [a, b, c, d] }

    function Unit(): (u: nat)
      requires Valid()
      ensures u < 0x10000
    {
      ((HexValue(a) * 16 + HexValue(b)) * 16 + HexValue(c)) * 16 + HexValue(d)
    }
  }

  /** One `char` of the string grammar; a surrogate pair written as two escapes is one piece. */
  datatype Piece = Plain(b: byte) | Escape(e: byte) | Unit(h: Hex4) | Pair(high: Hex4, low: Hex4) {
    predicate Valid()
    {
      match this
      case Plain(b) => IsPlain(b)
      case Escape(e) => IsShortEscape(e)
      case Unit(h) => h.Valid() && !Utf8.IsHigh(h.Unit()) && !Utf8.IsLow(h.Unit())
      case Pair(h, l) => h.Valid() && l.Valid() && Utf8.IsHigh(h.Unit()) && Utf8.IsLow(l.Unit())
    }

    function Text(): (s: bytes)
      ensures |s| > 0
    {
      match this
      case Plain(b) => [b]
      case Escape(e) => [BACKSLASH, e]
      case Unit(h) => [BACKSLASH, LETTER_U] + h.Text()
      case Pair(h, l) => [BACKSLASH, LETTER_U] + h.Text() + [BACKSLASH, LETTER_U] + l.Text()
    }

    function Meaning(): bytes
      requires Valid()
    {
      match this
      case Plain(b) => [b]
      case Escape(e) => [EscapeMeaning(e)]
      case Unit(h) => Utf8.Encode(h.Unit())
      case Pair(h, l) => Utf8.Encode(Utf8.Join(h.Unit(), l.Unit()))
    }
  }

  predicate IsPlain(b: int)
  {
    b >= 32 && b != QUOTE && b != BACKSLASH
  }

  predicate IsShortEscape(e: int)
  {
    e == 34 || e == 92 || e == 47 || e == 98 || e == 102 || e == 110 || e == 114 || e == 116
  }

  function EscapeMeaning(e: byte): byte
    requires IsShortEscape(e)
  {
    if e == 98 then 8
    else if e == 102 then 12
    else if e == 110 then 10
    else if e == 114 then 13
    else if e == 116 then 9
    else e
  }

  predicate ValidPieces(ps: seq<Piece>)
  {
    forall i :: 0 <= i < |ps| ==> ps[i].Valid()
  }

  function PiecesText(ps: seq<Piece>): bytes
  {
    if ps == [] then [] else ps[0].Text() + PiecesText(ps[1..])
  }

  function PiecesMeaning(ps: seq<Piece>): bytes
    requires ValidPieces(ps)
  {
    if ps == [] then [] else ps[0].Meaning() + PiecesMeaning(ps[1..])
  }

  function StringText(ps: seq<Piece>): bytes
  {
    [QUOTE] + (PiecesText(ps) + [QUOTE])
  }

  // ----- Section 6: numbers -----

  datatype Exponent = Exponent(mark: byte, sign: Option<byte>, digits: bytes) {
    predicate Valid()
    {
      && (mark == 101 || mark == 69)
      && (sign.Some? ==> sign.value == PLUS || sign.value == MINUS)
      && DigitRun(digits)
    }

    function Text(): bytes { [mark] + ((if sign.Some? then [sign.value] else []) + digits) }
  }

  predicate DigitRun(s: bytes)
  {
    |s| > 0 && AllDigits(s)
  }

  datatype NumberTree = NumberTree(minus: bool, whole: bytes, frac: Option<bytes>, exp: Option<Exponent>) {
    predicate Valid()
    {
      && DigitRun(whole) && (whole[0] == ZERO ==> |whole| == 1)
      && (frac.Some? ==> DigitRun(frac.value))
      && (exp.Some? ==> exp.value.Valid())
    }

    function SignText(): bytes { if minus then [MINUS] else [] }

    function FracText(): bytes { if frac.Some? then [DOT] + frac.value else [] }

    function ExpText(): bytes { if exp.Some? then exp.value.Text() else [] }

    function Text(): bytes { SignText() + (whole + (FracText() + ExpText())) }

    /** An integer that fits an int64 is that number; any other number is its own text. */
    function Meaning(): Value
      requires Valid()
    {
      if frac.None? && exp.None? && InRange(Integer()) then Number(Integer()) else Decimal(Text())
    }

    function Integer(): int
      requires Valid()
    {
      var n: int := DigitsValue(whole);
      if minus then -n else n
    }
  }

  predicate InRange(n: int)
  {
    INT64_MIN <= n <= INT64_MAX
  }

  // ----- Sections 3, 4 and 5: values, objects and arrays -----

  datatype Tree =
    | NullTree
    | TrueTree
    | FalseTree
    | NumberLeaf(num: NumberTree)
    | StringLeaf(ps: seq<Piece>)
    | EmptyArray(ws: bytes)
    | ArrayTree(elems: Elems)
    | EmptyObject(ws: bytes)
    | ObjectTree(members: Members)

  /** The elements of a nonempty array, each between whitespace. */
  datatype Elems =
    | LastElem(pre: bytes, t: Tree, post: bytes)
    | MoreElems(pre: bytes, t: Tree, post: bytes, rest: Elems)

  /** The members of a nonempty object: whitespace around the key, the value and the member. */
  datatype Members =
    | LastMember(pre: bytes, key: seq<Piece>, gap: bytes, mid: bytes, t: Tree, post: bytes)
    | MoreMembers(pre: bytes, key: seq<Piece>, gap: bytes, mid: bytes, t: Tree, post: bytes, more: Members)

  predicate ValidTree(t: Tree)
  {
    match t
    case NumberLeaf(num) => num.Valid()
    case StringLeaf(ps) => ValidPieces(ps)
    case EmptyArray(ws) => AllWs(ws)
    case ArrayTree(es) => ValidElems(es)
    case EmptyObject(ws) => AllWs(ws)
    case ObjectTree(ms) => ValidMembers(ms)
    case _ => true
  }

  predicate ValidElems(es: Elems)
  {
    && AllWs(es.pre) && ValidTree(es.t) && AllWs(es.post)
    && (es.MoreElems? ==> ValidElems(es.rest))
  }

  predicate ValidMembers(ms: Members)
  {
    && AllWs(ms.pre) && ValidPieces(ms.key) && AllWs(ms.gap) && AllWs(ms.mid) && ValidTree(ms.t) && AllWs(ms.post)
    && (ms.MoreMembers? ==> ValidMembers(ms.more))
  }

  function TreeText(t: Tree): bytes
  {
    match t
    case NullTree => NULL_TEXT
    case TrueTree => TRUE_TEXT
    case FalseTree => FALSE_TEXT
    case NumberLeaf(num) => num.Text()
    case StringLeaf(ps) => StringText(ps)
    case EmptyArray(ws) => [LBRACKET] + (ws + [RBRACKET])
    case ArrayTree(es) => [LBRACKET] + ElemsText(es)
    case EmptyObject(ws) => [LBRACE] + (ws + [RBRACE])
    case ObjectTree(ms) => [LBRACE] + MembersText(ms)
  }

  /** A value between whitespace, and what comes after. */
  function Spaced(pre: bytes, text: bytes, post: bytes, next: bytes): bytes
  {
    pre + (text + (post + next))
  }

  /** Up to and including the closing bracket. */
  function ElemsText(es: Elems): bytes
    decreases es, 1
  {
    Spaced(es.pre, TreeText(es.t), es.post, ElemsNext(es))
  }

  function ElemsNext(es: Elems): bytes
    decreases es, 0
  {
    if es.LastElem? then [RBRACKET] else [COMMA] + ElemsText(es.rest)
  }

  /** Up to and including the closing brace. */
  function MembersText(ms: Members): bytes
    decreases ms, 2
  {
    Spaced(ms.pre, StringText(ms.key), ms.gap, [COLON] + MemberValueText(ms))
  }

  function MemberValueText(ms: Members): bytes
    decreases ms, 1
  {
    Spaced(ms.mid, TreeText(ms.t), ms.post, MembersNext(ms))
  }

  function MembersNext(ms: Members): bytes
    decreases ms, 0
  {
    if ms.LastMember? then [RBRACE] else [COMMA] + MembersText(ms.more)
  }

  function TreeMeaning(t: Tree): Value
    requires ValidTree(t)
  {
    match t
    case NullTree => Null
    case TrueTree => Bool(true)
    case FalseTree => Bool(false)
    case NumberLeaf(num) => num.Meaning()
    case StringLeaf(ps) => Str(PiecesMeaning(ps))
    case EmptyArray(_) => Array([])
    case ArrayTree(es) => Array(ElemsMeaning(es))
    case EmptyObject(_) => Object([], [])
    case ObjectTree(ms) => Object(MembersKeys(ms), MembersValues(ms))
  }

  function ElemsMeaning(es: Elems): seq<Value>
    requires ValidElems(es)
  {
    if es.LastElem? then [TreeMeaning(es.t)] else [TreeMeaning(es.t)] + ElemsMeaning(es.rest)
  }

  function MembersKeys(ms: Members): seq<bytes>
    requires ValidMembers(ms)
  {
    if ms.LastMember? then [PiecesMeaning(ms.key)] else [PiecesMeaning(ms.key)] + MembersKeys(ms.more)
  }

  function MembersValues(ms: Members): seq<Value>
    requires ValidMembers(ms)
  {
    if ms.LastMember? then [TreeMeaning(ms.t)] else [TreeMeaning(ms.t)] + MembersValues(ms.more)
  }

  function Max(a: nat, b: nat): nat { if a < b then b else a }

  /** How many arrays and objects are around the innermost value, itself included. */
  function TreeDepth(t: Tree): nat
  {
    match t
    case EmptyArray(_) => 1
    case EmptyObject(_) => 1
    case ArrayTree(es) => 1 + ElemsDepth(es)
    case ObjectTree(ms) => 1 + MembersDepth(ms)
    case _ => 0
  }

  function ElemsDepth(es: Elems): nat
  {
    Max(TreeDepth(es.t), if es.LastElem? then 0 else ElemsDepth(es.rest))
  }

  function MembersDepth(ms: Members): nat
  {
    Max(TreeDepth(ms.t), if ms.LastMember? then 0 else MembersDepth(ms.more))
  }

  /** A whole document: an optional byte order mark, then one value between whitespace. */
  datatype Document = Document(bom: bool, pre: bytes, t: Tree, post: bytes) {
    predicate Valid() { AllWs(pre) && ValidTree(t) && AllWs(post) }

    function Text(): bytes { (if bom then BOM else []) + (pre + (TreeText(t) + post)) }
  }

  /** `src` is JSON text whose value is `v` and whose nesting is `depth`. */
  ghost predicate Denotes(src: bytes, v: Value, depth: nat)
  {
    exists d: Document :: d.Valid() && d.Text() == src && TreeMeaning(d.t) == v && TreeDepth(d.t) == depth
  }
}
