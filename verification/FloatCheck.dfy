/** `kod_f64_valid` (stdlib/runtime.c) against the grammar it describes, and the texts it must accept. */
module FloatCheck {
  import opened Kod
  import opened ByteText
  import opened DecimalText
  import opened JsonGrammar
  import opened JsonParse
  import opened JsonComplete
  import opened JsonSound
  import opened FloatText
  import JsonEmit

  /** A sign, digits with an optional point (one digit at least) and an exponent, all but the digits optional. */
  datatype DecimalTree = DecimalTree(sign: Option<byte>, whole: bytes, point: Option<bytes>, exp: Option<Exponent>) {
    predicate Valid()
    {
      && (sign.Some? ==> sign.value == PLUS || sign.value == MINUS)
      && AllDigits(whole) && (point.Some? ==> AllDigits(point.value))
      && |whole| + (if point.Some? then |point.value| else 0) > 0
      && (exp.Some? ==> exp.value.Valid())
    }

    function SignText(): bytes { if sign.Some? then [sign.value] else [] }

    function PointText(): bytes { if point.Some? then [DOT] + point.value else [] }

    function ExpText(): bytes { if exp.Some? then exp.value.Text() else [] }

    function Text(): bytes { SignText() + (whole + (PointText() + ExpText())) }
  }

  ghost predicate IsDecimal(s: bytes)
  {
    exists t: DecimalTree :: t.Valid() && t.Text() == s
  }

  /** Where the digits start, where they end, and whether there are any. */
  function SignEnd(s: bytes): (i: nat)
    ensures i <= |s|
  {
    if Signed(s) then 1 else 0
  }

  function PointEnd(s: bytes, w: nat): (p: nat)
    requires w <= |s|
    ensures w <= p <= |s|
  {
    if Peek(s, w) == DOT then SkipDigits(s, w + 1) else w
  }

  predicate HasDigits(s: bytes, i: nat, w: nat, p: nat)
  {
    w > i || p > w + 1
  }

  /** `kod_f64_valid` as a function. */
  predicate ScanDecimal(s: bytes)
  {
    var i := SignEnd(s);
    var w := SkipDigits(s, i);
    var p := PointEnd(s, w);
    HasDigits(s, i, w, p) && ParseExponent(s, p).Good? && ParseExponent(s, p).pos == |s|
  }

  lemma PointParts(s: bytes, w: nat, t: DecimalTree)
    requires t.Valid() && At(s, w, t.PointText() + t.ExpText()) && |s| == w + |t.PointText()| + |t.ExpText()|
    ensures t.point.Some? <==> Peek(s, w) == DOT
    ensures PointEnd(s, w) == w + |t.PointText()| && At(s, w + |t.PointText()|, t.ExpText())
    ensures !IsDigit(Peek(s, w)) && Peek(s, w) != PLUS && Peek(s, w) != MINUS
  {
    hide At, DecimalTree.ExpText, ParseExponent;
    AtSplit(s, w, t.PointText(), t.ExpText());
    ExpHead(s, w + |t.PointText()|, t);
    if t.point.Some? {
      AtHead(s, w, t.PointText());
      AtSplit(s, w, [DOT], t.point.value);
      SkipDigitsOver(s, w + 1, t.point.value);
    }
  }

  /** The scan finds the parts of a tree in its text. */
  lemma DecimalParts(t: DecimalTree, s: bytes)
    requires t.Valid() && s == t.Text()
    ensures SignEnd(s) == |t.SignText()| && (t.sign.Some? ==> Peek(s, 0) == t.sign.value)
    ensures SkipDigits(s, SignEnd(s)) == |t.SignText()| + |t.whole|
    ensures var w := |t.SignText()| + |t.whole|;
            && w <= |s| && (t.point.Some? <==> Peek(s, w) == DOT)
            && PointEnd(s, w) == w + |t.PointText()| && At(s, w + |t.PointText()|, t.ExpText())
  {
    hide At, DecimalTree.ExpText, DecimalTree.PointText, PointEnd;
    var sign, tail := t.SignText(), t.PointText() + t.ExpText();
    AtWhole(s);
    AtSplit(s, 0, sign, t.whole + tail);
    AtSplit(s, |sign|, t.whole, tail);
    PointParts(s, |sign| + |t.whole|, t);
    SkipDigitsOver(s, |sign|, t.whole);
    if t.sign.Some? {
      AtHead(s, 0, sign);
    } else if t.whole != [] {
      AtHead(s, 0, t.whole);
      assert IsDigit(t.whole[0]);
    }
  }

  lemma DecimalScans(t: DecimalTree)
    requires t.Valid()
    ensures ScanDecimal(t.Text())
  {
    hide ParseExponent, DecimalTree.ExpText, SkipDigits, SignEnd, PointEnd, At;
    DecimalParts(t, t.Text());
    ExpHead(t.Text(), |t.SignText()| + |t.whole| + |t.PointText()|, t);
  }

  lemma ExpHead(s: bytes, p: nat, t: DecimalTree)
    requires t.Valid() && At(s, p, t.ExpText()) && |s| == p + |t.ExpText()|
    ensures !IsDigit(Peek(s, p)) && Peek(s, p) != DOT && Peek(s, p) != PLUS && Peek(s, p) != MINUS
    ensures ParseExponent(s, p).Good? && ParseExponent(s, p).pos == |s|
  {
    if t.exp.Some? {
      AtHead(s, p, t.ExpText());
    }
    var num := NumberTree(false, [ZERO], None, t.exp);
    ExponentParses(s, p, num);
  }

  lemma DecimalSound(s: bytes) returns (t: DecimalTree)
    requires ScanDecimal(s)
    ensures t.Valid() && t.Text() == s
  {
    hide ParseExponent, At, SkipDigits, PointEnd, AllDigits, Exponent.Text;
    var i := SignEnd(s);
    var sign: Option<byte> := if i == 1 then Some(s[0]) else None;
    var whole := SkippedDigits(s, i);
    var w := i + |whole|;
    var point, pointText := PointSound(s, w);
    var exp, expText := ExponentSound(s, w + |pointText|);
    t := DecimalTree(sign, whole, point, exp);
    AtJoin(s, w, pointText, expText);
    AtJoin(s, i, whole, pointText + expText);
    SignAt(s, sign);
    AtJoin(s, 0, t.SignText(), whole + (pointText + expText));
    AtAll(s, t.Text());
  }

  lemma SignAt(s: bytes, sign: Option<byte>)
    requires if sign.Some? then |s| > 0 && s[0] == sign.value else true
    ensures At(s, 0, if sign.Some? then [sign.value] else [])
  {
  }

  lemma PointSound(s: bytes, w: nat) returns (point: Option<bytes>, text: bytes)
    requires w <= |s|
    ensures point.Some? ==> AllDigits(point.value)
    ensures text == if point.Some? then [DOT] + point.value else []
    ensures At(s, w, text) && PointEnd(s, w) == w + |text|
  {
    if Peek(s, w) == DOT {
      var digits := SkippedDigits(s, w + 1);
      AtJoin(s, w, [DOT], digits);
      point, text := Some(digits), [DOT] + digits;
    } else {
      point, text := None, [];
    }
  }

  /** The check accepts exactly the decimal numbers. */
  lemma ScanIsExact(s: bytes)
    ensures ScanDecimal(s) <==> IsDecimal(s)
  {
    hide ScanDecimal, DecimalTree.Text, DecimalTree.Valid;
    if ScanDecimal(s) {
      var t := DecimalSound(s);
    }
    if IsDecimal(s) {
      var t: DecimalTree :| t.Valid() && t.Text() == s;
      DecimalScans(t);
    }
  }

  method F64Valid(s: bytes) returns (ok: bool)
    ensures ok <==> IsDecimal(s)
  {
    hide IsDecimal, ParseExponent, SkipDigits;
    ScanIsExact(s);
    var n, i, digits := |s|, 0, 0;
    if i < n && (s[i] == 43 || s[i] == 45) {
      i := i + 1;
    }
    var w := JsonEmit.DigitsEnd(s, i);
    digits := w - i;
    i := w;
    if i < n && s[i] == 46 {
      i := i + 1;
      var p := JsonEmit.DigitsEnd(s, i);
      digits := digits + (p - i);
      i := p;
    }
    if digits == 0 {
      return false;
    }
    var good, end := JsonEmit.ExponentEnd(s, i);
    if !good {
      return false;
    }
    return end == n;
  }

  /** Every JSON number is a decimal number. */
  lemma JsonNumberIsDecimal(num: NumberTree)
    requires num.Valid()
    ensures IsDecimal(num.Text())
  {
    assert AsDecimal(num).Valid() && AsDecimal(num).Text() == num.Text();
  }

  /** A float's text is accepted both by `kod_f64_valid` and by JSON's `is_number_text`. */
  lemma FloatTextIsAccepted(negative: bool, sci: bytes, exp: int)
    requires DigitRun(sci) && sci[0] != ZERO
    ensures Shortest(sci) != []
    ensures var text := LayoutTree(negative, Shortest(sci), exp).Text();
            IsDecimal(text) && JsonEmit.IsNumber(text)
  {
    hide LayoutTree, NumberTree.Text, IsDecimal, Shortest;
    LayoutIsExact(negative, sci, exp);
    JsonNumberIsDecimal(LayoutTree(negative, Shortest(sci), exp));
  }

  // ----- A number text has one reading -----

  function AsDecimal(num: NumberTree): (t: DecimalTree)
    ensures t.Text() == num.Text() && (num.Valid() ==> t.Valid())
    ensures t.SignText() == num.SignText() && t.PointText() == num.FracText() && t.ExpText() == num.ExpText()
  {
    DecimalTree(if num.minus then Some(MINUS) else None, num.whole, num.frac, num.exp)
  }

  lemma ExponentIsUnique(a: Exponent, b: Exponent)
    requires a.Valid() && b.Valid() && a.Text() == b.Text()
    ensures a == b
  {
    ExponentParts(a);
    ExponentParts(b);
  }

  lemma ExponentParts(e: Exponent)
    requires e.Valid()
    ensures var s := e.Text();
            && |s| > 1 && s[0] == e.mark && (e.sign.Some? <==> !IsDigit(s[1])) && (e.sign.Some? ==> s[1] == e.sign.value)
            && e.digits == s[if e.sign.Some? then 2 else 1..]
  {
    assert IsDigit(e.digits[0]);
  }

  /** So a text's value does not depend on how it is read. */
  lemma NumberTextIsUnique(a: NumberTree, b: NumberTree)
    requires a.Valid() && b.Valid() && a.Text() == b.Text()
    ensures a == b
  {
    hide SkipDigits, At, SignEnd, PointEnd, DecimalTree.Text, DecimalTree.SignText, DecimalTree.PointText, DecimalTree.ExpText;
    hide NumberTree.ExpText, NumberTree.Valid, DecimalTree.Valid;
    var s := a.Text();
    DecimalParts(AsDecimal(a), s);
    DecimalParts(AsDecimal(b), s);
    SameParts(a.SignText(), a.whole, a.FracText(), a.ExpText(), b.SignText(), b.whole, b.FracText(), b.ExpText());
    FracTextIsUnique(a, b);
    ExpTextIsUnique(a, b);
  }

  lemma FracTextIsUnique(a: NumberTree, b: NumberTree)
    requires a.FracText() == b.FracText()
    ensures a.frac == b.frac
  {
    assert a.frac.Some? ==> a.frac.value == a.FracText()[1..];
    assert b.frac.Some? ==> b.frac.value == b.FracText()[1..];
  }

  lemma ExpTextIsUnique(a: NumberTree, b: NumberTree)
    requires a.Valid() && b.Valid() && a.ExpText() == b.ExpText()
    ensures a.exp == b.exp
  {
    assert a.exp.Some? ==> |a.ExpText()| > 0;
    assert b.exp.Some? ==> |b.ExpText()| > 0;
    if a.exp.Some? {
      ExponentIsUnique(a.exp.value, b.exp.value);
    }
  }

  lemma SameParts(s1: bytes, w1: bytes, f1: bytes, e1: bytes, s2: bytes, w2: bytes, f2: bytes, e2: bytes)
    requires s1 + (w1 + (f1 + e1)) == s2 + (w2 + (f2 + e2))
    requires |s1| == |s2| && |w1| == |w2| && |f1| == |f2|
    ensures w1 == w2 && f1 == f2 && e1 == e2
  {
    var t1, t2 := w1 + (f1 + e1), w2 + (f2 + e2);
    assert t1 == (s1 + t1)[|s1|..] && t2 == (s2 + t2)[|s2|..];
    assert w1 == t1[..|w1|] && w2 == t2[..|w2|];
    assert f1 + e1 == t1[|w1|..] && f2 + e2 == t2[|w2|..];
    assert f1 == (f1 + e1)[..|f1|] && f2 == (f2 + e2)[..|f2|];
    assert e1 == (f1 + e1)[|f1|..] && e2 == (f2 + e2)[|f2|..];
  }
}
