/**
 The digit layout of `kod_f64_to_str` and the check `kod_f64_valid` (stdlib/runtime.c). The digits
 and the exponent come from the C library; what is proved is that the text means the same number.
 */
module FloatText {
  import opened Kod
  import opened DecimalText
  import opened JsonGrammar

  // ----- Decimal values -----

  function Ten(e: int): real
  {
    if e >= 0 then Pow10(e) as real else 1.0 / (Pow10(-e) as real)
  }

  /** `m * 10^e`. */
  function Worth(m: int, e: int): real
  {
    m as real * Ten(e)
  }

  lemma TenStep(e: int)
    ensures Ten(e + 1) == 10.0 * Ten(e)
  {
    if e < 0 {
      var p := Pow10(-e - 1) as real;
      assert Pow10(-e) as real == 10.0 * p;
      assert 10.0 * (1.0 / (10.0 * p)) == 1.0 / p;
    }
  }

  lemma WorthTen(x: int, e: int)
    ensures Worth(10 * x, e) == Worth(x, e + 1)
  {
    TenStep(e);
    var a, t := x as real, Ten(e);
    assert (10 * x) as real == 10.0 * a;
    assert (10.0 * a) * t == a * (10.0 * t);
  }

  lemma MulTen(m: int, p: int)
    ensures m * (10 * p) == 10 * (m * p)
  {
  }

  lemma {:induction false} WorthShift(m: int, j: nat, e: int)
    ensures Worth(m * Pow10(j), e) == Worth(m, e + j)
    decreases j
  {
    hide Worth;
    if j == 0 {
      assert m * Pow10(0) == m;
    } else {
      var p := Pow10(j - 1);
      MulTen(m, p);
      WorthTen(m * p, e);
      WorthShift(m, j - 1, e + 1);
    }
  }

  /** A signed run of digits with its decimal exponent, as `%e` prints it: `d.ddd * 10^exp`. */
  function DigitsWorth(negative: bool, digits: bytes, exp: int): real
    requires AllDigits(digits)
  {
    var m: int := DigitsValue(digits);
    Worth(if negative then -m else m, exp - |digits| + 1)
  }

  /** The exact value of a number of the JSON grammar. */
  function NumberWorth(num: NumberTree): real
    requires num.Valid()
  {
    var frac := if num.frac.Some? then num.frac.value else [];
    var m: int := DigitsValue(num.whole + frac);
    Worth(if num.minus then -m else m, ExponentValue(num.exp) - |frac|)
  }

  function ExponentValue(exp: Option<Exponent>): int
    requires exp.Some? ==> exp.value.Valid()
  {
    if exp.None? then 0
    else
      var n: int := DigitsValue(exp.value.digits);
      if exp.value.sign == Some(MINUS) then -n else n
  }

  // ----- Trailing zeros -----

  /** The digits without trailing zeros, but never fewer than one. */
  function Shortest(digits: bytes): bytes
  {
    if |digits| > 1 && digits[|digits| - 1] == ZERO then Shortest(digits[..|digits| - 1]) else digits
  }

  lemma {:induction false} ShortestKeeps(negative: bool, digits: bytes, exp: int)
    requires DigitRun(digits)
    ensures DigitRun(Shortest(digits)) && |Shortest(digits)| <= |digits| && Shortest(digits)[0] == digits[0]
    ensures DigitsWorth(negative, Shortest(digits), exp) == DigitsWorth(negative, digits, exp)
    decreases |digits|
  {
    if |digits| > 1 && digits[|digits| - 1] == ZERO {
      var rest := digits[..|digits| - 1];
      ShortestKeeps(negative, rest, exp);
      var m: int := DigitsValue(rest);
      var n := if negative then -m else m;
      assert Pow10(1) == 10;
      WorthShift(n, 1, exp - |digits| + 1);
      assert n * Pow10(1) == if negative then -(10 * m) else 10 * m;
    }
  }

  // ----- The layout -----

  /** Digits on both sides of the point. */
  function PlainTree(negative: bool, digits: bytes, exp: nat): NumberTree
  {
    if |digits| > exp + 1 then NumberTree(negative, digits[..exp + 1], Some(digits[exp + 1..]), None)
    else NumberTree(negative, digits + Zeros(exp + 1 - |digits|), Some([ZERO]), None)
  }

  /** Zeros after the point, then the digits. */
  function SmallTree(negative: bool, digits: bytes, zeros: nat): NumberTree
  {
    NumberTree(negative, [ZERO], Some(Zeros(zeros) + digits), None)
  }

  /** One digit before the point, and an exponent. */
  function PowerTree(negative: bool, digits: bytes, exp: int): NumberTree
    requires |digits| > 0
  {
    NumberTree(negative, digits[..1], if |digits| > 1 then Some(digits[1..]) else None,
               Some(Exponent(101, Some(if exp < 0 then MINUS else PLUS), NatText(if exp < 0 then -exp else exp))))
  }

  /** The number that is written for shortest digits: plain from 1e-6 up to 1e21, with an exponent outside. */
  function LayoutTree(negative: bool, digits: bytes, exp: int): NumberTree
    requires |digits| > 0
  {
    if 0 <= exp < 21 then PlainTree(negative, digits, exp)
    else if -6 <= exp < 0 then SmallTree(negative, digits, -exp - 1)
    else PowerTree(negative, digits, exp)
  }

  lemma PlainIsExact(negative: bool, digits: bytes, exp: nat)
    requires DigitRun(digits) && digits[0] != ZERO
    ensures PlainTree(negative, digits, exp).Valid()
    ensures NumberWorth(PlainTree(negative, digits, exp)) == DigitsWorth(negative, digits, exp)
  {
    hide Worth, DigitsValue;
    if |digits| > exp + 1 {
      assert digits[..exp + 1] + digits[exp + 1..] == digits;
    } else {
      FilledIsExact(negative, digits, exp);
    }
  }

  lemma FilledIsExact(negative: bool, digits: bytes, exp: nat)
    requires DigitRun(digits) && digits[0] != ZERO && |digits| <= exp + 1
    ensures PlainTree(negative, digits, exp).Valid()
    ensures NumberWorth(PlainTree(negative, digits, exp)) == DigitsWorth(negative, digits, exp)
  {
    hide Worth, Pow10, DigitsValue;
    var m: int := DigitsValue(digits);
    var k := exp + 1 - |digits|;
    ZerosAfter(digits, k + 1);
    ZerosEnd(k + 1);
    assert Zeros(k + 1) == Zeros(k) + [ZERO];
    assert digits + Zeros(k) + [ZERO] == digits + Zeros(k + 1);
    WorthShift(if negative then -m else m, k + 1, -1);
    Negate(m, Pow10(k + 1));
  }

  lemma Negate(m: int, p: int)
    ensures (-m) * p == -(m * p)
  {
  }

  lemma SmallIsExact(negative: bool, digits: bytes, zeros: nat)
    requires DigitRun(digits)
    ensures SmallTree(negative, digits, zeros).Valid()
    ensures NumberWorth(SmallTree(negative, digits, zeros)) == DigitsWorth(negative, digits, -(zeros as int) - 1)
  {
    hide Worth;
    ZerosValue(zeros, digits);
    ZerosValue(zeros + 1, digits);
    assert [ZERO] + (Zeros(zeros) + digits) == Zeros(zeros + 1) + digits;
  }

  lemma PowerIsExact(negative: bool, digits: bytes, exp: int)
    requires DigitRun(digits) && digits[0] != ZERO
    ensures PowerTree(negative, digits, exp).Valid()
    ensures NumberWorth(PowerTree(negative, digits, exp)) == DigitsWorth(negative, digits, exp)
  {
    hide Worth;
    NatTextValue(if exp < 0 then -exp else exp);
    if |digits| > 1 {
      assert digits[..1] + digits[1..] == digits;
    } else {
      assert digits[..1] + [] == digits;
    }
  }

  /**
   The layout is exact, whatever the digits and the exponent: the text is a number of the JSON
   grammar with a point or an exponent, and denotes the value of the digits it was made from.
   */
  lemma LayoutIsExact(negative: bool, sci: bytes, exp: int)
    requires DigitRun(sci) && sci[0] != ZERO
    ensures Shortest(sci) != []
    ensures var num := LayoutTree(negative, Shortest(sci), exp);
            && num.Valid() && (num.frac.Some? || num.exp.Some?)
            && NumberWorth(num) == DigitsWorth(negative, sci, exp)
  {
    hide Shortest, NumberWorth, DigitsWorth, NumberTree.Valid;
    ShortestKeeps(negative, sci, exp);
    if 0 <= exp < 21 {
      PlainIsExact(negative, Shortest(sci), exp);
    } else if -6 <= exp < 0 {
      SmallIsExact(negative, Shortest(sci), -exp - 1);
    } else {
      PowerIsExact(negative, Shortest(sci), exp);
    }
  }

  // ----- Which layout -----

  lemma TenPositive(e: int)
    ensures Ten(e) > 0.0
  {
  }

  lemma {:induction false} TenGrows(a: int, b: int)
    requires a <= b
    ensures Ten(a) <= Ten(b) && (a < b ==> Ten(a) < Ten(b))
    decreases b - a
  {
    if a < b {
      TenGrows(a + 1, b);
      TenStep(a);
      TenPositive(a);
    }
  }

  lemma Scale(x: int, y: int, t: real)
    requires t > 0.0
    ensures x <= y ==> x as real * t <= y as real * t
    ensures x < y ==> x as real * t < y as real * t
  {
  }

  /** `d.ddd * 10^exp` lies between that power of ten and the next. */
  lemma Magnitude(sci: bytes, exp: int)
    requires DigitRun(sci) && sci[0] != ZERO
    ensures Ten(exp) <= DigitsWorth(false, sci, exp) < Ten(exp + 1)
  {
    hide Worth, Ten, Pow10, DigitsValue;
    var n := |sci|;
    var m: int := DigitsValue(sci);
    var e := exp - n + 1;
    DigitsBound(sci);
    WorthShift(1, n - 1, e);
    WorthShift(1, n, e);
    WorthGrows(Pow10(n - 1), m, e);
    WorthGrows(m, Pow10(n), e);
    OneTen(exp);
    OneTen(exp + 1);
    assert 1 * Pow10(n - 1) == Pow10(n - 1) && 1 * Pow10(n) == Pow10(n);
  }

  lemma WorthGrows(x: int, y: int, e: int)
    ensures x <= y ==> Worth(x, e) <= Worth(y, e)
    ensures x < y ==> Worth(x, e) < Worth(y, e)
  {
    TenPositive(e);
    Scale(x, y, Ten(e));
  }

  lemma OneTen(e: int)
    ensures Worth(1, e) == Ten(e)
  {
  }

  lemma {:induction false} ShortestEnd(digits: bytes)
    requires digits != []
    ensures var d := Shortest(digits); d != [] && (|d| == 1 || d[|d| - 1] != ZERO)
  {
    if |digits| > 1 && digits[|digits| - 1] == ZERO {
      ShortestEnd(digits[..|digits| - 1]);
    }
  }

  /** Decimals that are there to mean something: a lone zero, or no zero at the end. */
  predicate Needed(frac: bytes)
  {
    frac == [ZERO] || (frac != [] && frac[|frac| - 1] != ZERO)
  }

  /**
   Plain decimals, with a point, for magnitudes from 1e-6 up to but not including 1e21; outside,
   one digit before the point, which is left out with nothing after it, and a signed exponent
   without leading zeros. No zeros at the end, but for the one that has to follow a point.
   */
  lemma LayoutShape(negative: bool, sci: bytes, exp: int)
    requires DigitRun(sci) && sci[0] != ZERO
    ensures Shortest(sci) != []
    ensures var num := LayoutTree(negative, Shortest(sci), exp);
            && num.minus == negative
            && (num.exp.None? <==> Ten(-6) <= DigitsWorth(false, sci, exp) < Ten(21))
            && (num.exp.None? ==> num.frac.Some? && Needed(num.frac.value))
            && (num.exp.Some? ==>
                  && |num.whole| == 1 && num.whole[0] != ZERO
                  && (num.frac.Some? ==> Needed(num.frac.value) && num.frac.value != [ZERO])
                  && num.exp.value == Exponent(101, Some(if exp < 0 then MINUS else PLUS), NatText(if exp < 0 then -exp else exp)))
  {
    hide DigitsWorth, Ten;
    ShortestEnd(sci);
    ShortestKeeps(negative, sci, exp);
    Magnitude(sci, exp);
    if exp >= -6 {
      TenGrows(-6, exp);
    } else {
      TenGrows(exp + 1, -6);
    }
    if exp < 21 {
      TenGrows(exp + 1, 21);
    } else {
      TenGrows(21, exp);
    }
  }

  /** Doubles have exponents of three digits at most, so 64 bytes are enough. */
  lemma LayoutFits(negative: bool, digits: bytes, exp: int)
    requires 0 < |digits| <= 17 && -999 <= exp <= 999
    ensures |LayoutTree(negative, digits, exp).Text()| <= 64
  {
    var size: nat := if exp < 0 then -exp else exp;
    if size >= 10 {
      assert size >= 100 ==> NatText(size / 10 / 10) == [48 + size / 100];
      assert |NatText(size)| <= 3;
    }
  }

  /** The layout code: the C loops, writing into `out`. */
  method Layout(negative: bool, sci: bytes, exp: int) returns (out: bytes)
    requires DigitRun(sci) && sci[0] != ZERO && INT64_MIN < exp <= INT64_MAX
    ensures Shortest(sci) != [] && out == LayoutTree(negative, Shortest(sci), exp).Text()
  {
    hide NumberTree.Text, PlainTree, SmallTree, PowerTree;
    var digits := TrimDigits(sci);
    if exp >= -6 && exp < 21 {
      if exp >= 0 {
        out := LayoutPlain(negative, digits, exp);
      } else {
        out := LayoutSmall(negative, digits, -exp - 1);
      }
    } else {
      out := LayoutPower(negative, digits, exp);
    }
  }

  method TrimDigits(sci: bytes) returns (digits: bytes)
    requires DigitRun(sci)
    ensures digits == Shortest(sci) && |digits| > 0
  {
    var nd := |sci|;
    assert sci[..nd] == sci;
    while nd > 1 && sci[nd - 1] == 48
      invariant 1 <= nd <= |sci| && Shortest(sci[..nd]) == Shortest(sci)
    {
      assert sci[..nd][..nd - 1] == sci[..nd - 1];
      nd := nd - 1;
    }
    digits := sci[..nd];
  }

  method LayoutPlain(negative: bool, digits: bytes, exp: nat) returns (out: bytes)
    requires |digits| > 0
    ensures out == PlainTree(negative, digits, exp).Text()
  {
    hide NumberTree.Text;
    out := if negative then [45] else [];
    var whole := WriteWhole(digits, exp);
    out := out + whole;
    out := out + [46];
    if |digits| > exp + 1 {
      out := out + digits[exp + 1..];
    } else {
      out := out + [48];
    }
    PointText(PlainTree(negative, digits, exp));
  }

  lemma PointText(num: NumberTree)
    requires num.frac.Some? && num.exp.None?
    ensures num.Text() == num.SignText() + num.whole + [46] + num.frac.value
  {
  }

  method LayoutSmall(negative: bool, digits: bytes, zeros: nat) returns (out: bytes)
    ensures out == SmallTree(negative, digits, zeros).Text()
  {
    hide NumberTree.Text, Zeros;
    out := if negative then [45] else [];
    out := out + [48];
    out := out + [46];
    var run := WriteZeros(zeros);
    out := out + run;
    out := out + digits;
    PointText(SmallTree(negative, digits, zeros));
  }

  method LayoutPower(negative: bool, digits: bytes, exp: int) returns (out: bytes)
    requires |digits| > 0 && INT64_MIN < exp <= INT64_MAX
    ensures out == PowerTree(negative, digits, exp).Text()
  {
    out := if negative then [45] else [];
    out := out + [digits[0]];
    assert digits[..1] == [digits[0]];
    if |digits| > 1 {
      out := out + [46];
      out := out + digits[1..];
    }
    ghost var num := PowerTree(negative, digits, exp);
    assert out == num.SignText() + num.whole + num.FracText();
    var power := ToStr(if exp < 0 then -exp else exp);
    var mark: bytes := [101, if exp < 0 then 45 else 43];
    out := out + mark + power;
    PowerText(num, mark, power);
  }

  lemma PowerText(num: NumberTree, mark: bytes, power: bytes)
    requires num.exp.Some? && num.exp.value.sign.Some? && power == num.exp.value.digits
    requires mark == [num.exp.value.mark, num.exp.value.sign.value]
    ensures num.Text() == num.SignText() + num.whole + num.FracText() + mark + power
  {
    hide NumberTree.SignText, NumberTree.FracText;
    Flatten(num.SignText(), num.whole, num.FracText(), mark[0], mark[1], power);
  }

  lemma Flatten(sign: bytes, whole: bytes, frac: bytes, mark: byte, expSign: byte, power: bytes)
    ensures sign + (whole + (frac + ([mark] + ([expSign] + power)))) == sign + whole + frac + [mark, expSign] + power
  {
  }

  /** The places before the point, filled up with zeros when the digits run out. */
  method WriteWhole(digits: bytes, exp: nat) returns (out: bytes)
    ensures out == if |digits| > exp + 1 then digits[..exp + 1] else digits + Zeros(exp + 1 - |digits|)
  {
    out := [];
    for i := 0 to exp + 1
      invariant out == if i <= |digits| then digits[..i] else digits + Zeros(i - |digits|)
    {
      if i >= |digits| {
        ZerosEnd(i + 1 - |digits|);
        assert Zeros(i + 1 - |digits|) == Zeros(i - |digits|) + [ZERO];
      }
      out := out + [if i < |digits| then digits[i] else 48];
    }
  }

  method WriteZeros(n: nat) returns (out: bytes)
    ensures out == Zeros(n)
  {
    out := [];
    for i := 0 to n
      invariant out == Zeros(i)
    {
      ZerosEnd(i + 1);
      assert Zeros(i + 1) == Zeros(i) + [ZERO];
      out := out + [48];
    }
  }
}
