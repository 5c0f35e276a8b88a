/** `int64.to_str` and `str.parse_int` (stdlib/primitives/int64.kod, stdlib/primitives/str.kod). */
module DecimalText {
  import opened Kod
  import opened ByteText

  const MINUS: byte := 45
  const PLUS: byte := 43
  const ZERO: byte := 48

  predicate IsDigit(c: int)
  {
    48 <= c <= 57
  }

  predicate AllDigits(s: bytes)
  {
    forall i :: 0 <= i < |s| ==> IsDigit(s[i])
  }

  /** The number a string of decimal digits denotes. */
  function DigitsValue(s: bytes): nat
    requires AllDigits(s)
  {
    if s == [] then 0 else 10 * DigitsValue(s[..|s| - 1]) + (s[|s| - 1] - 48)
  }

  /** The canonical decimal text: no leading zero except for zero itself. */
  function NatText(n: nat): (s: bytes)
    ensures |s| > 0 && AllDigits(s)
  {
    if n < 10 then [48 + n] else NatText(n / 10) + [48 + n % 10]
  }

  function IntText(n: int): bytes
  {
    if n < 0 then [MINUS] + NatText(-n) else NatText(n)
  }

  lemma {:induction false} NatTextValue(n: nat)
    ensures DigitsValue(NatText(n)) == n
  {
    if n >= 10 {
      NatTextValue(n / 10);
      assert NatText(n)[..|NatText(n)| - 1] == NatText(n / 10);
    } else {
      assert [48 + n][..0] == [];
    }
  }

  lemma {:induction false} NatTextLead(n: nat)
    ensures NatText(n)[0] == ZERO <==> n == 0
  {
    if n >= 10 {
      NatTextLead(n / 10);
    }
  }

  /** Canonical texts are exactly the digit strings with no superfluous leading zero. */
  lemma {:induction false} NatTextUnique(s: bytes)
    requires AllDigits(s) && |s| > 0
    requires s[0] == ZERO ==> |s| == 1
    ensures NatText(DigitsValue(s)) == s
  {
    var n := |s| - 1;
    if n == 0 {
      assert s[..0] == [];
    } else {
      NatTextUnique(s[..n]);
      NatTextLead(DigitsValue(s[..n]));
      assert DigitsValue(s[..n]) > 0;
      assert s == s[..n] + [s[n]];
    }
  }

  /** A digit string of length `k` denotes a number below `10^k`; with a nonzero lead, not below `10^(k-1)`. */
  function Pow10(k: nat): (r: nat)
    ensures r >= 1
  {
    if k == 0 then 1 else 10 * Pow10(k - 1)
  }

  lemma {:induction false} DigitsBound(s: bytes)
    requires AllDigits(s)
    ensures DigitsValue(s) < Pow10(|s|)
    ensures |s| > 0 && s[0] != ZERO ==> DigitsValue(s) >= Pow10(|s| - 1)
  {
    if s != [] {
      DigitsBound(s[..|s| - 1]);
    }
  }

  lemma {:induction false} DigitsPrefix(s: bytes, k: nat)
    requires AllDigits(s) && k < |s|
    ensures DigitsValue(s[..k + 1]) == 10 * DigitsValue(s[..k]) + (s[k] - 48)
  {
    assert s[..k + 1][..k] == s[..k];
  }

  lemma {:induction false} DigitsMonotone(s: bytes, k: nat)
    requires AllDigits(s) && k <= |s|
    ensures DigitsValue(s[..k]) <= DigitsValue(s)
    decreases |s| - k
  {
    if k < |s| {
      DigitsPrefix(s, k);
      DigitsMonotone(s, k + 1);
    } else {
      assert s[..k] == s;
    }
  }

  // ----- Zeros -----

  function Zeros(n: nat): (s: bytes)
    ensures |s| == n && AllDigits(s)
  {
    if n == 0 then [] else [ZERO] + Zeros(n - 1)
  }

  lemma {:induction false} ZerosValue(n: nat, s: bytes)
    requires AllDigits(s)
    ensures AllDigits(Zeros(n) + s) && DigitsValue(Zeros(n) + s) == DigitsValue(s)
    decreases n + |s|
  {
    var all := Zeros(n) + s;
    if s != [] {
      ZerosValue(n, s[..|s| - 1]);
      assert all[..|all| - 1] == Zeros(n) + s[..|s| - 1];
    } else if n > 0 {
      assert all == Zeros(n);
      ZerosEnd(n);
      ZerosValue(n - 1, []);
      assert Zeros(n - 1) + [] == Zeros(n - 1);
    }
  }

  lemma {:induction false} ZerosEnd(n: nat)
    requires n > 0
    ensures Zeros(n)[..n - 1] == Zeros(n - 1) && Zeros(n)[n - 1] == ZERO
  {
    if n > 1 {
      ZerosEnd(n - 1);
      assert Zeros(n)[..n - 1] == [ZERO] + Zeros(n - 1)[..n - 2];
    }
  }

  lemma {:induction false} ZerosPrefix(n: nat, k: nat)
    requires k <= n
    ensures Zeros(n)[..k] == Zeros(k)
  {
    if k > 0 {
      ZerosPrefix(n - 1, k - 1);
      assert Zeros(n)[..k] == [ZERO] + Zeros(n - 1)[..k - 1];
    }
  }

  lemma {:induction false} ZerosAfter(s: bytes, n: nat)
    requires AllDigits(s)
    ensures AllDigits(s + Zeros(n)) && DigitsValue(s + Zeros(n)) == DigitsValue(s) * Pow10(n)
    decreases n
  {
    var all := s + Zeros(n);
    if n == 0 {
      assert all == s;
    } else {
      ZerosAfter(s, n - 1);
      ZerosEnd(n);
      assert all[..|all| - 1] == s + Zeros(n - 1);
      assert 10 * (DigitsValue(s) * Pow10(n - 1)) == DigitsValue(s) * (10 * Pow10(n - 1));
    }
  }

  // ----- Runs of digits -----

  /** The end of the run of digits at `pos`. */
  function SkipDigits(src: bytes, pos: nat): (p: nat)
    requires pos <= |src|
    ensures pos <= p <= |src| && !IsDigit(Peek(src, p))
    decreases |src| - pos
  {
    if pos < |src| && IsDigit(src[pos]) then SkipDigits(src, pos + 1) else pos
  }

  lemma {:induction false} SkipDigitsOver(src: bytes, pos: nat, digits: bytes)
    requires At(src, pos, digits) && AllDigits(digits) && !IsDigit(Peek(src, pos + |digits|))
    ensures SkipDigits(src, pos) == pos + |digits|
    decreases |digits|
  {
    if digits != [] {
      AtHead(src, pos, digits);
      assert digits == digits[..1] + digits[1..];
      AtSplit(src, pos, digits[..1], digits[1..]);
      SkipDigitsOver(src, pos + 1, digits[1..]);
    }
  }

  lemma {:induction false} SkippedDigits(src: bytes, pos: nat) returns (digits: bytes)
    requires pos <= |src|
    ensures AllDigits(digits) && At(src, pos, digits) && SkipDigits(src, pos) == pos + |digits|
    decreases |src| - pos
  {
    if pos < |src| && IsDigit(src[pos]) {
      var rest := SkippedDigits(src, pos + 1);
      digits := [src[pos]] + rest;
      AtJoin(src, pos, [src[pos]], rest);
    } else {
      digits := [];
    }
  }

  // ----- parse_int and to_str -----

  predicate Signed(text: bytes)
  {
    |text| > 0 && (text[0] == MINUS || text[0] == PLUS)
  }

  function Unsigned(text: bytes): bytes
  {
    if Signed(text) then text[1..] else text
  }

  /** What `parse_int` is for: the signed number written, or none if it is not one or not an int64. */
  function ParsedInt(text: bytes): Option<int64>
  {
    var digits := Unsigned(text);
    if digits == [] || !AllDigits(digits) then None
    else
      var n: int := DigitsValue(digits);
      var n := if text[0] == MINUS then -n else n;
      if INT64_MIN <= n <= INT64_MAX then Some(n) else None
  }

  /** `text` writes `n`: digits, with a sign before them or without one, and a plus changes nothing. */
  ghost predicate Writes(text: bytes, n: int)
  {
    exists digits :: digits != [] && AllDigits(digits) && WritesWith(text, digits, n)
  }

  predicate WritesWith(text: bytes, digits: bytes, n: int)
    requires AllDigits(digits)
  {
    || ((text == digits || text == [PLUS] + digits) && n == DigitsValue(digits))
    || (text == [MINUS] + digits && n == -(DigitsValue(digits) as int))
  }

  /** `parse_int` returns a number exactly when the text writes it and it is an int64. */
  lemma ParsedIntIs(text: bytes, n: int)
    ensures INT64_MIN <= n <= INT64_MAX && Writes(text, n) <==> ParsedInt(text) == Some(n)
  {
    if ParsedInt(text) == Some(n) {
      var digits := Unsigned(text);
      assert Signed(text) ==> text == [text[0]] + digits;
      assert WritesWith(text, digits, n);
    }
    if INT64_MIN <= n <= INT64_MAX && Writes(text, n) {
      var digits :| digits != [] && AllDigits(digits) && WritesWith(text, digits, n);
      assert IsDigit(digits[0]);
      assert Unsigned(text) == digits;
    }
  }

  /** Reading the canonical text back gives the number. */
  lemma ParsedIntText(n: int64)
    ensures ParsedInt(IntText(n)) == Some(n)
  {
    var m: int := n;
    if m < 0 {
      NatTextValue(-m);
      assert IntText(n)[1..] == NatText(-m);
    } else {
      NatTextValue(n);
      assert IsDigit(NatText(n)[0]);
    }
  }

  /** The digit loop of `to_str`, which takes digits off the signed value so that `-2^63` works. */
  method ToStr(n: int64) returns (r: bytes)
    ensures r == IntText(n)
  {
    if n == 0 {
      return [48];
    }
    var rest: int := n;
    ghost var size: nat := if rest < 0 then -rest else rest;
    r := [];
    while rest != 0
      invariant n < 0 ==> n <= rest <= 0
      invariant n > 0 ==> 0 <= rest <= n
      invariant r != [] || rest == n
      invariant NatText(size) == (if rest == 0 then [] else NatText(if rest < 0 then -rest else rest)) + r
      decreases if rest < 0 then -rest else rest
    {
      var d := TruncMod(rest, 10);
      if d < 0 {
        d := 0 - d;
      }
      r := [48 + d] + r;
      rest := TruncDiv(rest, 10);
    }
    if n < 0 {
      r := [45] + r;
    }
  }

  /** The accumulation loop of `parse_int`: negated, with a range test before every step. */
  method ParseInt(text: bytes) returns (r: Option<int64>)
    ensures r == ParsedInt(text)
  {
    var n := |text|;
    var i := 0;
    var negative := false;
    if n > 0 && (text[0] == 45 || text[0] == 43) {
      negative := text[0] == 45;
      i := 1;
    }
    if i == n {
      return None;
    }
    ghost var start := i;
    ghost var digits := Unsigned(text);
    var acc: int := 0;
    while i < n
      invariant start <= i <= n
      invariant AllDigits(digits[..i - start])
      invariant -acc == DigitsValue(digits[..i - start])
      invariant INT64_MIN <= acc <= 0
    {
      var c: int := text[i];
      var d := c - 48;
      assert digits[i - start] == text[i];
      if d < 0 || d > 9 {
        return None;
      }
      ghost var k := i - start;
      assert AllDigits(digits[..k + 1]);
      assert digits[..k + 1][..k] == digits[..k];
      assert DigitsValue(digits[..k + 1]) == -(10 * acc) + d;
      if acc < -922337203685477580 {
        TooLarge(text, k + 1);
        return None;
      }
      assert INT64_MIN <= acc * 10 <= 0;
      acc := acc * 10;
      if acc < INT64_MIN + d {
        TooLarge(text, k + 1);
        return None;
      }
      acc := acc - d;
      assert INT64_MIN <= acc <= 0;
      i := i + 1;
    }
    assert digits[..i - start] == digits;
    if negative {
      return Some(acc);
    }
    if acc == INT64_MIN {
      return None;
    }
    return Some(0 - acc);
  }

  lemma TooLarge(text: bytes, k: nat)
    requires k <= |Unsigned(text)| && AllDigits(Unsigned(text)[..k])
    requires DigitsValue(Unsigned(text)[..k]) > -INT64_MIN
    ensures ParsedInt(text) == None
  {
    if AllDigits(Unsigned(text)) {
      DigitsMonotone(Unsigned(text), k);
    }
  }
}
