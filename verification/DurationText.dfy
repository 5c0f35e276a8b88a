/** `Duration.to_str` and `decimal` of stdlib/time.kod, against what a text such as `1h2m3.5s` means. */
module DurationText {
  import opened Kod
  import opened ByteText
  import opened DecimalText
  import opened Timestamp
  import opened TimestampText

  // ----- What a duration text means -----

  datatype Unit = Hours | Minutes | Seconds | Millis | Micros | Nanos

  function UnitText(u: Unit): bytes
  {
    match u
    case Hours => [104]
    case Minutes => [109]
    case Seconds => [115]
    case Millis => [109, 115]
    case Micros => [117, 115]
    case Nanos => [110, 115]
  }

  /** How many decimals of the unit are whole nanoseconds; hours and minutes are written without any. */
  function UnitDecimals(u: Unit): nat
  {
    match u
    case Hours => 0
    case Minutes => 0
    case Seconds => 9
    case Millis => 6
    case Micros => 3
    case Nanos => 0
  }

  function UnitNanos(u: Unit): nat
  {
    match u
    case Hours => 3_600_000_000_000
    case Minutes => 60_000_000_000
    case Seconds => 1_000_000_000
    case Millis => 1_000_000
    case Micros => 1_000
    case Nanos => 1
  }

  /** A number, with decimals or without, and its unit. */
  datatype Part = Part(whole: bytes, frac: bytes, unit: Unit) {
    predicate Valid()
    {
      && |whole| > 0 && AllDigits(whole) && AllDigits(frac) && |frac| <= UnitDecimals(unit)
    }

    function FracText(): bytes
    {
      if frac == [] then [] else [DOT] + frac
    }

    function Text(): bytes
    {
      whole + (FracText() + UnitText(unit))
    }

    /** Nanoseconds. */
    function Worth(): nat
      requires Valid()
    {
      FilledUp(frac, UnitDecimals(unit) - |frac|);
      DigitsValue(whole) * UnitNanos(unit) + DigitsValue(frac + Zeros(UnitDecimals(unit) - |frac|))
    }
  }

  lemma FilledUp(frac: bytes, n: nat)
    requires AllDigits(frac)
    ensures AllDigits(frac + Zeros(n))
  {
    hide Zeros;
  }

  predicate ValidParts(ps: seq<Part>)
  {
    forall i :: 0 <= i < |ps| ==> ps[i].Valid()
  }

  function PartsText(ps: seq<Part>): bytes
  {
    if ps == [] then [] else ps[0].Text() + PartsText(ps[1..])
  }

  function PartsWorth(ps: seq<Part>): nat
    requires ValidParts(ps)
  {
    if ps == [] then 0 else ps[0].Worth() + PartsWorth(ps[1..])
  }

  function SignText(ns: int): bytes
  {
    if ns < 0 then [MINUS] else []
  }

  /** `text` is a duration's text: an optional sign and parts that add up to it. */
  ghost predicate Means(text: bytes, ns: int)
  {
    exists ps :: ps != [] && ValidParts(ps) && text == SignText(ns) + PartsText(ps) && PartsWorth(ps) == if ns < 0 then -ns else ns
  }

  // ----- A text has one meaning -----

  predicate DigitNext(s: bytes)
  {
    s == [] || IsDigit(s[0])
  }

  lemma UnitIsUnique(u: Unit, v: Unit, a: bytes, b: bytes)
    requires UnitText(u) + a == UnitText(v) + b && DigitNext(a) && DigitNext(b)
    ensures u == v && a == b
  {
    var s := UnitText(u) + a;
    assert s[0] == UnitText(u)[0] == UnitText(v)[0];
    assert |UnitText(u)| > 1 ==> s[1] == UnitText(u)[1];
    assert |UnitText(v)| > 1 ==> s[1] == UnitText(v)[1];
    assert |UnitText(u)| == 1 && a != [] ==> s[1] == a[0];
    assert |UnitText(v)| == 1 && b != [] ==> s[1] == b[0];
    assert s[|UnitText(u)|..] == a && s[|UnitText(v)|..] == b;
  }

  /** A run of digits ends where something else begins. */
  lemma DigitsAreUnique(d: bytes, e: bytes, a: bytes, b: bytes)
    requires AllDigits(d) && AllDigits(e) && d + a == e + b
    requires a != [] && b != [] && !IsDigit(a[0]) && !IsDigit(b[0])
    ensures d == e && a == b
  {
    var s := d + a;
    assert At(s, 0, d) && At(s, 0, e) by {
      assert forall i :: 0 <= i < |e| ==> s[i] == (e + b)[i];
    }
    assert s[|d|] == a[0] && (e + b)[|e|] == b[0];
    SkipDigitsOver(s, 0, d);
    SkipDigitsOver(s, 0, e);
    assert d == s[..|d|] && e == (e + b)[..|e|];
    assert a == s[|d|..] && b == (e + b)[|e|..];
  }

  predicate NumberOver(s: bytes)
  {
    s != [] && !IsDigit(s[0]) && s[0] != DOT
  }

  lemma UnitStarts(u: Unit, a: bytes)
    ensures NumberOver(UnitText(u) + a)
  {
  }

  lemma FracIsUnique(p: bytes, q: bytes, a: bytes, b: bytes)
    requires AllDigits(p) && AllDigits(q) && NumberOver(a) && NumberOver(b)
    requires (if p == [] then [] else [DOT] + p) + a == (if q == [] then [] else [DOT] + q) + b
    ensures p == q && a == b
  {
    var s := (if p == [] then [] else [DOT] + p) + a;
    assert p == [] <==> s[0] != DOT;
    assert q == [] <==> s[0] != DOT;
    if p == [] {
      assert s == a == b;
    } else {
      assert s[1..] == p + a == q + b;
      DigitsAreUnique(p, q, a, b);
    }
  }

  lemma AfterWhole(frac: bytes, a: bytes)
    requires NumberOver(a)
    ensures var t := (if frac == [] then [] else [DOT] + frac) + a; t != [] && !IsDigit(t[0])
  {
  }

  lemma PartIsUnique(p: Part, q: Part, a: bytes, b: bytes)
    requires p.Valid() && q.Valid() && DigitNext(a) && DigitNext(b)
    requires p.Text() + a == q.Text() + b
    ensures p == q && a == b
  {
    hide UnitText, AllDigits, NumberOver, IsDigit, DigitNext;
    var pu, qu := UnitText(p.unit) + a, UnitText(q.unit) + b;
    UnitStarts(p.unit, a);
    UnitStarts(q.unit, b);
    var pt, qt := p.FracText() + pu, q.FracText() + qu;
    assert p.Text() + a == p.whole + pt && q.Text() + b == q.whole + qt;
    AfterWhole(p.frac, pu);
    AfterWhole(q.frac, qu);
    DigitsAreUnique(p.whole, q.whole, pt, qt);
    FracIsUnique(p.frac, q.frac, pu, qu);
    UnitIsUnique(p.unit, q.unit, a, b);
  }

  lemma PartsStart(ps: seq<Part>)
    requires ValidParts(ps)
    ensures DigitNext(PartsText(ps)) && (PartsText(ps) == [] <==> ps == [])
  {
    if ps != [] {
      assert PartsText(ps)[0] == ps[0].whole[0];
    }
  }

  lemma {:induction false} PartsAreUnique(ps: seq<Part>, qs: seq<Part>)
    requires ValidParts(ps) && ValidParts(qs) && PartsText(ps) == PartsText(qs)
    ensures ps == qs
    decreases |ps|
  {
    hide Part.Text, Part.Valid, DigitNext;
    PartsStart(ps);
    PartsStart(qs);
    if ps != [] {
      PartsStart(ps[1..]);
      PartsStart(qs[1..]);
      PartIsUnique(ps[0], qs[0], PartsText(ps[1..]), PartsText(qs[1..]));
      PartsAreUnique(ps[1..], qs[1..]);
      assert ps == [ps[0]] + ps[1..] && qs == [qs[0]] + qs[1..];
    }
  }

  /** No text means two different durations. */
  lemma MeaningIsUnique(text: bytes, a: int, b: int)
    requires Means(text, a) && Means(text, b)
    ensures a == b
  {
    var ps :| ps != [] && ValidParts(ps) && text == SignText(a) + PartsText(ps) && PartsWorth(ps) == if a < 0 then -a else a;
    var qs :| qs != [] && ValidParts(qs) && text == SignText(b) + PartsText(qs) && PartsWorth(qs) == if b < 0 then -b else b;
    PartsStart(ps);
    PartsStart(qs);
    assert a < 0 <==> text[0] == MINUS;
    assert b < 0 <==> text[0] == MINUS;
    assert PartsText(ps) == text[|SignText(a)|..] && PartsText(qs) == text[|SignText(b)|..];
    PartsAreUnique(ps, qs);
  }

  // ----- What to_str writes -----

  function Decimals(frac: nat, k: nat): bytes
  {
    if frac == 0 then [] else Trim(Pad(frac, k))
  }

  /** `decimal`, with the unit after it. */
  function DecimalPart(whole: nat, frac: nat, u: Unit): Part
  {
    Part(NatText(whole), Decimals(frac, UnitDecimals(u)), u)
  }

  /** The parts `to_str` writes for `n` nanoseconds. */
  function PartsOf(n: nat): seq<Part>
  {
    if n == 0 then [DecimalPart(0, 0, Seconds)]
    else if n < 1_000 then [DecimalPart(n, 0, Nanos)]
    else if n < 1_000_000 then [DecimalPart(n / 1_000, n % 1_000, Micros)]
    else if n < 1_000_000_000 then [DecimalPart(n / 1_000_000, n % 1_000_000, Millis)]
    else
      var s := n / 1_000_000_000;
      var last := DecimalPart(s % 60, n % 1_000_000_000, Seconds);
      if s / 3600 > 0 then [DecimalPart(s / 3600, 0, Hours), DecimalPart(s % 3600 / 60, 0, Minutes), last]
      else if s % 3600 / 60 > 0 then [DecimalPart(s % 3600 / 60, 0, Minutes), last]
      else [last]
  }

  /** `to_str`, with negation in 64 bits: the smallest int64 stays negative and falls in the first branch. */
  function TextOf(ns: int64): bytes
  {
    var n := if ns < 0 then Wrap(0 - ns) else ns;
    SignText(ns) + if n < 0 then IntText(n) + UnitText(Nanos) else PartsText(PartsOf(n))
  }

  lemma DecimalsMean(frac: nat, k: nat)
    requires k > 0 && frac < Pow10(k)
    ensures var d := Decimals(frac, k); |d| <= k && AllDigits(d) && AllDigits(d + Zeros(k - |d|)) && DigitsValue(d + Zeros(k - |d|)) == frac
  {
    hide Pad, Trim, Fixed;
    if frac == 0 {
      ZerosValue(k, []);
      assert Zeros(k) + [] == Zeros(k) == [] + Zeros(k);
    } else {
      PadIsFixed(frac, k);
      FixedValue(frac, k);
      TrimKeeps(Fixed(frac, k));
    }
  }

  /** No decimals of the same worth are fewer than those written, and these never end in a zero. */
  lemma DecimalsAreShortest(frac: nat, k: nat, f: bytes)
    requires frac < Pow10(k) && AllDigits(f) && |f| <= k
    requires AllDigits(f + Zeros(k - |f|)) && DigitsValue(f + Zeros(k - |f|)) == frac
    ensures |Decimals(frac, k)| <= |f|
  {
    hide Pad, Trim, Fixed, Zeros, Pow10;
    NoDecimals(Nanos);
    if frac > 0 {
      PadIsFixed(frac, k);
      FixedUnique(f + Zeros(k - |f|));
      TrimIsShortest(Fixed(frac, k), f, k - |f|);
    }
  }

  lemma DecimalsEnd(frac: nat, k: nat)
    ensures Decimals(frac, k) == [] <==> frac == 0
    ensures var d := Decimals(frac, k); d != [] ==> d[|d| - 1] != ZERO
  {
    hide Pad, Trim;
    if frac > 0 {
      PadValue(frac, k);
      TrimLeavesDigit(Pad(frac, k));
      TrimmedEnd(Pad(frac, k));
    }
  }

  lemma DecimalPartMeans(whole: nat, frac: nat, u: Unit)
    requires frac < Pow10(UnitDecimals(u))
    ensures DecimalPart(whole, frac, u).Valid() && DecimalPart(whole, frac, u).Worth() == whole * UnitNanos(u) + frac
  {
    hide Decimals, Pow10, NatText, DigitsValue;
    NatTextValue(whole);
    if UnitDecimals(u) > 0 {
      DecimalsMean(frac, UnitDecimals(u));
    } else {
      NoDecimals(u);
      assert frac == 0 by { assert Pow10(0) == 1 by { NoDecimals(u); } }
    }
  }

  lemma NoDecimals(u: Unit)
    ensures Decimals(0, UnitDecimals(u)) == [] && Pow10(0) == 1
    ensures DigitsValue([] + Zeros(0)) == 0
  {
  }

  lemma Powers()
    ensures Pow10(3) == 1_000 && Pow10(6) == 1_000_000 && Pow10(9) == 1_000_000_000
  {
    Pow10Nine();
    assert Pow10(3) == 10 * Pow10(2) && Pow10(2) == 10 * Pow10(1);
    assert Pow10(6) == 10 * Pow10(5) && Pow10(5) == 10 * Pow10(4);
  }

  lemma OneMeans(whole: nat, frac: nat, u: Unit)
    requires frac < Pow10(UnitDecimals(u))
    ensures var ps := [DecimalPart(whole, frac, u)]; ValidParts(ps) && PartsWorth(ps) == whole * UnitNanos(u) + frac
  {
    hide DecimalPart, Part.Valid, Part.Worth;
    DecimalPartMeans(whole, frac, u);
    Sum1([DecimalPart(whole, frac, u)]);
  }

  lemma ClockMeans(h: nat, m: nat, s: nat, f: nat)
    requires f < 1_000_000_000
    ensures var ps := [DecimalPart(m, 0, Minutes), DecimalPart(s, f, Seconds)];
            ValidParts(ps) && PartsWorth(ps) == (m * 60 + s) * 1_000_000_000 + f
    ensures var ps := [DecimalPart(h, 0, Hours), DecimalPart(m, 0, Minutes), DecimalPart(s, f, Seconds)];
            ValidParts(ps) && PartsWorth(ps) == (h * 3600 + m * 60 + s) * 1_000_000_000 + f
  {
    hide DecimalPart, Part.Valid, Part.Worth, PartsWorth, Pow10;
    Powers();
    DecimalPartMeans(s, f, Seconds);
    DecimalPartMeans(m, 0, Minutes);
    DecimalPartMeans(h, 0, Hours);
    Sum2([DecimalPart(m, 0, Minutes), DecimalPart(s, f, Seconds)]);
    Sum3([DecimalPart(h, 0, Hours), DecimalPart(m, 0, Minutes), DecimalPart(s, f, Seconds)]);
  }

  /** The parts written add up to the duration. */
  lemma PartsOfMean(n: nat)
    ensures PartsOf(n) != [] && ValidParts(PartsOf(n)) && PartsWorth(PartsOf(n)) == n
  {
    hide DecimalPart, ValidParts, PartsWorth, Pow10;
    Powers();
    var s := n / 1_000_000_000;
    if n == 0 {
      OneMeans(0, 0, Seconds);
    } else if n < 1_000 {
      OneMeans(n, 0, Nanos);
    } else if n < 1_000_000 {
      OneMeans(n / 1_000, n % 1_000, Micros);
    } else if n < 1_000_000_000 {
      OneMeans(n / 1_000_000, n % 1_000_000, Millis);
    } else {
      OneMeans(s % 60, n % 1_000_000_000, Seconds);
      ClockMeans(s / 3600, s % 3600 / 60, s % 60, n % 1_000_000_000);
      Clock(s);
    }
  }

  /** The next larger unit. */
  function Larger(u: Unit): Option<Unit>
  {
    match u
    case Nanos => Some(Micros)
    case Micros => Some(Millis)
    case Millis => Some(Seconds)
    case Seconds => Some(Minutes)
    case Minutes => Some(Hours)
    case Hours => None
  }

  /** Less than one of the next larger unit. */
  predicate Reduced(p: Part)
    requires p.Valid()
  {
    Larger(p.unit).Some? ==> p.Worth() < UnitNanos(Larger(p.unit).value)
  }

  /**
   The first unit is the largest that goes into the duration; after hours come minutes and seconds,
   after minutes seconds, and after anything smaller nothing; and no part amounts to one of the next
   larger unit. Zero is no seconds.
   */
  lemma LargestUnitFirst(n: nat)
    ensures var ps := PartsOf(n);
            && ps != [] && ValidParts(ps)
            && (n == 0 ==> ps[0].unit == Seconds)
            && (n > 0 ==> UnitNanos(ps[0].unit) <= n && (Larger(ps[0].unit).Some? ==> n < UnitNanos(Larger(ps[0].unit).value)))
            && |ps| == (if ps[0].unit == Hours then 3 else if ps[0].unit == Minutes then 2 else 1)
            && ps[|ps| - 1].unit != Hours && ps[|ps| - 1].unit != Minutes
            && (|ps| == 3 ==> ps[1].unit == Minutes) && (|ps| > 1 ==> ps[|ps| - 1].unit == Seconds)
            && forall i :: 0 <= i < |ps| ==> Reduced(ps[i])
  {
    hide DecimalPart, PartsWorth, Pow10, Part.Worth, Part.Valid;
    PartsOfMean(n);
    Powers();
    var s := n / 1_000_000_000;
    if n == 0 {
      DecimalPartMeans(0, 0, Seconds);
      UnitOf(0, 0, Seconds);
    } else if n < 1_000 {
      DecimalPartMeans(n, 0, Nanos);
      UnitOf(n, 0, Nanos);
    } else if n < 1_000_000 {
      DecimalPartMeans(n / 1_000, n % 1_000, Micros);
      UnitOf(n / 1_000, n % 1_000, Micros);
    } else if n < 1_000_000_000 {
      DecimalPartMeans(n / 1_000_000, n % 1_000_000, Millis);
      UnitOf(n / 1_000_000, n % 1_000_000, Millis);
    } else {
      DecimalPartMeans(s % 60, n % 1_000_000_000, Seconds);
      DecimalPartMeans(s % 3600 / 60, 0, Minutes);
      DecimalPartMeans(s / 3600, 0, Hours);
      UnitOf(s % 60, n % 1_000_000_000, Seconds);
      UnitOf(s % 3600 / 60, 0, Minutes);
      UnitOf(s / 3600, 0, Hours);
      Clock(s);
    }
  }

  lemma UnitOf(whole: nat, frac: nat, u: Unit)
    ensures DecimalPart(whole, frac, u).unit == u
  {
  }

  lemma Clock(s: nat)
    ensures s == s / 3600 * 3600 + s % 3600 / 60 * 60 + s % 60
  {
  }

  lemma Sum1(ps: seq<Part>)
    requires ValidParts(ps)
    ensures |ps| == 1 ==> PartsWorth(ps) == ps[0].Worth()
  {
  }

  lemma Sum2(ps: seq<Part>)
    requires ValidParts(ps)
    ensures |ps| == 2 ==> PartsWorth(ps) == ps[0].Worth() + ps[1].Worth()
  {
    if |ps| == 2 {
      Sum1(ps[1..]);
    }
  }

  lemma Sum3(ps: seq<Part>)
    requires ValidParts(ps)
    ensures |ps| == 3 ==> PartsWorth(ps) == ps[0].Worth() + ps[1].Worth() + ps[2].Worth()
  {
    if |ps| == 3 {
      Sum2(ps[1..]);
    }
  }

  /** `to_str` writes a text that means the duration, for every one but the smallest int64. */
  lemma TextMeans(ns: int64)
    ensures Means(TextOf(ns), ns) <==> ns != INT64_MIN
  {
    hide TextOf, Means;
    if ns != INT64_MIN {
      TextMeansIt(ns);
    } else {
      SmallestText();
      if Means(TextOf(ns), ns) {
        DigitAfterSign(TextOf(ns), ns);
      }
    }
  }

  lemma DigitAfterSign(text: bytes, ns: int)
    requires ns < 0 && Means(text, ns)
    ensures |text| > 1 && text[1] != MINUS
  {
    hide PartsWorth, PartsText, ValidParts;
    var ps :| ps != [] && ValidParts(ps) && text == SignText(ns) + PartsText(ps) && PartsWorth(ps) == if ns < 0 then -ns else ns;
    PartsStart(ps);
  }

  lemma TextMeansIt(ns: int64)
    requires ns != INT64_MIN
    ensures Means(TextOf(ns), ns)
  {
    hide PartsOf, PartsWorth, ValidParts;
    var n: nat := if ns < 0 then 0 - ns else ns;
    PartsOfMean(n);
    assert TextOf(ns) == SignText(ns) + PartsText(PartsOf(n));
  }

  lemma SmallestText()
    ensures |TextOf(INT64_MIN)| > 1 && TextOf(INT64_MIN)[1] == MINUS
  {
    hide NatText, PartsText, PartsOf;
    assert Wrap(0 - INT64_MIN) == INT64_MIN;
    assert IntText(INT64_MIN)[0] == MINUS;
    assert TextOf(INT64_MIN) == [MINUS] + (IntText(INT64_MIN) + UnitText(Nanos));
  }

  /** Different durations have different texts, the smallest included. */
  lemma TextIsInjective(a: int64, b: int64)
    requires TextOf(a) == TextOf(b)
    ensures a == b
  {
    hide TextOf, Means;
    TextMeans(a);
    TextMeans(b);
    if a != INT64_MIN && b != INT64_MIN {
      MeaningIsUnique(TextOf(a), a, b);
    } else if a != INT64_MIN {
      SmallestMeansNothing(a);
    } else if b != INT64_MIN {
      SmallestMeansNothing(b);
    }
  }

  lemma SmallestMeansNothing(a: int64)
    requires a != INT64_MIN
    ensures TextOf(a) != TextOf(INT64_MIN)
  {
    hide PartsOf;
    var n: nat := if a < 0 then 0 - a else a;
    PartsOfMean(n);
    PartsStart(PartsOf(n));
    assert TextOf(a) == SignText(a) + PartsText(PartsOf(n));
    SmallestText();
    assert a >= 0 ==> TextOf(a)[0] == PartsText(PartsOf(n))[0];
    assert a < 0 ==> TextOf(a)[1] == PartsText(PartsOf(n))[0];
  }

  // ----- The code -----

  lemma {:induction false} PowerLength(k: nat)
    ensures |NatText(Pow10(k))| == k + 1
  {
    if k > 0 {
      PowerLength(k - 1);
    }
  }

  /** A number of a unit: the whole part, and the fraction in units of `10^-k` if there is any. */
  function Written(whole: int, frac: nat, k: nat): bytes
  {
    IntText(whole) + if frac == 0 then [] else [DOT] + Decimals(frac, k)
  }

  /** `decimal`, for any power of ten. */
  method DecimalOf(whole: int64, frac: int64, scale: int64, ghost k: nat) returns (r: bytes)
    requires 0 <= frac < scale == Pow10(k)
    ensures r == Written(whole, frac, k)
    ensures frac > 0 ==> r[|r| - 1] != ZERO
    ensures frac == 0 ==> r == IntText(whole)
  {
    hide Pow10, Trim;
    DecimalsEnd(frac, k);
    if frac == 0 {
      r := ToStr(whole);
      assert r + [] == r;
      return;
    }
    PowerLength(k);
    var scaleText := ToStr(scale);
    var digits := |scaleText| - 1;
    var padded := PadText(frac, digits);
    PadValue(frac, digits);
    TrimLeavesDigit(padded);
    var kept := TrimZeros(padded);
    var front := ToStr(whole);
    r := front + [46] + kept;
  }

  lemma PartText(whole: nat, frac: nat, u: Unit)
    ensures DecimalPart(whole, frac, u).Text() == Written(whole, frac, UnitDecimals(u)) + UnitText(u)
    ensures DecimalPart(whole, 0, u).Text() == NatText(whole) + UnitText(u)
  {
    hide Pad, Trim, NatText;
    if frac > 0 {
      PadValue(frac, UnitDecimals(u));
      TrimLeavesDigit(Pad(frac, UnitDecimals(u)));
    }
  }

  lemma PartsTexts(a: Part, b: Part, c: Part)
    ensures PartsText([a]) == a.Text()
    ensures PartsText([a, b]) == a.Text() + b.Text()
    ensures PartsText([a, b, c]) == a.Text() + b.Text() + c.Text()
  {
    assert [a][1..] == [] && [a, b][1..] == [b] && [a, b, c][1..] == [b, c] && [b, c][1..] == [c] && [b][1..] == [] && [c][1..] == [];
    assert PartsText([c]) == c.Text() && PartsText([b]) == b.Text();
    assert PartsText([b, c]) == b.Text() + c.Text();
  }

  lemma ZeroText()
    ensures TextOf(0) == [48, 115]
  {
    var p := DecimalPart(0, 0, Seconds);
    PartText(0, 0, Seconds);
    PartsTexts(p, p, p);
  }

  lemma SmallText(n: int64)
    requires n < 1000 && n != 0
    ensures IntText(n) + [110, 115] == if n < 0 then IntText(n) + UnitText(Nanos) else PartsText(PartsOf(n))
  {
    if n > 0 {
      var p := DecimalPart(n, 0, Nanos);
      PartText(n, 0, Nanos);
      PartsTexts(p, p, p);
    }
  }

  lemma OnePart(n: nat, whole: nat, frac: nat, u: Unit)
    requires (u == Micros && whole == n / 1_000 && frac == n % 1_000 && 1_000 <= n < 1_000_000) ||
             (u == Millis && whole == n / 1_000_000 && frac == n % 1_000_000 && 1_000_000 <= n < 1_000_000_000)
    ensures PartsText(PartsOf(n)) == Written(whole, frac, UnitDecimals(u)) + UnitText(u)
  {
    assert PartsOf(n) == [DecimalPart(whole, frac, u)];
    hide PartsOf, DecimalPart;
    var p := DecimalPart(whole, frac, u);
    PartText(whole, frac, u);
    PartsTexts(p, p, p);
  }

  lemma ClockParts(n: nat, h: nat, m: nat, s: nat, f: nat)
    requires n >= 1_000_000_000 && h == n / 1_000_000_000 / 3600 && m == n / 1_000_000_000 % 3600 / 60
    requires s == n / 1_000_000_000 % 60 && f == n % 1_000_000_000
    ensures var last := Written(s, f, 9) + [115];
            PartsText(PartsOf(n)) ==
            if h > 0 then NatText(h) + [104] + NatText(m) + [109] + last
            else if m > 0 then NatText(m) + [109] + last
            else last
  {
    var hp, mp, sp := DecimalPart(h, 0, Hours), DecimalPart(m, 0, Minutes), DecimalPart(s, f, Seconds);
    assert PartsOf(n) == if h > 0 then [hp, mp, sp] else if m > 0 then [mp, sp] else [sp];
    hide PartsOf, DecimalPart;
    PartText(h, 0, Hours);
    PartText(m, 0, Minutes);
    PartText(s, f, Seconds);
    PartsTexts(hp, mp, sp);
    PartsTexts(mp, sp, sp);
    PartsTexts(sp, sp, sp);
  }

  method ClockText(n: int64) returns (r: bytes)
    requires n >= 1_000_000_000
    ensures r == PartsText(PartsOf(n))
  {
    hide PartsOf, DecimalPart, Pow10;
    Powers();
    var wholeSeconds := n / 1000000000;
    var hours := wholeSeconds / 3600;
    var minutes := wholeSeconds % 3600 / 60;
    ClockParts(n, hours, minutes, wholeSeconds % 60, n % 1000000000);
    var secs := DecimalOf(wholeSeconds % 60, n % 1000000000, 1000000000, 9);
    secs := secs + [115];
    var h := ToStr(hours);
    var m := ToStr(minutes);
    if hours > 0 {
      return h + [104] + m + [109] + secs;
    }
    if minutes > 0 {
      return m + [109] + secs;
    }
    return secs;
  }

  /** `Duration.to_str`. */
  method DurationToStr(ns: int64) returns (r: bytes)
    ensures r == TextOf(ns)
  {
    hide DecimalPart, PartsOf, Pow10, Written, IntText, PartsText, Wrap;
    if ns == 0 {
      ZeroText();
      return [48, 115];
    }
    var n: int64 := ns;
    var sign: bytes := [];
    if n < 0 {
      sign := [45];
      n := Wrap(0 - n);
    }
    if n < 1000 {
      var count := ToStr(n);
      SmallText(n);
      return sign + count + [110, 115];
    }
    Powers();
    if n < 1000000 {
      var us := DecimalOf(n / 1000, n % 1000, 1000, 3);
      OnePart(n, n / 1000, n % 1000, Micros);
      return sign + us + [117, 115];
    }
    if n < 1000000000 {
      var ms := DecimalOf(n / 1000000, n % 1000000, 1000000, 6);
      OnePart(n, n / 1000000, n % 1000000, Millis);
      return sign + ms + [109, 115];
    }
    var body := ClockText(n);
    r := sign + body;
  }
}
