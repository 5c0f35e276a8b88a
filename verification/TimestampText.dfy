/** Writing timestamps, reading them back, and the loops that do both (stdlib/time.kod). */
module TimestampText {
  import opened Kod
  import opened ByteText
  import opened DecimalText
  import opened Calendar
  import opened Timestamp

  // ----- Time.to_str -----

  function Trim(s: bytes): bytes
  {
    if s != [] && s[|s| - 1] == ZERO then Trim(s[..|s| - 1]) else s
  }

  function FractionText(nanos: int): bytes
  {
    if nanos > 0 then [DOT] + Trim(Pad(nanos, 9)) else []
  }

  /** What `to_str` writes, for any `Time` at all. */
  function TimeText(t: Time): bytes
  {
    var u := UtcOf(t.seconds);
    Pad(u.date.year, 4) + ([DASH] + (Pad(u.date.month, 2) + ([DASH] + (Pad(u.date.day, 2) + ([84] +
      (Pad(u.hour, 2) + ([COLON] + (Pad(u.minute, 2) + ([COLON] + (Pad(u.second, 2) + (FractionText(t.nanos) + [90])))))))))))
  }

  predicate Normal(t: Time)
  {
    0 <= t.nanos <= 999_999_999
  }

  /** The times whose year has four digits. */
  predicate Printable(t: Time)
  {
    Normal(t) && 0 <= UtcOf(t.seconds).date.year <= 9999
  }

  lemma {:induction false} TrimKeeps(s: bytes)
    ensures |Trim(s)| <= |s| && s == Trim(s) + Zeros(|s| - |Trim(s)|)
    ensures Trim(s) == s[..|Trim(s)|]
  {
    if s != [] && s[|s| - 1] == ZERO {
      var k := |s| - 1;
      var kept := Trim(s[..k]);
      assert Trim(s) == kept;
      TrimKeeps(s[..k]);
      OneMoreZero(kept, k - |kept|);
      assert s == s[..k] + [ZERO];
      hide Trim;
      assert kept == s[..|kept|];
    } else {
      assert Zeros(0) == [];
    }
  }

  lemma OneMoreZero(s: bytes, n: nat)
    ensures s + Zeros(n + 1) == s + Zeros(n) + [ZERO]
  {
    hide Zeros;
    ZerosEnd(n + 1);
    assert Zeros(n + 1) == Zeros(n + 1)[..n] + [Zeros(n + 1)[n]];
  }

  lemma {:induction false} TrimLeavesDigit(s: bytes)
    requires AllDigits(s) && DigitsValue(s) > 0
    ensures Trim(s) != []
  {
    if s[|s| - 1] == ZERO {
      TrimLeavesDigit(s[..|s| - 1]);
    }
  }

  /** Nothing that ends in a zero is left. */
  lemma {:induction false} TrimmedEnd(s: bytes)
    ensures Trim(s) != [] ==> Trim(s)[|Trim(s)| - 1] != ZERO
  {
    if s != [] && s[|s| - 1] == ZERO {
      TrimmedEnd(s[..|s| - 1]);
    }
  }

  /** No digits that mean the same with zeros after them are fewer than the trimmed ones. */
  lemma TrimIsShortest(s: bytes, f: bytes, n: nat)
    requires s == f + Zeros(n)
    ensures |Trim(s)| <= |f|
  {
    hide Zeros, Trim;
    TrimKeeps(s);
    TrimmedEnd(s);
    var m := |Trim(s)|;
    if m > |f| {
      ZerosAt(n, m - 1 - |f|);
    }
  }

  lemma {:induction false} ZerosAt(n: nat, i: nat)
    requires i < n
    ensures Zeros(n)[i] == ZERO
  {
    if i > 0 {
      ZerosAt(n - 1, i - 1);
    }
  }

  /** The trimmed fraction denotes the same nanoseconds, and has a digit when there are any. */
  lemma {:induction false} TrimmedNanos(nanos: nat)
    requires 0 < nanos <= 999_999_999
    ensures var frac := Trim(Pad(nanos, 9));
            |frac| > 0 && AllDigits(frac) && NanosOf(frac) == nanos
  {
    hide Pad, Fixed, Trim, Zeros;
    Pow10Nine();
    PadIsFixed(nanos, 9);
    FixedValue(nanos, 9);
    TrimLeavesDigit(Fixed(nanos, 9));
    var frac := Trim(Fixed(nanos, 9));
    TrimKeeps(Fixed(nanos, 9));
    ZerosPrefix(9, 9 - |frac|);
    assert (frac + Zeros(9))[..9] == frac + Zeros(9)[..9 - |frac|];
  }

  /** A fraction of so many nanoseconds has at least the digits that are written for them. */
  lemma FractionIsShortest(frac: bytes, nanos: nat)
    requires AllDigits(frac) && 0 < nanos <= 999_999_999 && NanosOf(frac) == nanos
    ensures |Trim(Pad(nanos, 9))| <= |frac|
  {
    hide Pad, Trim, Fixed, Zeros;
    Pow10Nine();
    PadIsFixed(nanos, 9);
    FixedUnique((frac + Zeros(9))[..9]);
    TrimKeeps(Fixed(nanos, 9));
    if |frac| < 9 {
      ZerosPrefix(9, 9 - |frac|);
      assert (frac + Zeros(9))[..9] == frac + Zeros(9)[..9 - |frac|];
      TrimIsShortest(Fixed(nanos, 9), frac, 9 - |frac|);
    }
  }

  /** The timestamp that `to_str` writes. */
  function StampOf(t: Time): (st: Stamp)
    requires Printable(t)
    ensures st.Valid()
  {
    UtcRoundTrip(t.seconds);
    var u := UtcOf(t.seconds);
    if t.nanos > 0 then
      TrimmedNanos(t.nanos);
      Stamp(u.date, 84, u.hour, u.minute, u.second, Some(Trim(Pad(t.nanos, 9))), Zulu(90))
    else Stamp(u.date, 84, u.hour, u.minute, u.second, None, Zulu(90))
  }

  lemma StampOfInstant(t: Time)
    requires Printable(t)
    ensures StampOf(t).Instant() == t
  {
    hide UtcOf, SecondsOf, Trim, NanosOf;
    UtcRoundTrip(t.seconds);
    if t.nanos > 0 {
      TrimmedNanos(t.nanos);
    }
  }

  lemma StampOfText(t: Time)
    requires Printable(t)
    ensures StampOf(t).Text() == TimeText(t)
  {
    hide UtcOf, Pad, Fixed, Trim;
    UtcRoundTrip(t.seconds);
    Pow10Nine();
    var u := UtcOf(t.seconds);
    PadIsFixed(u.date.year, 4);
    PadIsFixed(u.date.month, 2);
    PadIsFixed(u.date.day, 2);
    PadIsFixed(u.hour, 2);
    PadIsFixed(u.minute, 2);
    PadIsFixed(u.second, 2);
    Regroup(Fixed(u.date.year, 4), Fixed(u.date.month, 2), Fixed(u.date.day, 2),
            Fixed(u.hour, 2), Fixed(u.minute, 2), Fixed(u.second, 2), FractionText(t.nanos) + [90]);
  }

  lemma Regroup(y: bytes, mo: bytes, d: bytes, h: bytes, mi: bytes, s: bytes, tail: bytes)
    ensures (y + ([DASH] + (mo + ([DASH] + d)))) + ([84] + (h + ([COLON] + (mi + ([COLON] + s))))) + tail ==
            y + ([DASH] + (mo + ([DASH] + (d + ([84] + (h + ([COLON] + (mi + ([COLON] + (s + tail))))))))))
  {
  }

  /** A year that is not written with four digits puts a minus among the first four bytes, or a fifth digit after them. */
  lemma OddYear(year: int, rest: bytes) returns (k: nat)
    requires year < 0 || year > 9999
    ensures k < |Pad(year, 4) + rest|
    ensures var c := (Pad(year, 4) + rest)[k]; (k < 4 && c == MINUS) || (k == 4 && IsDigit(c))
  {
    if year < 0 {
      var digits := NatText(-year);
      k := if |digits| + 1 >= 4 then 0 else 3 - |digits|;
    } else {
      NatTextFits(year, 4);
      Pow10Nine();
      k := 4;
      assert AllDigits(NatText(year));
    }
  }

  lemma YearField(st: Stamp)
    requires st.Valid()
    ensures |st.Text()| > 4 && st.Text()[4] == DASH
    ensures forall k :: 0 <= k < 4 ==> IsDigit(st.Text()[k])
  {
    assert forall k :: 0 <= k < 4 ==> st.Text()[k] == Fixed(st.date.year, 4)[k];
  }

  lemma LongYearIsNoStamp(year: int, rest: bytes, st: Stamp)
    requires st.Valid() && st.Text() == Pad(year, 4) + rest
    ensures 0 <= year <= 9999
  {
    YearField(st);
    if year < 0 || year > 9999 {
      var k := OddYear(year, rest);
    }
  }

  /**
   Reading back what was written gives the same time exactly when the year is from 0000 to
   9999 and the nanoseconds are below a second.
   */
  lemma ParseOfText(t: Time)
    ensures ParseTime(TimeText(t)) == Some(t) <==> Printable(t)
  {
    hide ParseTime, UtcOf, Pad, FractionText, Stamp.Text, Stamp.Valid, StampOf, NanosOf;
    if Printable(t) {
      StampOfText(t);
      StampOfInstant(t);
      StampParses(StampOf(t));
    }
    if ParseTime(TimeText(t)) == Some(t) {
      var st := StampSound(TimeText(t));
      NanosFit(st);
      var u := UtcOf(t.seconds);
      LongYearIsNoStamp(u.date.year, [DASH] + (Pad(u.date.month, 2) + ([DASH] + (Pad(u.date.day, 2) + ([84] +
        (Pad(u.hour, 2) + ([COLON] + (Pad(u.minute, 2) + ([COLON] + (Pad(u.second, 2) + (FractionText(t.nanos) + [90])))))))))), st);
    }
  }

  /** A fraction is written exactly when there is one, and never ends in a zero. */
  lemma FractionEnds(nanos: int)
    ensures FractionText(nanos) == [] <==> nanos <= 0
    ensures var f := FractionText(nanos); f != [] ==> |f| > 1 && f[|f| - 1] != ZERO
  {
    hide Pad, Trim;
    if nanos > 0 {
      PadValue(nanos, 9);
      TrimLeavesDigit(Pad(nanos, 9));
      TrimmedEnd(Pad(nanos, 9));
    }
  }

  /**
   Of all timestamps in UTC, written with `T` and `Z`, that mean the moment, none is shorter than
   the one written.
   */
  lemma TextIsShortest(t: Time, st: Stamp)
    requires Printable(t) && st.Valid() && st.sep == 84 && st.zone == Zulu(90) && st.Instant() == t
    ensures |TimeText(t)| <= |st.Text()|
  {
    hide UtcOf, Pad, Trim, NanosOf, StampOf, Stamp.Head;
    StampOfText(t);
    StampOfHead(t);
    if t.nanos > 0 {
      TrimmedNanos(t.nanos);
      FractionIsShortest(st.frac.value, t.nanos);
    }
  }

  lemma StampOfHead(t: Time)
    requires Printable(t)
    ensures StampOf(t).Text() == StampOf(t).Head() + (FractionText(t.nanos) + [90])
  {
    hide UtcOf, Pad, Trim, NanosOf, Stamp.Head;
    if t.nanos > 0 {
      TrimmedNanos(t.nanos);
    }
  }

  lemma NanosFit(st: Stamp)
    requires st.Valid()
    ensures Normal(st.Instant())
  {
    if st.frac.Some? {
      NanosInRange(st.frac.value);
    }
  }

  /** One moment written with any legal offset, as long as the local year has four digits, reads the same. */
  lemma AnyOffsetReadsBack(t: Time, sign: byte, hour: int, minute: int) returns (st: Stamp)
    requires Numeric(sign, hour, minute).Valid()
    requires Printable(Time(t.seconds + Numeric(sign, hour, minute).Seconds(), t.nanos))
    ensures st.Valid() && st.zone == Numeric(sign, hour, minute)
    ensures ParseTime(st.Text()) == Some(t)
  {
    hide ParseTime, Stamp.Text, UtcOf, SecondsOf, NanosOf;
    var zone := Numeric(sign, hour, minute);
    var local := Time(t.seconds + zone.Seconds(), t.nanos);
    StampOfInstant(local);
    st := StampOf(local).(zone := zone);
    StampParses(st);
  }

  // ----- Arithmetic -----

  const SECOND: int := 1_000_000_000

  /** A time as one number of nanoseconds. */
  function Total(t: Time): int
  {
    t.seconds * SECOND + t.nanos
  }

  /** `op_add`, `op_sub` and `op_lt`. */
  function Add(t: Time, ns: int): Time
  {
    var whole := FloorDiv(ns, SECOND);
    var nanos := t.nanos + (ns - whole * SECOND);
    if nanos >= SECOND then Time(t.seconds + (whole + 1), nanos - SECOND) else Time(t.seconds + whole, nanos)
  }

  function Sub(a: Time, b: Time): int
  {
    (a.seconds - b.seconds) * SECOND + a.nanos - b.nanos
  }

  predicate Before(a: Time, b: Time)
  {
    if a.seconds != b.seconds then a.seconds < b.seconds else a.nanos < b.nanos
  }

  /** On normal times the operators are those of the integers, and adding keeps a time normal. */
  lemma TimeArithmetic(a: Time, b: Time, ns: int)
    requires Normal(a) && Normal(b)
    ensures Normal(Add(a, ns)) && Total(Add(a, ns)) == Total(a) + ns
    ensures Sub(a, b) == Total(a) - Total(b)
    ensures Before(a, b) <==> Total(a) < Total(b)
    ensures Add(b, Sub(a, b)) == a
  {
    FloorDivSpec(ns, SECOND);
    FloorDivSpec(Sub(a, b), SECOND);
  }

  /** `op_sub` as the machine does it, every step in 64 bits. */
  function Sub64(a: Time, b: Time): int64
  {
    Wrap(Wrap(Wrap(Wrap(a.seconds - b.seconds) * SECOND) + a.nanos) - b.nanos)
  }

  lemma Sub64IsWrapped(a: Time, b: Time)
    ensures Sub64(a, b) == Wrap(Sub(a, b))
  {
    hide Wrap;
    var d := a.seconds - b.seconds;
    WrapTwice(d, SECOND, 0);
    assert Wrap(d) * SECOND == SECOND * Wrap(d) + 0 && d * SECOND == SECOND * d + 0;
    WrapTwice(d * SECOND, 1, a.nanos);
    WrapTwice(d * SECOND + a.nanos, 1, -b.nanos);
  }

  /** The difference is exact, and adding it back gives the time, exactly when it fits 64 bits. */
  lemma SubIsExactIffItFits(a: Time, b: Time)
    requires Normal(a) && Normal(b)
    ensures Add(b, Sub64(a, b)) == a <==> INT64_MIN <= Total(a) - Total(b) <= INT64_MAX
  {
    hide Sub64, Add, Sub;
    Sub64IsWrapped(a, b);
    TimeArithmetic(a, b, 0);
    TimeArithmetic(b, a, Sub64(a, b));
  }

  /** `op_add` as the machine does it. */
  function Add64(t: Time, ns: int64): Time
  {
    var whole := FloorDiv(ns, SECOND);
    var nanos := Wrap(t.nanos + Wrap(ns - Wrap(whole * SECOND)));
    if nanos >= SECOND then Time(Wrap(t.seconds + Wrap(whole + 1)), nanos - SECOND) else Time(Wrap(t.seconds + whole), nanos)
  }

  /** The sum is that of the integers exactly when its seconds fit 64 bits; its nanos always are. */
  lemma AddIsExactIffItFits(t: Time, ns: int64)
    requires Normal(t)
    ensures Add64(t, ns).nanos == Add(t, ns).nanos
    ensures Add64(t, ns) == Add(t, ns) <==> INT64_MIN <= Add(t, ns).seconds <= INT64_MAX
  {
    var whole := FloorDiv(ns, SECOND);
    FloorDivSpec(ns, SECOND);
    WrapTwice(whole * SECOND, -1, ns);
    assert Wrap(ns - Wrap(whole * SECOND)) == ns - whole * SECOND;
  }

  // ----- The loops -----

  method Digits(s: bytes, at: nat, count: nat) returns (n: Option<nat>)
    requires at + count <= |s|
    ensures n == DigitsAt(s, at, count)
  {
    var value: nat := 0;
    for i := at to at + count
      invariant AllDigits(s[at..i]) && value == DigitsValue(s[at..i])
    {
      if s[i] < 48 || s[i] > 57 {
        assert !IsDigit(s[at..at + count][i - at]);
        return None;
      }
      assert s[at..i + 1] == s[at..i] + [s[i]];
      value := value * 10 + (s[i] - 48);
    }
    return Some(value);
  }

  /** `parse_date`: midnight UTC of the date. */
  method ParseDate(s: bytes) returns (r: Option<Time>)
    ensures r == match DateIn(s) case Some(d) => Some(Time(DaysFromCivil(d) * 86400, 0)) case None => None
  {
    hide DigitsAt, DaysFromCivil;
    if |s| != 10 || s[4] != 45 || s[7] != 45 {
      return None;
    }
    var year := Digits(s, 0, 4);
    var month := Digits(s, 5, 2);
    var day := Digits(s, 8, 2);
    if year.None? || month.None? || day.None? {
      return None;
    }
    if month.value < 1 || month.value > 12 || day.value < 1 || day.value > DaysInMonth(year.value, month.value) {
      return None;
    }
    return Some(Time(DaysFromCivil(Date(year.value, month.value, day.value)) * 86400, 0));
  }

  /** The fraction's digits, worth `scale` nanoseconds, a tenth of that, and so on. */
  function Scaled(frac: bytes, scale: nat): nat
    requires AllDigits(frac)
  {
    if frac == [] then 0 else (frac[0] - 48) * scale + Scaled(frac[1..], scale / 10)
  }

  lemma {:induction false} ScaledIsValue(frac: bytes, width: nat)
    requires AllDigits(frac)
    ensures Scaled(frac, if width == 0 then 0 else Pow10(width - 1)) == DigitsValue((frac + Zeros(width))[..width])
    decreases |frac|
  {
    var all := (frac + Zeros(width))[..width];
    if frac == [] {
      ZerosPrefix(width, width);
      ZerosValue(width, []);
      assert all == Zeros(width) && Zeros(width) + [] == Zeros(width);
    } else if width == 0 {
      ScaledIsValue(frac[1..], 0);
      assert (frac[1..] + Zeros(0))[..0] == all == [];
    } else {
      var rest := (frac[1..] + Zeros(width - 1))[..width - 1];
      ScaledIsValue(frac[1..], width - 1);
      ZerosPrefix(width, width - 1);
      assert all == [frac[0]] + rest by { CutFirst(frac, width); }
      LeadingDigit(frac[0], rest);
      assert width >= 2 ==> Pow10(width - 1) / 10 == Pow10(width - 2);
    }
  }

  lemma CutFirst(frac: bytes, width: nat)
    requires frac != [] && width > 0
    ensures (frac + Zeros(width))[..width] == [frac[0]] + (frac[1..] + Zeros(width - 1))[..width - 1]
  {
    ZerosPrefix(width, width - 1);
    var a, b := frac + Zeros(width), frac[1..] + Zeros(width - 1);
    forall i | 1 <= i < width
      ensures a[i] == b[i - 1]
    {
      if i >= |frac| {
        assert Zeros(width)[..width - 1][i - |frac|] == Zeros(width - 1)[i - |frac|];
      }
    }
  }

  lemma {:induction false} LeadingDigit(d: byte, rest: bytes)
    requires IsDigit(d) && AllDigits(rest)
    ensures AllDigits([d] + rest) && DigitsValue([d] + rest) == (d - 48) * Pow10(|rest|) + DigitsValue(rest)
    decreases |rest|
  {
    var all := [d] + rest;
    if rest == [] {
      assert all[..0] == [];
    } else {
      var k := |rest| - 1;
      LeadingDigit(d, rest[..k]);
      assert all[..|all| - 1] == [d] + rest[..k];
      assert 10 * ((d - 48) * Pow10(k)) == (d - 48) * (10 * Pow10(k));
    }
  }

  /** The fraction loop: digits past the ninth add nothing, because `scale` has reached 0. */
  method ReadFraction(s: bytes, first: nat) returns (i: nat, nanos: nat)
    requires first <= |s|
    ensures i == SkipDigits(s, first)
    ensures AllDigits(s[first..i]) && nanos == NanosOf(s[first..i])
  {
    hide NanosOf, Scaled, AllDigits;
    SkippedAreDigits(s, first);
    ghost var end := SkipDigits(s, first);
    i := first;
    nanos := 0;
    var scale: nat := 100000000;
    while i < |s| && s[i] >= 48 && s[i] <= 57
      invariant first <= i <= end && SkipDigits(s, i) == end
      invariant AllDigits(s[i..end])
      invariant nanos + Scaled(s[i..end], scale) == Scaled(s[first..end], 100000000)
    {
      ScaledStep(s, i, end, scale);
      nanos := nanos + (s[i] - 48) * scale;
      scale := scale / 10;
      i := i + 1;
    }
    assert s[i..end] == [];
    NothingScaled(scale);
    FractionValue(s[first..end]);
  }

  lemma ScaledStep(s: bytes, i: nat, end: nat, scale: nat)
    requires i < end <= |s| && AllDigits(s[i..end])
    ensures AllDigits(s[i + 1..end])
    ensures IsDigit(s[i]) && Scaled(s[i..end], scale) == (s[i] - 48) * scale + Scaled(s[i + 1..end], scale / 10)
  {
    assert s[i..end][0] == s[i] && s[i..end][1..] == s[i + 1..end];
  }

  lemma NothingScaled(scale: nat)
    ensures AllDigits([]) && Scaled([], scale) == 0
  {
  }

  lemma FractionValue(frac: bytes)
    requires AllDigits(frac)
    ensures Scaled(frac, 100000000) == NanosOf(frac)
  {
    ScaledIsValue(frac, 9);
    Pow10Nine();
  }

  /** The offset at `i`, which must reach to the end. */
  method ReadZone(s: bytes, i: nat) returns (offset: Option<int>)
    requires i < |s|
    ensures offset == ZoneIn(s, i)
  {
    hide DigitsAt;
    if s[i] == 90 || s[i] == 122 {
      if i + 1 != |s| {
        return None;
      }
      return Some(0);
    }
    if (s[i] != 43 && s[i] != 45) || |s| != i + 6 || s[i + 3] != 58 {
      return None;
    }
    var hour := Digits(s, i + 1, 2);
    var minute := Digits(s, i + 4, 2);
    if hour.None? || minute.None? {
      return None;
    }
    if hour.value > 23 || minute.value > 59 {
      return None;
    }
    var seconds: int := hour.value * 3600 + minute.value * 60;
    if s[i] == 45 {
      seconds := 0 - seconds;
    }
    return Some(seconds);
  }

  /** `parse`. */
  method Parse(s: bytes) returns (t: Option<Time>)
    ensures t == ParseTime(s)
  {
    hide DateIn, ZoneIn, DigitsAt, DaysFromCivil, NanosOf;
    if |s| < 20 || (s[10] != 84 && s[10] != 116) || s[13] != 58 || s[16] != 58 {
      return None;
    }
    var date := ParseDate(s[0..10]);
    assert s[0..10] == s[..10];
    var hour := Digits(s, 11, 2);
    var minute := Digits(s, 14, 2);
    var second := Digits(s, 17, 2);
    if date.None? || hour.None? || minute.None? || second.None? {
      return None;
    }
    if hour.value > 23 || minute.value > 59 || second.value > 60 {
      return None;
    }
    var i: nat, nanos: nat := 19, 0;
    if s[i] == 46 {
      i, nanos := ReadFraction(s, 20);
      if i == 20 {
        return None;
      }
    }
    if i >= |s| {
      return None;
    }
    var offset := ReadZone(s, i);
    if offset.None? {
      return None;
    }
    return Some(Time(date.value.seconds + hour.value * 3600 + minute.value * 60 + second.value - offset.value, nanos));
  }

  method PadText(n: int64, width: nat) returns (r: bytes)
    ensures r == Pad(n, width)
  {
    var text := ToStr(n);
    if |text| >= width {
      return text;
    }
    var zeros: bytes := [];
    for i := 0 to width - |text|
      invariant zeros == Zeros(i)
    {
      ZerosEnd(i + 1);
      zeros := zeros + [48];
      assert Zeros(i + 1) == Zeros(i + 1)[..i] + [Zeros(i + 1)[i]];
    }
    return zeros + text;
  }

  /** The trimming loop of `to_str`, which stops because the number is not zero. */
  method TrimZeros(digits: bytes) returns (r: bytes)
    requires AllDigits(digits) && DigitsValue(digits) > 0
    ensures r == Trim(digits)
  {
    var end := |digits|;
    assert digits[..end] == digits;
    while digits[end - 1] == 48
      invariant 0 < end <= |digits|
      invariant DigitsValue(digits[..end]) > 0
      invariant Trim(digits[..end]) == Trim(digits)
      decreases end
    {
      assert digits[..end][..end - 1] == digits[..end - 1];
      end := end - 1;
    }
    return digits[0..end];
  }

  lemma PadValue(n: nat, width: nat)
    ensures AllDigits(Pad(n, width)) && DigitsValue(Pad(n, width)) == n
  {
    NatTextValue(n);
    if |NatText(n)| < width {
      ZerosValue(width - |NatText(n)|, NatText(n));
    }
  }

  /** `Time.to_str`. */
  method TimeToStr(t: Time) returns (r: bytes)
    requires INT64_MIN <= t.seconds <= INT64_MAX && INT64_MIN <= t.nanos <= INT64_MAX
    ensures r == TimeText(t)
  {
    hide Pad, Trim, CivilFromDays, DaysFromCivil;
    var u := UtcOf(t.seconds);
    UtcFits(t.seconds);
    var fraction: bytes := [];
    if t.nanos > 0 {
      var digits := PadText(t.nanos, 9);
      PadValue(t.nanos, 9);
      var trimmed := TrimZeros(digits);
      fraction := [46] + trimmed;
    }
    var year := PadText(u.date.year, 4);
    var month := PadText(u.date.month, 2);
    var day := PadText(u.date.day, 2);
    var hour := PadText(u.hour, 2);
    var minute := PadText(u.minute, 2);
    var second := PadText(u.second, 2);
    r := year + ([45] + (month + ([45] + (day + ([84] +
      (hour + ([58] + (minute + ([58] + (second + (fraction + [90])))))))))));
  }

  /** The calendar fields of an int64 number of seconds are int64s themselves. */
  lemma UtcFits(seconds: int)
    requires INT64_MIN <= seconds <= INT64_MAX
    ensures ValidUtc(UtcOf(seconds)) && INT64_MIN <= UtcOf(seconds).date.year <= INT64_MAX
  {
    hide CivilFromDays, DaysFromCivil, ValidDate;
    UtcRoundTrip(seconds);
    FloorDivSpec(seconds, 86400);
    YearIsBounded(FloorDiv(seconds, 86400));
  }

  lemma YearIsBounded(days: int)
    ensures var y := CivilFromDays(days).year;
            (days >= 0 ==> -1_000_000 <= y <= days + 1_000_000) && (days <= 0 ==> days - 1_000_000 <= y <= 1_000_000)
  {
    var z := days + 719468;
    var era := FloorDiv(z, 146097);
    FloorDivSpec(z, 146097);
    var c, q, r, s := DayOfEra(z - era * 146097);
    var mp := MonthAt(s);
    PartsOfNumber(era, c, q, r, s, mp);
  }
}
