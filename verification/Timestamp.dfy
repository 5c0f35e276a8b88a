/** RFC 3339 timestamps of stdlib/time.kod: `parse`, `parse_date` and `Time.to_str`. */
module Timestamp {
  import opened Kod
  import opened ByteText
  import opened DecimalText
  import opened Calendar

  /** Seconds since 1970-01-01 UTC, and nanoseconds on top. */
  datatype Time = Time(seconds: int, nanos: int)

  const DASH: byte := 45
  const DOT: byte := 46
  const COLON: byte := 58

  // ----- Numbers of a fixed width -----

  /** The last `width` decimal digits of `n`. */
  function Fixed(n: nat, width: nat): (s: bytes)
    ensures |s| == width && AllDigits(s)
  {
    if width == 0 then [] else Fixed(n / 10, width - 1) + [48 + n % 10]
  }

  lemma {:induction false} FixedValue(n: nat, width: nat)
    requires n < Pow10(width)
    ensures DigitsValue(Fixed(n, width)) == n
  {
    if width > 0 {
      FixedValue(n / 10, width - 1);
      assert Fixed(n, width)[..width - 1] == Fixed(n / 10, width - 1);
    }
  }

  lemma {:induction false} FixedUnique(s: bytes)
    requires AllDigits(s)
    ensures Fixed(DigitsValue(s), |s|) == s
  {
    if s != [] {
      var k := |s| - 1;
      FixedUnique(s[..k]);
      assert s == s[..k] + [s[k]];
    }
  }

  /** `_pad`. */
  function Pad(n: int, width: nat): bytes
  {
    var text := IntText(n);
    if |text| >= width then text else Zeros(width - |text|) + text
  }

  lemma {:induction false} Pow10Grows(a: nat, b: nat)
    ensures a <= b ==> Pow10(a) <= Pow10(b)
    ensures a < b ==> Pow10(a) < Pow10(b)
  {
    if a < b {
      Pow10Grows(a, b - 1);
    }
  }

  lemma NatTextFits(n: nat, width: nat)
    requires width > 0
    ensures |NatText(n)| <= width <==> n < Pow10(width)
  {
    NatTextValue(n);
    NatTextLead(n);
    DigitsBound(NatText(n));
    Pow10Grows(|NatText(n)|, width);
    Pow10Grows(width, |NatText(n)| - 1);
  }

  lemma PadIsFixed(n: nat, width: nat)
    requires width > 0 && n < Pow10(width)
    ensures Pad(n, width) == Fixed(n, width)
  {
    NatTextFits(n, width);
    NatTextValue(n);
    var zeros := width - |NatText(n)|;
    ZerosValue(zeros, NatText(n));
    FixedUnique(Zeros(zeros) + NatText(n));
    assert zeros == 0 ==> Zeros(0) + NatText(n) == NatText(n);
  }

  // ----- The grammar of section 5.6 of RFC 3339 -----

  datatype Zone = Zulu(letter: byte) | Numeric(sign: byte, hour: int, minute: int) {
    predicate Valid()
    {
      match this
      case Zulu(c) => c == 90 || c == 122
      case Numeric(sign, h, m) => (sign == PLUS || sign == MINUS) && 0 <= h <= 23 && 0 <= m <= 59
    }

    function Text(): (s: bytes)
      requires Valid()
      ensures |s| > 0
    {
      match this
      case Zulu(c) => [c]
      case Numeric(sign, h, m) => [sign] + (Fixed(h, 2) + ([COLON] + Fixed(m, 2)))
    }

    /** Seconds east of UTC. */
    function Seconds(): int
    {
      match this
      case Zulu(_) => 0
      case Numeric(sign, h, m) => if sign == MINUS then -(h * 3600 + m * 60) else h * 3600 + m * 60
    }
  }

  /** `aa?bb?cc`: three numbers between two equal separators. */
  function Triple(a: nat, width: nat, sep: byte, b: nat, c: nat): bytes
  {
    Fixed(a, width) + ([sep] + (Fixed(b, 2) + ([sep] + Fixed(c, 2))))
  }

  function DateText(d: Date): (s: bytes)
    requires ValidDate(d) && d.year >= 0
    ensures |s| == 10
  {
    Triple(d.year, 4, DASH, d.month, d.day)
  }

  function ClockText(hour: nat, minute: nat, second: nat): (s: bytes)
    ensures |s| == 8
  {
    Triple(hour, 2, COLON, minute, second)
  }

  datatype Stamp = Stamp(date: Date, sep: byte, hour: int, minute: int, second: int, frac: Option<bytes>, zone: Zone) {
    predicate Valid()
    {
      && ValidDate(date) && 0 <= date.year <= 9999
      && (sep == 84 || sep == 116)
      && 0 <= hour <= 23 && 0 <= minute <= 59 && 0 <= second <= 60
      && (frac.Some? ==> |frac.value| > 0 && AllDigits(frac.value))
      && zone.Valid()
    }

    function Head(): (s: bytes)
      requires Valid()
      ensures |s| == 19
    {
      DateText(date) + ([sep] + ClockText(hour, minute, second))
    }

    function Fraction(): bytes { if frac.Some? then [DOT] + frac.value else [] }

    function Text(): bytes
      requires Valid()
    {
      Head() + (Fraction() + zone.Text())
    }

    /** The moment meant; a leap second `:60` is the first second after it. */
    function Instant(): Time
      requires Valid()
    {
      Time(SecondsOf(Utc(date, hour, minute, second)) - zone.Seconds(), if frac.Some? then NanosOf(frac.value) else 0)
    }
  }

  /** A fraction in nanoseconds: nine digits, filled up with zeros or cut off. */
  function NanosOf(frac: bytes): nat
    requires AllDigits(frac)
  {
    DigitsValue((frac + Zeros(9))[..9])
  }

  lemma NanosInRange(frac: bytes)
    requires AllDigits(frac)
    ensures 0 <= NanosOf(frac) <= 999_999_999
  {
    DigitsBound((frac + Zeros(9))[..9]);
    assert Pow10(9) == 1_000_000_000 by { Pow10Nine(); }
  }

  lemma Pow10Nine()
    ensures Pow10(2) == 100 && Pow10(4) == 10_000 && Pow10(8) == 100_000_000 && Pow10(9) == 1_000_000_000
  {
    assert Pow10(4) == 10_000;
    assert Pow10(6) == 1_000_000;
  }

  // ----- The parser as a function -----

  /** `_digits`. */
  function DigitsAt(s: bytes, at: nat, count: nat): Option<nat>
    requires at + count <= |s|
  {
    var digits := s[at..at + count];
    if AllDigits(digits) then Some(DigitsValue(digits)) else None
  }

  lemma {:induction false} DigitsAreFixed(s: bytes, at: nat, count: nat, n: nat)
    requires at + count <= |s| && n < Pow10(count)
    ensures DigitsAt(s, at, count) == Some(n) <==> At(s, at, Fixed(n, count))
  {
    hide Fixed, Pow10;
    FixedValue(n, count);
    var digits := s[at..at + count];
    if At(s, at, Fixed(n, count)) {
      AtSlice(s, at, Fixed(n, count));
    }
    if AllDigits(digits) {
      FixedUnique(digits);
      assert At(s, at, digits);
    }
  }

  lemma DigitsSmall(s: bytes, at: nat, count: nat)
    requires at + count <= |s| && DigitsAt(s, at, count).Some?
    ensures DigitsAt(s, at, count).value < Pow10(count)
  {
    DigitsBound(s[at..at + count]);
  }

  /** `parse_date`, as a date. */
  function DateIn(s: bytes): Option<Date>
  {
    if |s| != 10 || s[4] != DASH || s[7] != DASH then None
    else
      match (DigitsAt(s, 0, 4), DigitsAt(s, 5, 2), DigitsAt(s, 8, 2))
      case (Some(y), Some(m), Some(d)) =>
        if m < 1 || m > 12 || d < 1 || d > DaysInMonth(y, m) then None else Some(Date(y, m, d))
      case _ => None
  }

  /** The time of day at 11..19, in seconds. */
  function ClockIn(s: bytes): Option<int>
    requires |s| >= 20
  {
    if s[13] != COLON || s[16] != COLON then None
    else
      match (DigitsAt(s, 11, 2), DigitsAt(s, 14, 2), DigitsAt(s, 17, 2))
      case (Some(h), Some(m), Some(sec)) =>
        if h > 23 || m > 59 || sec > 60 then None else Some(h * 3600 + m * 60 + sec)
      case _ => None
  }

  /** The offset at `i`, which must reach to the end. */
  function ZoneIn(s: bytes, i: nat): Option<int>
    requires i < |s|
  {
    if s[i] == 90 || s[i] == 122 then (if i + 1 == |s| then Some(0) else None)
    else if (s[i] != PLUS && s[i] != MINUS) || |s| != i + 6 || s[i + 3] != COLON then None
    else
      match (DigitsAt(s, i + 1, 2), DigitsAt(s, i + 4, 2))
      case (Some(h), Some(m)) =>
        if h > 23 || m > 59 then None else Some(Numeric(s[i], h, m).Seconds())
      case _ => None
  }

  function FractionEnd(s: bytes): (i: nat)
    requires |s| >= 20
    ensures 19 <= i <= |s|
  {
    if s[19] == DOT then SkipDigits(s, 20) else 19
  }

  lemma {:induction false} SkippedAreDigits(s: bytes, pos: nat)
    requires pos <= |s|
    ensures AllDigits(s[pos..SkipDigits(s, pos)])
  {
    var digits := SkippedDigits(s, pos);
    AtSlice(s, pos, digits);
  }

  function FractionIn(s: bytes): nat
    requires |s| >= 20
  {
    if s[19] == DOT then
      SkippedAreDigits(s, 20);
      NanosOf(s[20..FractionEnd(s)])
    else 0
  }

  /** The first 19 bytes: the local time, in seconds. */
  function HeadIn(s: bytes): Option<int>
    requires |s| >= 20
  {
    if s[10] != 84 && s[10] != 116 then None
    else
      match (DateIn(s[..10]), ClockIn(s))
      case (Some(date), Some(clock)) => Some(DaysFromCivil(date) * 86400 + clock)
      case _ => None
  }

  /** The rest: nanoseconds and offset. */
  function TailIn(s: bytes): Option<(nat, int)>
    requires |s| >= 20
  {
    var i := FractionEnd(s);
    if i == 20 || i >= |s| then None
    else
      match ZoneIn(s, i)
      case Some(offset) => Some((FractionIn(s), offset))
      case None => None
  }

  function ParseTime(s: bytes): Option<Time>
  {
    if |s| < 20 then None
    else
      match (HeadIn(s), TailIn(s))
      case (Some(local), Some((nanos, offset))) => Some(Time(local - offset, nanos))
      case _ => None
  }

  // ----- The parser and the grammar agree -----

  lemma TripleAt(s: bytes, pos: nat, a: nat, width: nat, sep: byte, b: nat, c: nat)
    requires pos + width + 6 <= |s| && a < Pow10(width) && b < 100 && c < 100
    ensures At(s, pos, Triple(a, width, sep, b, c)) <==>
            && DigitsAt(s, pos, width) == Some(a) && s[pos + width] == sep
            && DigitsAt(s, pos + width + 1, 2) == Some(b) && s[pos + width + 3] == sep
            && DigitsAt(s, pos + width + 4, 2) == Some(c)
  {
    hide DigitsAt, Fixed;
    Pow10Nine();
    DigitsAreFixed(s, pos, width, a);
    DigitsAreFixed(s, pos + width + 1, 2, b);
    DigitsAreFixed(s, pos + width + 4, 2, c);
    SepAt(s, pos, Fixed(a, width), sep, Fixed(b, 2), Fixed(c, 2));
  }

  lemma SepAt(s: bytes, pos: nat, a: bytes, sep: byte, b: bytes, c: bytes)
    requires pos + |a| + |b| + |c| + 2 <= |s|
    ensures At(s, pos, a + ([sep] + (b + ([sep] + c)))) <==>
            && At(s, pos, a) && s[pos + |a|] == sep && At(s, pos + |a| + 1, b)
            && s[pos + |a| + 1 + |b|] == sep && At(s, pos + |a| + 2 + |b|, c)
  {
    if At(s, pos, a + ([sep] + (b + ([sep] + c)))) {
      AtSplit(s, pos, a, [sep] + (b + ([sep] + c)));
      AtSplit(s, pos + |a|, [sep], b + ([sep] + c));
      AtSplit(s, pos + |a| + 1, b, [sep] + c);
      AtSplit(s, pos + |a| + 1 + |b|, [sep], c);
      AtHead(s, pos + |a|, [sep]);
      AtHead(s, pos + |a| + 1 + |b|, [sep]);
    }
    if At(s, pos, a) && s[pos + |a|] == sep && At(s, pos + |a| + 1, b)
       && s[pos + |a| + 1 + |b|] == sep && At(s, pos + |a| + 2 + |b|, c) {
      AtJoin(s, pos + |a| + 1 + |b|, [sep], c);
      AtJoin(s, pos + |a| + 1, b, [sep] + c);
      AtJoin(s, pos + |a|, [sep], b + ([sep] + c));
      AtJoin(s, pos, a, [sep] + (b + ([sep] + c)));
    }
  }

  lemma DateIsExact(s: bytes, d: Date)
    requires |s| == 10
    ensures DateIn(s) == Some(d) <==>
            ValidDate(d) && 0 <= d.year <= 9999 && At(s, 0, DateText(d))
  {
    hide DigitsAt, Triple, IsLeap;
    Pow10Nine();
    if DateIn(s) == Some(d) {
      DigitsSmall(s, 0, 4);
      TripleAt(s, 0, d.year, 4, DASH, d.month, d.day);
    }
    if ValidDate(d) && 0 <= d.year <= 9999 {
      TripleAt(s, 0, d.year, 4, DASH, d.month, d.day);
    }
  }

  lemma PrefixAt(s: bytes, k: nat, text: bytes)
    requires |text| <= k <= |s|
    ensures At(s[..k], 0, text) <==> At(s, 0, text)
  {
    assert forall i :: 0 <= i < |text| ==> s[..k][i] == s[i];
  }

  lemma ZoneSound(s: bytes, i: nat) returns (zone: Zone)
    requires i < |s| && ZoneIn(s, i).Some?
    ensures zone.Valid() && At(s, i, zone.Text()) && |s| == i + |zone.Text()|
    ensures ZoneIn(s, i) == Some(zone.Seconds())
  {
    hide DigitsAt;
    if s[i] == 90 || s[i] == 122 {
      zone := Zulu(s[i]);
    } else {
      zone := Numeric(s[i], DigitsAt(s, i + 1, 2).value, DigitsAt(s, i + 4, 2).value);
      OffsetAt(s, i, zone);
    }
  }

  lemma OffsetAt(s: bytes, i: nat, zone: Zone)
    requires |s| == i + 6 && zone.Numeric? && zone.Valid()
    ensures At(s, i, zone.Text()) <==>
            && s[i] == zone.sign && DigitsAt(s, i + 1, 2) == Some(zone.hour as nat) && s[i + 3] == COLON
            && DigitsAt(s, i + 4, 2) == Some(zone.minute as nat)
  {
    hide DigitsAt, Fixed;
    Pow10Nine();
    DigitsAreFixed(s, i + 1, 2, zone.hour);
    DigitsAreFixed(s, i + 4, 2, zone.minute);
    var h, m := Fixed(zone.hour, 2), Fixed(zone.minute, 2);
    if At(s, i, zone.Text()) {
      AtSplit(s, i, [zone.sign], h + ([COLON] + m));
      AtSplit(s, i + 1, h, [COLON] + m);
      AtSplit(s, i + 3, [COLON], m);
      AtHead(s, i, [zone.sign]);
      AtHead(s, i + 3, [COLON]);
    }
    if s[i] == zone.sign && At(s, i + 1, h) && s[i + 3] == COLON && At(s, i + 4, m) {
      AtJoin(s, i + 3, [COLON], m);
      AtJoin(s, i + 1, h, [COLON] + m);
      AtJoin(s, i, [zone.sign], h + ([COLON] + m));
    }
  }

  lemma ZoneParses(s: bytes, i: nat, zone: Zone)
    requires zone.Valid() && At(s, i, zone.Text()) && |s| == i + |zone.Text()|
    ensures ZoneIn(s, i) == Some(zone.Seconds())
    ensures !IsDigit(s[i]) && s[i] != DOT
  {
    hide DigitsAt;
    AtHead(s, i, zone.Text());
    if zone.Numeric? {
      OffsetAt(s, i, zone);
    }
  }

  lemma HeadParses(s: bytes, st: Stamp)
    requires st.Valid() && |s| >= 20 && At(s, 0, st.Head())
    ensures HeadIn(s) == Some(SecondsOf(Utc(st.date, st.hour, st.minute, st.second)))
  {
    hide DateIn, DigitsAt, Triple, DateText, ValidDate, DaysFromCivil;
    var clock := ClockText(st.hour, st.minute, st.second);
    AtSplit(s, 0, DateText(st.date), [st.sep] + clock);
    AtSplit(s, 10, [st.sep], clock);
    AtHead(s, 10, [st.sep]);
    PrefixAt(s, 10, DateText(st.date));
    DateIsExact(s[..10], st.date);
    Pow10Nine();
    TripleAt(s, 11, st.hour, 2, COLON, st.minute, st.second);
  }

  lemma TailParses(s: bytes, st: Stamp)
    requires st.Valid() && |s| == 19 + |st.Fraction() + st.zone.Text()|
    requires At(s, 19, st.Fraction() + st.zone.Text())
    ensures TailIn(s) == Some((if st.frac.Some? then NanosOf(st.frac.value) else 0, st.zone.Seconds()))
  {
    hide ZoneIn, Zone.Text, NanosOf;
    AtSplit(s, 19, st.Fraction(), st.zone.Text());
    var i := 19 + |st.Fraction()|;
    ZoneParses(s, i, st.zone);
    if st.frac.Some? {
      AtHead(s, 19, st.Fraction());
      AtSplit(s, 19, [DOT], st.frac.value);
      SkipDigitsOver(s, 20, st.frac.value);
      AtSlice(s, 20, st.frac.value);
    }
  }

  /** Completeness: every timestamp of the grammar is read as its instant. */
  lemma StampParses(st: Stamp)
    requires st.Valid()
    ensures ParseTime(st.Text()) == Some(st.Instant())
  {
    hide HeadIn, TailIn, Stamp.Head, Stamp.Fraction, Zone.Text, Zone.Seconds, NanosOf, SecondsOf, ValidDate, At;
    AtWhole(st.Text());
    AtSplit(st.Text(), 0, st.Head(), st.Fraction() + st.zone.Text());
    HeadParses(st.Text(), st);
    TailParses(st.Text(), st);
  }

  lemma HeadSound(s: bytes) returns (date: Date, h: nat, m: nat, sec: nat)
    requires |s| >= 20 && HeadIn(s).Some?
    ensures ValidDate(date) && 0 <= date.year <= 9999 && h <= 23 && m <= 59 && sec <= 60
    ensures s[10] == 84 || s[10] == 116
    ensures At(s, 0, DateText(date) + ([s[10]] + ClockText(h, m, sec)))
    ensures HeadIn(s) == Some(SecondsOf(Utc(date, h, m, sec)))
  {
    hide DateIn, DigitsAt, Triple, DateText, ValidDate, DaysFromCivil;
    date := DateIn(s[..10]).value;
    DateIsExact(s[..10], date);
    h, m, sec := DigitsAt(s, 11, 2).value, DigitsAt(s, 14, 2).value, DigitsAt(s, 17, 2).value;
    Pow10Nine();
    TripleAt(s, 11, h, 2, COLON, m, sec);
    PrefixAt(s, 10, DateText(date));
    AtJoin(s, 10, [s[10]], ClockText(h, m, sec));
    AtJoin(s, 0, DateText(date), [s[10]] + ClockText(h, m, sec));
  }

  lemma TailSound(s: bytes) returns (frac: Option<bytes>, zone: Zone)
    requires |s| >= 20 && TailIn(s).Some?
    ensures (frac.Some? ==> |frac.value| > 0 && AllDigits(frac.value)) && zone.Valid()
    ensures var text := (if frac.Some? then [DOT] + frac.value else []) + zone.Text();
            At(s, 19, text) && |s| == 19 + |text|
    ensures TailIn(s) == Some((if frac.Some? then NanosOf(frac.value) else 0, zone.Seconds()))
  {
    hide ZoneIn, Zone.Text, NanosOf;
    zone := ZoneSound(s, FractionEnd(s));
    if s[19] == DOT {
      var digits := SkippedDigits(s, 20);
      AtSlice(s, 20, digits);
      AtJoin(s, 19, [DOT], digits);
      AtJoin(s, 19, [DOT] + digits, zone.Text());
      frac := Some(digits);
    } else {
      frac := None;
      AtJoin(s, 19, [], zone.Text());
    }
  }

  /** Soundness: whatever is read is a timestamp of the grammar, with that instant. */
  lemma StampSound(s: bytes) returns (st: Stamp)
    requires ParseTime(s).Some?
    ensures st.Valid() && st.Text() == s && ParseTime(s) == Some(st.Instant())
  {
    hide HeadIn, TailIn, DateText, ClockText, Zone.Text, Zone.Seconds, NanosOf, SecondsOf, ValidDate, At;
    var date, h, m, sec := HeadSound(s);
    var frac, zone := TailSound(s);
    st := Stamp(date, s[10], h, m, sec, frac, zone);
    AtJoin(s, 0, st.Head(), st.Fraction() + zone.Text());
    AtAll(s, st.Text());
  }

  /** `parse` returns a time exactly for the texts of the grammar, and then the instant they mean. */
  lemma ParseTimeIsExact(s: bytes, t: Time)
    ensures ParseTime(s) == Some(t) <==> exists st: Stamp :: st.Valid() && st.Text() == s && st.Instant() == t
  {
    hide ParseTime, Stamp.Valid, Stamp.Text, Stamp.Instant;
    if ParseTime(s) == Some(t) {
      var st := StampSound(s);
    }
    forall st: Stamp | st.Valid() && st.Text() == s && st.Instant() == t
      ensures ParseTime(s) == Some(t)
    {
      StampParses(st);
    }
  }
}
