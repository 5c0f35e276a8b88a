/** The value types and the integer operators that every Kod module relies on. */
module Kod {

  const INT64_MIN: int := -0x8000_0000_0000_0000
  const INT64_MAX: int := 0x7fff_ffff_ffff_ffff

  type int64 = x: int | -0x8000_0000_0000_0000 <= x <= 0x7fff_ffff_ffff_ffff

  type byte = x: int | 0 <= x < 256
  type bytes = seq<byte>

  datatype Option<+T> = None | Some(value: T)

  datatype Result<+T, +E> = Ok(value: T) | Err(error: E)

  /** What is left of an integer in 64 bits, two's complement. */
  function Wrap(n: int): (r: int64)
    ensures (n - r) % 0x1_0000_0000_0000_0000 == 0
    ensures INT64_MIN <= n <= INT64_MAX ==> r == n
  {
    var m := n % 0x1_0000_0000_0000_0000;
    if m > INT64_MAX then m - 0x1_0000_0000_0000_0000 else m
  }

  /** Kod's `/`: the quotient is truncated toward zero. */
  function TruncDiv(a: int, b: int): int
    requires b > 0
  {
    if a >= 0 then a / b else -((-a) / b)
  }

  /** Kod's `%`: the remainder takes the sign of the dividend. */
  function TruncMod(a: int, b: int): int
    requires b > 0
  {
    a - b * TruncDiv(a, b)
  }

  /** What pins the two operators down: a remainder smaller than the divisor, with the dividend's sign. */
  lemma TruncSpec(a: int, b: int)
    requires b > 0
    ensures a == b * TruncDiv(a, b) + TruncMod(a, b)
    ensures a >= 0 ==> 0 <= TruncMod(a, b) < b
    ensures a <= 0 ==> -b < TruncMod(a, b) <= 0
  {
    if a < 0 {
      assert -a == b * ((-a) / b) + (-a) % b;
      assert b * -((-a) / b) == -(b * ((-a) / b));
    }
  }

  lemma MultipleIsFar(b: int, d: int)
    requires b > 0
    ensures d >= 1 ==> b * d >= b
    ensures d <= -1 ==> b * d <= -b
  {
  }

  /** Quotient and remainder are the only numbers that fit. */
  lemma DivUnique(a: int, b: int, q: int, r: int)
    requires b > 0 && 0 <= r < b
    requires a == b * q + r
    ensures a / b == q && a % b == r
  {
    var d := a / b - q;
    assert b * d == b * (a / b) - b * q;
    MultipleIsFar(b, d);
  }

  function Pow2(k: nat): (r: nat)
    ensures r >= 1
  {
    if k == 0 then 1 else 2 * Pow2(k - 1)
  }

  lemma Pow2Values()
    ensures Pow2(3) == 8
    ensures Pow2(63) == 0x8000_0000_0000_0000
  {
    assert Pow2(5) == 32;
    Pow2Sum(5, 5);
    Pow2Sum(10, 10);
    Pow2Sum(20, 20);
    Pow2Sum(40, 20);
    Pow2Sum(60, 3);
  }

  lemma {:induction false} Pow2Sum(a: nat, b: nat)
    ensures Pow2(a + b) == Pow2(a) * Pow2(b)
  {
    if b > 0 {
      Pow2Sum(a, b - 1);
      assert Pow2(a) * (2 * Pow2(b - 1)) == 2 * (Pow2(a) * Pow2(b - 1));
    }
  }

  lemma {:induction false} Pow2Grows(a: nat, b: nat)
    ensures a <= b ==> Pow2(a) <= Pow2(b)
  {
    if a < b {
      Pow2Grows(a, b - 1);
    }
  }

  // ----- Arithmetic in 64 bits -----

  lemma SameWrap(n: int, k: int)
    ensures Wrap(n + 0x1_0000_0000_0000_0000 * k) == Wrap(n)
  {
    var m := 0x1_0000_0000_0000_0000;
    DivUnique(n + m * k, m, n / m + k, n % m);
  }

  /** Wrapping a number before it is multiplied and added to, or only after, is the same. */
  lemma WrapTwice(n: int, c: int, d: int)
    ensures Wrap(c * Wrap(n) + d) == Wrap(c * n + d)
  {
    var q := (n - Wrap(n)) / 0x1_0000_0000_0000_0000;
    var m := 0x1_0000_0000_0000_0000;
    assert n == Wrap(n) + m * q;
    assert c * n == c * Wrap(n) + m * (c * q) by {
      assert c * (m * q) == m * (c * q);
      assert c * (Wrap(n) + m * q) == c * Wrap(n) + c * (m * q);
    }
    SameWrap(c * Wrap(n) + d, c * q);
  }
}
