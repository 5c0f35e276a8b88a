/**
 The probe sequence of `Map.probe` (stdlib/builtins.kod) as a number sequence, and the
 number theory that makes it meet every slot of a power-of-two table.
 */
module ProbeCycle {
  import opened Kod

  /** `((x % size) + size) % size` with Kod's truncating `%`. */
  function WrapSlot(x: int, size: nat): int
    requires size > 0
  {
    TruncMod(TruncMod(x, size) + size, size)
  }

  lemma WrapSlotIsModulus(x: int, size: nat)
    requires size > 0
    ensures WrapSlot(x, size) == x % size
  {
    TruncSpec(x, size);
    var r := TruncMod(x, size);
    TruncSpec(r + size, size);
    var s := TruncMod(r + size, size);
    var d := TruncDiv(x, size) - 1 + TruncDiv(r + size, size);
    assert x == size * d + s by {
      assert x == size * TruncDiv(x, size) + r;
      assert r + size == size * TruncDiv(r + size, size) + s;
      assert size * d == size * TruncDiv(x, size) - size + size * TruncDiv(r + size, size);
    }
    DivUnique(x, size, d, s);
  }

  /** `perturb` after `n` rounds of the loop. */
  function Perturb(h: int64, n: nat): int
  {
    if n == 0 then h else TruncDiv(Perturb(h, n - 1), 32)
  }

  /** `slot` after `n` rounds of the loop. */
  function Slot(h: int64, size: nat, n: nat): int
    requires size > 0
  {
    if n == 0 then WrapSlot(h, size)
    else WrapSlot(5 * Slot(h, size, n - 1) + 1 + Perturb(h, n), size)
  }

  lemma SlotInRange(h: int64, size: nat, n: nat)
    requires size > 0
    ensures 0 <= Slot(h, size, n) < size
  {
    if n == 0 {
      WrapSlotIsModulus(h, size);
    } else {
      WrapSlotIsModulus(5 * Slot(h, size, n - 1) + 1 + Perturb(h, n), size);
    }
  }

  // ----- The perturbation dies out -----

  const PERTURB_ROUNDS: nat := 13

  lemma {:induction false} PerturbShrinks(h: int64, n: nat)
    requires n <= 12
    ensures -(Pow2(63 - 5 * n) as int) <= Perturb(h, n) <= Pow2(63 - 5 * n)
  {
    if n == 0 {
      assert Pow2(63) == 0x8000_0000_0000_0000 by { Pow2Values(); }
    } else {
      PerturbShrinks(h, n - 1);
      var k := 63 - 5 * n;
      assert Pow2(k + 5) == 2 * Pow2(k + 4) == 4 * Pow2(k + 3) == 8 * Pow2(k + 2) == 16 * Pow2(k + 1) == 32 * Pow2(k);
    }
  }

  lemma {:induction false} PerturbDies(h: int64, n: nat)
    requires n >= PERTURB_ROUNDS
    ensures Perturb(h, n) == 0
  {
    if n == PERTURB_ROUNDS {
      PerturbShrinks(h, 12);
      Pow2Values();
    } else {
      PerturbDies(h, n - 1);
    }
  }

  // ----- x -> 5x + 1 is one cycle modulo every power of two -----

  /** `n` rounds of `x -> 5 * x + 1` over the integers. */
  function Lcg(x: int, n: nat): int
  {
    if n == 0 then x else 5 * Lcg(x, n - 1) + 1
  }

  lemma {:induction false} LcgSplit(x: int, m: nat, n: nat)
    ensures Lcg(x, m + n) == Lcg(Lcg(x, m), n)
  {
    if n > 0 {
      LcgSplit(x, m, n - 1);
    }
  }

  /** `2^k` rounds are the affine map `x -> Factor(k) * x + Offset(k)`. */
  function Factor(k: nat): int
  {
    if k == 0 then 5 else Factor(k - 1) * Factor(k - 1)
  }

  function Offset(k: nat): int
  {
    if k == 0 then 1 else Offset(k - 1) * (Factor(k - 1) + 1)
  }

  // The algebra of the steps below, over plain integers.
  lemma AffineTwice(f: int, o: int, x: int)
    ensures f * (f * x + o) + o == (f * f) * x + o * (f + 1)
  {
    assert f * (f * x) == (f * f) * x;
  }

  lemma FactorStep(p: int, m: int)
    ensures (1 + 4 * (p * m)) * (1 + 4 * (p * m)) == 1 + 4 * ((2 * p) * (m * (1 + 2 * (p * m))))
  {
    var u := p * m;
    assert (2 * p) * (m * (1 + 2 * u)) == 2 * (u * (1 + 2 * u));
  }

  lemma OffsetStep(p: int, o: int, u: int)
    ensures (p * (2 * o + 1)) * (1 + 4 * u + 1) == (2 * p) * (2 * (o + u * (2 * o + 1)) + 1)
  {
    var w := 2 * o + 1;
    assert (p * w) * (2 + 4 * u) == (2 * p) * (w * (1 + 2 * u));
  }

  lemma MoveIsOdd(p: int, m: int, o: int, x: int)
    ensures (1 + 4 * (p * m)) * x + p * (2 * o + 1) == x + p * (2 * (2 * (m * x) + o) + 1)
  {
    assert (p * m) * x == p * (m * x);
  }

  lemma {:induction false} LeapIsAffine(x: int, k: nat)
    ensures Lcg(x, Pow2(k)) == Factor(k) * x + Offset(k)
    decreases k
  {
    if k == 0 {
      assert Lcg(x, 1) == 5 * Lcg(x, 0) + 1;
    } else {
      var p, f, o := Pow2(k - 1), Factor(k - 1), Offset(k - 1);
      LcgSplit(x, p, p);
      LeapIsAffine(x, k - 1);
      LeapIsAffine(f * x + o, k - 1);
      AffineTwice(f, o, x);
    }
  }

  /** `Factor(k)` is 1 modulo `2^(k+2)`, and `Offset(k)` is an odd multiple of `2^k`. */
  lemma {:induction false} LeapShape(k: nat) returns (m: int, o: int)
    ensures Factor(k) == 1 + 4 * (Pow2(k) * m)
    ensures Offset(k) == Pow2(k) * (2 * o + 1)
  {
    if k == 0 {
      m, o := 1, 0;
    } else {
      var m0, o0 := LeapShape(k - 1);
      var p := Pow2(k - 1);
      m := m0 * (1 + 2 * (p * m0));
      o := o0 + (p * m0) * (2 * o0 + 1);
      FactorStep(p, m0);
      OffsetStep(p, o0, p * m0);
    }
  }

  /** After `2^k` rounds the value has moved by an odd multiple of `2^k`. */
  lemma LeapMovesOdd(x: int, k: nat) returns (c: int)
    ensures Lcg(x, Pow2(k)) == x + Pow2(k) * (2 * c + 1)
  {
    LeapIsAffine(x, k);
    var m, o := LeapShape(k);
    c := 2 * (m * x) + o;
    MoveIsOdd(Pow2(k), m, o, x);
  }

  lemma Regroup(p: int, q: int, c: int, r: int)
    requires 2 * r == q + 2 * c + 1
    ensures p * q + p * (2 * c + 1) == (2 * p) * r
  {
    assert p * q + p * (2 * c + 1) == p * (2 * r);
  }

  /** Full period: every residue modulo `2^k` is met within `2^k` rounds, from any start. */
  lemma {:induction false} FullCycle(x: int, target: int, k: nat) returns (n: nat, q: int)
    ensures n < Pow2(k)
    ensures Lcg(x, n) == target + Pow2(k) * q
  {
    if k == 0 {
      n, q := 0, x - target;
    } else {
      var n0, q0 := FullCycle(x, target, k - 1);
      var p := Pow2(k - 1);
      if q0 % 2 == 0 {
        n, q := n0, q0 / 2;
        assert p * q0 == (2 * p) * q by { assert q0 == 2 * q; }
      } else {
        LcgSplit(x, n0, p);
        var c := LeapMovesOdd(Lcg(x, n0), k - 1);
        n, q := n0 + p, (q0 + 1) / 2 + c;
        Regroup(p, q0, c, q);
      }
    }
  }

  // ----- The two together -----

  lemma StepRespectsModulus(x: int, size: nat)
    requires size > 0
    ensures (5 * x + 1) % size == (5 * (x % size) + 1) % size
  {
    var q, s := x / size, x % size;
    var d := (5 * s + 1) / size;
    assert 5 * x + 1 == size * (d + 5 * q) + (5 * s + 1) % size by {
      assert size * (d + 5 * q) == size * d + 5 * (size * q);
    }
    DivUnique(5 * x + 1, size, d + 5 * q, (5 * s + 1) % size);
  }

  lemma {:induction false} TailFollowsLcg(h: int64, size: nat, n: nat)
    requires size > 0
    ensures Slot(h, size, PERTURB_ROUNDS + n) == Lcg(Slot(h, size, PERTURB_ROUNDS), n) % size
  {
    var s0 := Slot(h, size, PERTURB_ROUNDS);
    if n == 0 {
      SlotInRange(h, size, PERTURB_ROUNDS);
      DivUnique(s0, size, 0, s0);
    } else {
      TailFollowsLcg(h, size, n - 1);
      var s := Slot(h, size, PERTURB_ROUNDS + n - 1);
      PerturbDies(h, PERTURB_ROUNDS + n);
      WrapSlotIsModulus(5 * s + 1, size);
      StepRespectsModulus(Lcg(s0, n - 1), size);
    }
  }

  /**
   The reason `probe`'s `for true` loop ends: whatever the hash, the probe sequence of a
   table of `2^k` slots meets every slot within its first `13 + 2^k` rounds.
   */
  lemma ProbeMeetsEverySlot(h: int64, k: nat, target: nat) returns (n: nat)
    requires target < Pow2(k)
    ensures n < PERTURB_ROUNDS + Pow2(k)
    ensures Slot(h, Pow2(k), n) == target
  {
    var s0 := Slot(h, Pow2(k), PERTURB_ROUNDS);
    var m, q := FullCycle(s0, target, k);
    TailFollowsLcg(h, Pow2(k), m);
    n := PERTURB_ROUNDS + m;
    DivUnique(Lcg(s0, m), Pow2(k), q, target);
  }

  predicate InInt64(x: int) { INT64_MIN <= x <= INT64_MAX }

  /**
   No intermediate value of a round leaves int64, for every table that fits in memory
   (8 bytes a slot, so at most 2^60 slots).
   */
  lemma RoundFitsInt64(h: int64, size: nat, n: nat)
    requires 0 < size <= 0x1000_0000_0000_0000
    ensures var x := 5 * Slot(h, size, n) + 1 + Perturb(h, n + 1);
            InInt64(x) && InInt64(TruncMod(x, size) + size)
    ensures InInt64(TruncMod(h, size) + size)
  {
    SlotInRange(h, size, n);
    PerturbInRange(h, n);
    TruncSpec(h, size);
    TruncSpec(5 * Slot(h, size, n) + 1 + Perturb(h, n + 1), size);
  }

  lemma {:induction false} PerturbInRange(h: int64, n: nat)
    ensures InInt64(Perturb(h, n))
    ensures -0x400_0000_0000_0000 <= Perturb(h, n + 1) <= 0x400_0000_0000_0000
  {
    if n > 0 {
      PerturbInRange(h, n - 1);
    }
    TruncSpec(Perturb(h, n), 32);
  }
}
