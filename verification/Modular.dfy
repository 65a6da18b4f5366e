/** Residues: the arithmetic behind BN_mod_inverse and Montgomery reduction. Two numbers are
    congruent modulo m when a % m == b % m. */
module Modular {
  import opened Limbs
  import opened Wrappers

  lemma DivModUnique(x: int, m: int, q: int, r: int)
    requires 0 <= r < m && x == q * m + r
    ensures x % m == r && x / m == q
  {
    var q', r' := x / m, x % m;
    assert m * (q - q') == r' - r by {
      assert x == q' * m + r';
    }
    Multiples(q - q', m);
  }

  lemma AddMultiple(a: int, q: int, m: int)
    requires m > 0
    ensures (a + q * m) % m == a % m
  {
    DivModUnique(a + q * m, m, q + a / m, a % m);
  }

  lemma CongruentDifference(a: int, b: int, m: int) returns (q: int)
    requires m > 0 && a % m == b % m
    ensures a == b + q * m
  {
    q := a / m - b / m;
    assert a == (a / m) * m + a % m && b == (b / m) * m + b % m;
  }

  lemma CongruentProduct(a: int, b: int, c: int, m: int)
    requires m > 0 && a % m == b % m
    ensures (a * c) % m == (b * c) % m
    ensures (c * a) % m == (c * b) % m
  {
    var q := CongruentDifference(a, b, m);
    assert a * c == b * c + (q * c) * m;
    AddMultiple(b * c, q * c, m);
    assert c * a == a * c && c * b == b * c;
  }

  lemma CongruentProducts(a: int, a': int, b: int, b': int, m: int)
    requires m > 0 && a % m == a' % m && b % m == b' % m
    ensures (a * b) % m == (a' * b') % m
  {
    CongruentProduct(a, a', b, m);
    CongruentProduct(b, b', a', m);
  }

  lemma ResidueProduct(a: int, b: int, m: int)
    requires m > 0
    ensures ((a % m) * (b % m)) % m == (a * b) % m
  {
    RemainderTwice(a, m);
    RemainderTwice(b, m);
    CongruentProducts(a % m, a, b % m, b, m);
  }

  lemma RemainderTwice(a: int, m: int)
    requires m > 0
    ensures (a % m) % m == a % m
  {
  }

  lemma EvenProduct(a: int, b: int)
    ensures a % 2 == 0 ==> (a * b) % 2 == 0
  {
    assert a == 2 * (a / 2) + a % 2;
    assert a % 2 == 0 ==> a * b == 2 * ((a / 2) * b);
  }

  /** A factor with an inverse cancels. */
  lemma CancelUnit(u: int, inv: int, a: int, b: int, m: int)
    requires m > 0 && (u * inv) % m == 1 % m
    requires (u * a) % m == (u * b) % m
    ensures a % m == b % m
  {
    CongruentProduct(u * a, u * b, inv, m);
    assert (u * a) * inv == (u * inv) * a && (u * b) * inv == (u * inv) * b;
    CongruentProduct(u * inv, 1, a, m);
    CongruentProduct(u * inv, 1, b, m);
  }

  function Pow2(k: nat): (p: nat)
    ensures p >= 1
  {
    if k == 0 then 1 else 2 * Pow2(k - 1)
  }

  /** An odd number has an inverse modulo every power of two. */
  lemma {:induction false} OddInverse(a: int, k: nat) returns (x: int, q: int)
    requires a % 2 == 1
    ensures a * x == 1 + q * Pow2(k)
  {
    if k == 0 {
      x, q := 1, a - 1;
      UnitModulus(a, Pow2(0));
    } else {
      var y, p := OddInverse(a, k - 1);
      x, q := DoubleModulus(a, y, p, Pow2(k - 1), Pow2(k));
    }
  }

  lemma UnitModulus(a: int, h: int)
    requires h == 1
    ensures a * 1 == 1 + (a - 1) * h
  {
  }

  lemma DoubleModulus(a: int, y: int, p: int, h: int, h2: int) returns (x: int, q: int)
    requires a % 2 == 1 && h2 == 2 * h && a * y == 1 + p * h
    ensures a * x == 1 + q * h2
  {
    if p % 2 == 0 {
      x, q := y, p / 2;
      MulOrder(q, 2, h);
    } else {
      x, q := y + h, (p + a) / 2;
      MulOrder(q, 2, h);
      Distribute(a, y, h);
      Distribute(h, p, a);
      assert (q * 2) * h == h * (p + a);
    }
  }

  lemma Distribute(a: int, b: int, c: int)
    ensures a * (b + c) == a * b + a * c
  {
  }

  lemma Pow2OfWord()
    ensures Pow2(8) == 256 && Pow2(16) == 0x1_0000 && Pow2(24) == 0x100_0000 && Pow2(32) == WORD_BASE
  {
  }

  /** Extended Euclid, BN_mod_inverse: the inverse of a modulo m, or None exactly when no number
      is one. The ghost numbers show that every common divisor survives each division step. */
  method ModInverse(a: nat, m: nat) returns (r: Option<nat>)
    requires m > 1
    ensures r.Some? ==> r.value < m && (a * r.value) % m == 1
    ensures r.None? ==> forall x: int :: (a * x) % m != 1
  {
    var r0, r1 := m, a;
    var t0, t1 := 0, 1;
    ghost var s0, s1 := 1, 0;
    ghost var u0, u1, v0, v1 := 0, 1, 1, 0;
    while r1 != 0
      invariant r0 > 0 && r1 >= 0
      invariant r0 == a * t0 + m * s0 && r1 == a * t1 + m * s1
      invariant a == r0 * u0 + r1 * u1 && m == r0 * v0 + r1 * v1
      decreases r1
    {
      var q := r0 / r1;
      ghost var r2 := r0 - q * r1;
      assert r2 == r0 % r1;
      DivisionStep(a, m, q, t0, s0, t1, s1);
      DivisorStep(q, r1, r2, u0, u1);
      DivisorStep(q, r1, r2, v0, v1);
      u0, u1 := q * u0 + u1, u0;
      v0, v1 := q * v0 + v1, v0;
      s0, s1 := s1, s0 - q * s1;
      t0, t1 := t1, t0 - q * t1;
      r0, r1 := r1, r0 - q * r1;
    }
    if r0 == 1 {
      r := Some(t0 % m);
      BezoutInverse(a, m, t0, s0);
    } else {
      r := None;
      forall x: int ensures (a * x) % m != 1 {
        CommonDivisor(a, m, r0, u0, v0, x);
      }
    }
  }

  lemma DivisionStep(a: int, m: int, q: int, t0: int, s0: int, t1: int, s1: int)
    ensures (a * t0 + m * s0) - q * (a * t1 + m * s1) == a * (t0 - q * t1) + m * (s0 - q * s1)
  {
    assert a * (t0 - q * t1) == a * t0 - q * (a * t1);
    assert m * (s0 - q * s1) == m * s0 - q * (m * s1);
  }

  lemma DivisorStep(q: int, r1: int, r2: int, u0: int, u1: int)
    ensures (q * r1 + r2) * u0 + r1 * u1 == r1 * (q * u0 + u1) + r2 * u0
  {
    assert (q * r1) * u0 == r1 * (q * u0);
  }

  lemma BezoutInverse(a: int, m: int, t: int, s: int)
    requires m > 1 && a * t + m * s == 1
    ensures (a * (t % m)) % m == 1
  {
    assert t == (t / m) * m + t % m;
    var e := -s - a * (t / m);
    assert a * (t % m) == a * t - a * ((t / m) * m) == a * t - (a * (t / m)) * m;
    assert a * (t % m) == 1 + e * m;
    AddMultiple(1, e, m);
    DivModUnique(1, m, 0, 1);
  }

  /** A common divisor other than 1 rules out every inverse. */
  lemma CommonDivisor(a: int, m: int, g: int, u: int, v: int, x: int)
    requires m > 1 && g > 0 && g != 1 && a == g * u && m == g * v
    ensures (a * x) % m != 1
  {
    if (a * x) % m == 1 {
      var q := (a * x) / m;
      assert a * x == m * q + 1;
      assert g * (u * x - v * q) == (g * u) * x - (g * v) * q == 1;
      var d := u * x - v * q;
      Multiples(d, g);
      assert false;
    }
  }
}
