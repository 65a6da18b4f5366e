/** Montgomery arithmetic: what the fields of an RSA public key record are for. Nothing here
    is called by the conversion; it is the meaning the conversion is proved against. */
module Montgomery {
  import opened Limbs
  import opened Modular

  /** n0inv is -1/n modulo the word base. */
  predicate Sound(n: nat, n0inv: word) {
    (n * n0inv + 1) % WORD_BASE == 0
  }

  /** The multiple of n that clears the lowest word of t. */
  function Digit(t: nat, n0inv: word): word {
    ((t % WORD_BASE) * n0inv) % WORD_BASE
  }

  function Step(t: nat, n: nat, n0inv: word): nat {
    (t + Digit(t, n0inv) * n) / WORD_BASE
  }

  /** k reduction steps. */
  function Reduce(t: nat, n: nat, n0inv: word, k: nat): nat
    decreases k
  {
    if k == 0 then t else Reduce(Step(t, n, n0inv), n, n0inv, k - 1)
  }

  /** How many times n was added, at full weight, over those k steps. */
  function Added(t: nat, n: nat, n0inv: word, k: nat): nat
    decreases k
  {
    if k == 0 then 0 else Digit(t, n0inv) + WORD_BASE * Added(Step(t, n, n0inv), n, n0inv, k - 1)
  }

  /** The k-word Montgomery product of x and y. */
  function Product(x: nat, y: nat, n: nat, n0inv: word, k: nat): nat {
    var t := Reduce(x * y, n, n0inv, k);
    if t >= n then t - n else t
  }

  lemma StepExact(t: nat, n: nat, n0inv: word)
    requires Sound(n, n0inv)
    ensures (t + Digit(t, n0inv) * n) % WORD_BASE == 0
    ensures WORD_BASE * Step(t, n, n0inv) == t + Digit(t, n0inv) * n
  {
    var lo, c := t % WORD_BASE, (n * n0inv + 1) / WORD_BASE;
    var e := (lo * n0inv) / WORD_BASE;
    var d := Digit(t, n0inv);
    assert d == lo * n0inv - e * WORD_BASE;
    assert n * n0inv == c * WORD_BASE - 1;
    calc {
      d * n;
      (lo * n0inv) * n - (e * WORD_BASE) * n;
      { MulOrder(lo, n0inv, n); MulOrder(e, WORD_BASE, n); MulOrder(n, e, WORD_BASE); }
      lo * (n0inv * n) - (n * e) * WORD_BASE;
      lo * (c * WORD_BASE - 1) - (n * e) * WORD_BASE;
      lo * (c * WORD_BASE) - lo - (n * e) * WORD_BASE;
      { MulOrder(lo, c, WORD_BASE); }
      (lo * c - n * e) * WORD_BASE - lo;
    }
  }

  /** The digit choice clears the low word of every t exactly when n0inv is sound. */
  lemma SoundMeaning(n: nat, n0inv: word)
    ensures Sound(n, n0inv) <==> forall t: nat :: (t + Digit(t, n0inv) * n) % WORD_BASE == 0
  {
    if Sound(n, n0inv) {
      forall t: nat ensures (t + Digit(t, n0inv) * n) % WORD_BASE == 0 {
        StepExact(t, n, n0inv);
      }
    } else {
      assert Digit(1, n0inv) == n0inv;
      assert (1 + Digit(1, n0inv) * n) % WORD_BASE != 0;
    }
  }

  /** Only an odd modulus can have a sound n0inv. */
  lemma SoundIsOdd(n: nat, n0inv: word)
    requires Sound(n, n0inv)
    ensures n % 2 == 1
  {
    EvenProduct(n, n0inv);
  }

  lemma {:induction false} ReduceExact(t: nat, n: nat, n0inv: word, k: nat)
    requires Sound(n, n0inv)
    ensures Radix(k) * Reduce(t, n, n0inv, k) == t + Added(t, n, n0inv, k) * n
    ensures Added(t, n, n0inv, k) < Radix(k)
    decreases k
  {
    if k > 0 {
      var t', d := Step(t, n, n0inv), Digit(t, n0inv);
      StepExact(t, n, n0inv);
      ReduceExact(t', n, n0inv, k - 1);
      var m := Added(t', n, n0inv, k - 1);
      AddedStep(Radix(k - 1), Reduce(t', n, n0inv, k - 1), t', m, n, t, d);
    }
  }

  lemma AddedStep(r: int, u: int, t': int, m: int, n: int, t: int, d: int)
    requires r * u == t' + m * n && WORD_BASE * t' == t + d * n
    ensures (WORD_BASE * r) * u == t + (d + WORD_BASE * m) * n
  {
    MulOrder(WORD_BASE, r, u);
    MulOrder(WORD_BASE, m, n);
  }

  lemma BelowTwice(r: int, u: int, t: int, m: int, n: int)
    requires r * u == t + m * n && t < n * r && 0 <= m < r && n > 0
    ensures u < 2 * n
  {
    MulMonotone(m, r, n);
    if u >= 2 * n {
      MulMonotone(2 * n, u, r);
      MulOrder(2, n, r);
      assert false;
    }
  }

  /** Any t below n * Radix(k) comes out below 2n, still congruent to t once multiplied back. */
  lemma ReduceSound(t: nat, n: nat, n0inv: word, k: nat)
    requires Sound(n, n0inv) && t < n * Radix(k)
    ensures Reduce(t, n, n0inv, k) < 2 * n
    ensures (Radix(k) * Reduce(t, n, n0inv, k)) % n == t % n
  {
    ReduceExact(t, n, n0inv, k);
    var r, u, m := Radix(k), Reduce(t, n, n0inv, k), Added(t, n, n0inv, k);
    AddMultiple(t, m, n);
    BelowTwice(r, u, t, m, n);
  }

  /** The word base, and so every radix, is invertible modulo n. */
  lemma {:induction false} CancelRadix(a: int, b: int, n: nat, n0inv: word, k: nat)
    requires n > 0 && Sound(n, n0inv)
    requires (Radix(k) * a) % n == (Radix(k) * b) % n
    ensures a % n == b % n
    decreases k
  {
    if k > 0 {
      var inv := (n * n0inv + 1) / WORD_BASE;
      assert WORD_BASE * inv == 1 + n0inv * n;
      AddMultiple(1, n0inv, n);
      MulOrder(WORD_BASE, Radix(k - 1), a);
      MulOrder(WORD_BASE, Radix(k - 1), b);
      CancelUnit(WORD_BASE, inv, Radix(k - 1) * a, Radix(k - 1) * b, n);
      CancelRadix(a, b, n, n0inv, k - 1);
    }
  }

  lemma SubtractOnce(u: int, n: int)
    requires 0 <= u < 2 * n
    ensures u % n == if u >= n then u - n else u
  {
    DivModUnique(u, n, if u >= n then 1 else 0, if u >= n then u - n else u);
  }

  /** The Montgomery product is the one number below n whose multiple by the radix is congruent
      to x * y. */
  lemma ProductIs(x: nat, y: nat, n: nat, n0inv: word, k: nat, z: int)
    requires Sound(n, n0inv) && x * y < n * Radix(k)
    requires (Radix(k) * z) % n == (x * y) % n
    ensures Product(x, y, n, n0inv, k) == z % n
  {
    var u, p := Reduce(x * y, n, n0inv, k), Product(x, y, n, n0inv, k);
    ReduceSound(x * y, n, n0inv, k);
    CancelRadix(u, z, n, n0inv, k);
    SubtractOnce(u, n);
  }

  /** A number in Montgomery form. */
  function Form(x: nat, n: nat, k: nat): nat
    requires n > 0
  {
    (x * Radix(k)) % n
  }

  lemma BelowProduct(x: nat, y: nat, n: nat, r: nat)
    requires x < n && y < r
    ensures x * y < n * r
  {
    assert x * y <= x * r by { assert x * (r - y) >= 0; }
    assert x * r < n * r by { assert (n - x) * r >= r by { Multiples(n - x, r); } }
  }

  lemma RegroupProduct(x: int, y: int, r: int)
    ensures (x * r) * (y * r) == r * ((x * y) * r)
  {
    MulOrder(x * r, y, r);
    MulOrder(x, r, y);
    MulOrder(y, x, r);
  }

  /** Montgomery multiplication multiplies under the Montgomery form. */
  lemma FormProduct(x: nat, y: nat, n: nat, n0inv: word, k: nat)
    requires n > 0 && Sound(n, n0inv) && n < Radix(k)
    ensures Product(Form(x, n, k), Form(y, n, k), n, n0inv, k) == Form(x * y, n, k)
  {
    var r, a, b := Radix(k), Form(x, n, k), Form(y, n, k);
    BelowProduct(a, b, n, r);
    ProductResidue(x, y, r, n);
    ProductIs(a, b, n, n0inv, k, (x * y) * r);
  }

  lemma ProductResidue(x: int, y: int, r: int, n: int)
    requires n > 0
    ensures (r * ((x * y) * r)) % n == (((x * r) % n) * ((y * r) % n)) % n
  {
    ResidueProduct(x * r, y * r, n);
    RegroupProduct(x, y, r);
  }

  lemma BackResidue(x: int, r: int, n: int)
    requires n > 0
    ensures (r * x) % n == (((x * r) % n) * 1) % n
  {
  }

  /** Multiplying by 1 leaves the Montgomery form. */
  lemma FormBack(x: nat, n: nat, n0inv: word, k: nat)
    requires n > 0 && Sound(n, n0inv) && n < Radix(k)
    ensures Product(Form(x, n, k), 1, n, n0inv, k) == x % n
  {
    var a := Form(x, n, k);
    Multiples(Radix(k), n);
    BackResidue(x, Radix(k), n);
    ProductIs(a, 1, n, n0inv, k, x);
  }

  /** Multiplying by Radix(k)^2 mod n enters it. */
  lemma FormEnter(x: nat, rr: nat, n: nat, n0inv: word, k: nat)
    requires Sound(n, n0inv) && x < n < Radix(k)
    requires rr == (Radix(k) * Radix(k)) % n
    ensures Product(x, rr, n, n0inv, k) == Form(x, n, k)
  {
    BelowProduct(x, rr, n, Radix(k));
    EnterResidue(x, Radix(k), n);
    ProductIs(x, rr, n, n0inv, k, x * Radix(k));
  }

  lemma EnterResidue(x: int, r: int, n: int)
    requires n > 0
    ensures (r * (x * r)) % n == (x * ((r * r) % n)) % n
  {
    CongruentProduct((r * r) % n, r * r, x, n);
    MulOrder(x, r, r);
  }

  function Power(x: nat, e: nat): nat {
    if e == 0 then 1 else Power(x, e - 1) * x
  }

  /** x to the power e by repeated Montgomery multiplication, x already in Montgomery form. */
  function FormPower(a: nat, e: nat, n: nat, n0inv: word, k: nat): nat
    requires e > 0
    decreases e
  {
    if e == 1 then a else Product(FormPower(a, e - 1, n, n0inv, k), a, n, n0inv, k)
  }

  lemma {:induction false} FormPowerIs(x: nat, e: nat, n: nat, n0inv: word, k: nat)
    requires e > 0 && n > 0 && Sound(n, n0inv) && n < Radix(k)
    ensures FormPower(Form(x, n, k), e, n, n0inv, k) == Form(Power(x, e), n, k)
    decreases e
  {
    if e == 1 {
      assert Power(x, 1) == Power(x, 0) * x == x;
    } else {
      FormPowerIs(x, e - 1, n, n0inv, k);
      FormProduct(Power(x, e - 1), x, n, n0inv, k);
    }
  }
}
