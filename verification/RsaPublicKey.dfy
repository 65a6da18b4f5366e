/** adb_auth_host.cpp: the pre-computed public key record written beside a private key. */
module RsaKey {
  import opened Limbs
  import opened Modular
  import opened Montgomery
  import opened Wrappers

  /** The fields of struct RSAPublicKey as values. */
  datatype KeyRecord = KeyRecord(len: int, n0inv: word, n: seq<word>, rr: seq<word>, exponent: int)

  /** struct RSAPublicKey; RSANUMWORDS words in the original, any number here. */
  class RsaPublicKey {
    var len: int
    var n0inv: word
    const n: array<word>
    const rr: array<word>
    var exponent: int

    constructor (words: nat)
      ensures n.Length == words && rr.Length == words && n != rr && fresh(n) && fresh(rr)
    {
      n := new word[words];
      rr := new word[words];
    }

    ghost function View(): KeyRecord
      reads this, n, rr
    {
      KeyRecord(len, n0inv, n[..], rr[..], exponent)
    }
  }

  /** BN_get_word: the value, or all ones when it takes more than one word. */
  function GetWord(a: nat): word {
    if a < WORD_BASE then a else WORD_BASE - 1
  }

  /** Unsigned negation of a word: 0 - w, wrapping. */
  function NegateWord(w: word): word {
    (0 - w as int) % WORD_BASE
  }

  /** What each field of a k-word record for the key (n, e) must be. For an even n, whose lowest
      word has no inverse, n0inv is left at zero. */
  ghost predicate Precomputed(key: KeyRecord, n: nat, e: nat, k: nat) {
    && key.len == k && |key.n| == k && |key.rr| == k && k > 0 && n > 0
    && Value(key.n) == n
    && Value(key.rr) == (Radix(k) * Radix(k)) % n
    && (if n % 2 == 1 then (key.n[0] * key.n0inv) % WORD_BASE == WORD_BASE - 1 else key.n0inv == 0)
    && key.exponent == AsInt32(GetWord(e))
  }

  /** A number has an inverse modulo the word base exactly when it is odd. */
  lemma WordInverse(a: nat)
    ensures a % 2 == 1 <==> exists x: int :: (a * x) % WORD_BASE == 1
  {
    if a % 2 == 1 {
      var x, q := OddInverse(a, 32);
      Pow2OfWord();
      assert (a * x) % WORD_BASE == 1;
    } else {
      forall x: int ensures (a * x) % WORD_BASE != 1 {
        EvenProduct(a, x);
      }
    }
  }

  /** The negated inverse times the low word is -1. */
  lemma NegatedInverse(w: word, inv: word)
    requires (w * inv) % WORD_BASE == 1
    ensures (w * NegateWord(inv)) % WORD_BASE == WORD_BASE - 1
  {
    var q := (w * inv) / WORD_BASE;
    assert inv != 0;
    assert NegateWord(inv) == WORD_BASE - inv;
    assert w * (WORD_BASE - inv) == w * WORD_BASE - w * inv == (w - q - 1) * WORD_BASE + WORD_BASE - 1;
  }

  /** The n0inv field for a modulus, given what the inversion of its low word returned. */
  lemma StoredInverse(modulus: nat, inverse: Option<nat>, n0: word)
    requires inverse.Some? ==> inverse.value < WORD_BASE && ((modulus % WORD_BASE) * inverse.value) % WORD_BASE == 1
    requires inverse.None? ==> forall x: int :: ((modulus % WORD_BASE) * x) % WORD_BASE != 1
    requires n0 == if inverse.Some? then NegateWord(inverse.value) else 0
    ensures if modulus % 2 == 1 then ((modulus % WORD_BASE) * n0) % WORD_BASE == WORD_BASE - 1 else n0 == 0
  {
    var low := modulus % WORD_BASE;
    assert low % 2 == modulus % 2;
    WordInverse(low);
    if inverse.Some? {
      NegatedInverse(low, inverse.value);
    }
  }

  /** RSA_to_RSAPublicKey. The two digit loops run interleaved over the running quotients rr and n;
      the key must be exactly as many bytes long as the record holds. */
  method RsaToRsaPublicKey(modulus: nat, publicExponent: nat, pkey: RsaPublicKey, words: nat) returns (ret: int)
    requires words > 0 && pkey.n.Length == words == pkey.rr.Length && pkey.n != pkey.rr
    modifies pkey, pkey.n, pkey.rr
    ensures ret == if NumBytes(modulus) == 4 * words then 1 else 0
    ensures ret == 0 ==> pkey.View() == old(pkey.View())
    ensures ret == 1 ==> Precomputed(pkey.View(), modulus, publicExponent, words)
  {
    ret := 1;
    if NumBytes(modulus) != 4 * words {
      ret := 0;
      return;
    }
    NumBytesRange(modulus, words);

    var n := modulus;
    var r := Radix(words);
    var rr := (r * r) % n;
    ghost var rSquared := rr;
    var rem := n % WORD_BASE;
    var n0inv := 0;
    var inverse := ModInverse(rem, WORD_BASE);
    if inverse.Some? {
      n0inv := inverse.value;
    }

    pkey.len := words;
    pkey.n0inv := NegateWord(GetWord(n0inv));
    ghost var n0 := pkey.n0inv;
    StoredInverse(modulus, inverse, n0);
    for i := 0 to words
      invariant pkey.len == words
      invariant pkey.n0inv == n0
      invariant n >= 0 && Unfinished(pkey.n[..i], n, modulus)
      invariant rr >= 0 && Unfinished(pkey.rr[..i], rr, rSquared)
    {
      PeelWord(pkey.rr[..i], rr, rSquared);
      PeelWord(pkey.n[..i], n, modulus);
      rr, rem := rr / WORD_BASE, rr % WORD_BASE;
      pkey.rr[i] := GetWord(rem);
      n, rem := n / WORD_BASE, n % WORD_BASE;
      pkey.n[i] := GetWord(rem);
      assert pkey.rr[..i + 1] == pkey.rr[..i] + [pkey.rr[i]];
      assert pkey.n[..i + 1] == pkey.n[..i] + [pkey.n[i]];
    }
    assert pkey.n[..words] == pkey.n[..] && pkey.rr[..words] == pkey.rr[..];
    Finished(pkey.n[..], n, modulus);
    Finished(pkey.rr[..], rr, rSquared);
    pkey.exponent := AsInt32(GetWord(publicExponent));
    LowWord(pkey.n[..]);
  }

  /** -1 has one quotient by an odd word. */
  lemma MinusOneUnique(w: word, a: word, b: word)
    requires (w * a) % WORD_BASE == WORD_BASE - 1 == (w * b) % WORD_BASE
    ensures a == b
  {
    var q := (w * a) / WORD_BASE;
    var u: int, inv: int := w, 0 - a as int;
    assert u * inv == 1 + (-(q + 1)) * WORD_BASE;
    AddMultiple(1, -(q + 1), WORD_BASE);
    CancelUnit(u, inv, a, b, WORD_BASE);
  }

  /** The conditions leave no freedom: a key has exactly one record of each length. */
  lemma RecordUnique(a: KeyRecord, b: KeyRecord, n: nat, e: nat, k: nat)
    requires Precomputed(a, n, e, k) && Precomputed(b, n, e, k)
    ensures a == b
  {
    ValueInjective(a.n, b.n);
    ValueInjective(a.rr, b.rr);
    if n % 2 == 1 {
      MinusOneUnique(a.n[0], a.n0inv, b.n0inv);
    }
  }

  /** A key the conversion accepts fills the record: the modulus words are a normalised bignum,
      with nothing left over for fewer words. */
  lemma AcceptedModulusNormal(key: KeyRecord, n: nat, e: nat, k: nat)
    requires Precomputed(key, n, e, k) && NumBytes(n) == 4 * k
    ensures Normal(key.n) && key.n[k - 1] >= 0x100_0000
  {
    NumBytesRange(n, k);
    var lower, w := key.n[..k - 1], key.n[k - 1];
    assert key.n == lower + [w];
    ValueAppend(lower, w);
    ValueBound(lower);
    assert |lower| == k - 1 && Value(lower) + Radix(k - 1) * w == n;
    TopDigit(Radix(k - 1), w, Value(lower));
  }

  lemma TopDigit(r: int, w: int, low: int)
    requires r > low && r >= 0 && low + r * w >= 0x100_0000 * r
    ensures w >= 0x100_0000
  {
    Multiples(w - 0xFF_FFFF, r);
    assert r * (w - 0xFF_FFFF) == r * w - 0xFF_FFFF * r;
  }

  lemma LowWordDecides(n: nat, w: word)
    ensures (n * w + 1) % WORD_BASE == 0 <==> ((n % WORD_BASE) * w) % WORD_BASE == WORD_BASE - 1
  {
    var low := n % WORD_BASE;
    RemainderTwice(n, WORD_BASE);
    CongruentProduct(low, n, w, WORD_BASE);
    OneShort(n * w);
  }

  lemma OneShort(x: int)
    ensures (x + 1) % WORD_BASE == 0 <==> x % WORD_BASE == WORD_BASE - 1
  {
  }

  /** The stored n0inv serves the whole modulus, for every number to be reduced, exactly when the
      modulus is odd; the conversion itself does not refuse an even one. */
  lemma StoredInverseSound(key: KeyRecord, n: nat, e: nat, k: nat)
    requires Precomputed(key, n, e, k)
    ensures n % 2 == 1 <==> forall t: nat :: (t + Digit(t, key.n0inv) * n) % WORD_BASE == 0
    ensures n % 2 == 1 <==> Sound(n, key.n0inv)
  {
    SoundMeaning(n, key.n0inv);
    if Sound(n, key.n0inv) {
      SoundIsOdd(n, key.n0inv);
    } else {
      LowWord(key.n);
      LowWordDecides(n, key.n0inv);
    }
    if n % 2 == 1 {
      LowWord(key.n);
      LowWordDecides(n, key.n0inv);
    }
  }

  /** For every record length, the original's 64 words included, a concrete even modulus that the size
      test accepts and whose record cannot even reduce 1. */
  lemma EvenModulusUnserved(key: KeyRecord, n: nat, e: nat, k: nat)
    requires k > 0 && n == 0x8000_0000 * Radix(k - 1) && Precomputed(key, n, e, k)
    ensures NumBytes(n) == 4 * k
    ensures key.n0inv == 0 && (1 + Digit(1, key.n0inv) * n) % WORD_BASE == 1
  {
    NumBytesRange(n, k);
    assert n % 2 == 0;
  }

  /** k steps with the stored n0inv bring any t below n * R under 2n, multiplied by 1/R modulo n. */
  lemma RecordReduces(key: KeyRecord, n: nat, e: nat, k: nat, t: nat)
    requires Precomputed(key, n, e, k) && n % 2 == 1 && t < n * Radix(k)
    ensures Reduce(t, n, key.n0inv, k) < 2 * n
    ensures (Radix(k) * Reduce(t, n, key.n0inv, k)) % n == t % n
  {
    StoredInverseSound(key, n, e, k);
    ReduceSound(t, n, key.n0inv, k);
  }

  lemma SmallResidue(x: int, n: int)
    requires 0 <= x < n
    ensures x % n == x
  {
  }

  /** The number held in rr is the conversion constant: multiplying by it enters Montgomery form,
      and multiplying by 1 comes back. */
  lemma RecordConverts(key: KeyRecord, n: nat, e: nat, k: nat, x: nat)
    requires Precomputed(key, n, e, k) && n % 2 == 1 && x < n
    ensures Product(x, Value(key.rr), n, key.n0inv, k) == Form(x, n, k)
    ensures Product(Product(x, Value(key.rr), n, key.n0inv, k), 1, n, key.n0inv, k) == x
  {
    StoredInverseSound(key, n, e, k);
    ValueBound(key.n);
    FormEnter(x, Value(key.rr), n, key.n0inv, k);
    FormBack(x, n, key.n0inv, k);
    SmallResidue(x, n);
  }

  /** What the record is shipped for: entering with rr, multiplying d times and leaving with 1
      computes x to the power d modulo n. */
  lemma RecordExponentiates(key: KeyRecord, n: nat, e: nat, k: nat, x: nat, d: nat)
    requires Precomputed(key, n, e, k) && n % 2 == 1 && x < n && d > 0
    ensures var a := Product(x, Value(key.rr), n, key.n0inv, k);
            Product(FormPower(a, d, n, key.n0inv, k), 1, n, key.n0inv, k) == Power(x, d) % n
  {
    StoredInverseSound(key, n, e, k);
    ValueBound(key.n);
    FormEnter(x, Value(key.rr), n, key.n0inv, k);
    FormPowerIs(x, d, n, key.n0inv, k);
    FormBack(Power(x, d), n, key.n0inv, k);
  }

  lemma StoredExponent(e: nat)
    ensures AsInt32(GetWord(e)) == e <==> e < 0x8000_0000
    ensures e >= 0x1_0000_0000 ==> AsInt32(GetWord(e)) == -1
  {
  }

  /** The stored exponent is the key's exactly when that fits a signed word, and -1 when it does not
      even fit a word. When it is the key's, raising to it with the record is the public operation of
      the key. */
  lemma RecordVerifies(key: KeyRecord, n: nat, e: nat, k: nat, x: nat)
    requires Precomputed(key, n, e, k) && n % 2 == 1 && x < n
    ensures key.exponent == e <==> e < 0x8000_0000
    ensures e >= 0x1_0000_0000 ==> key.exponent == -1
    ensures key.exponent > 0 && key.exponent == e ==>
              var a := Product(x, Value(key.rr), n, key.n0inv, k);
              Product(FormPower(a, key.exponent, n, key.n0inv, k), 1, n, key.n0inv, k) == Power(x, e) % n
  {
    StoredExponent(e);
    if key.exponent > 0 && key.exponent == e {
      RecordExponentiates(key, n, e, k, x, e);
    }
  }
}
