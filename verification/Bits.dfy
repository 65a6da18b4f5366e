/** Bitwise operations on non-negative integers, bit by bit. */
module Bits {
  import opened Limbs
  import opened Modular

  /** Bit i of a, least significant first. */
  predicate Bit(a: nat, i: nat)
    decreases i
  {
    if i == 0 then a % 2 == 1 else Bit(a / 2, i - 1)
  }

  /** It is the binary digit of weight 2^i. */
  lemma {:induction false} BitIsDigit(a: nat, i: nat)
    ensures Bit(a, i) <==> (a / Pow2(i)) % 2 == 1
    decreases i
  {
    if i > 0 {
      BitIsDigit(a / 2, i - 1);
      HalvedQuotient(a, Pow2(i - 1));
    }
  }

  lemma HalvedQuotient(a: nat, h: nat)
    requires h > 0
    ensures a / 2 / h == a / (2 * h)
  {
    var q, r := a / 2 / h, (a / 2) % h;
    MulOrder(2, h, q);
    assert a / 2 == h * q + r;
    DivModUnique(a, 2 * h, q, 2 * r + a % 2);
  }

  function And(a: nat, b: nat): (r: nat)
    ensures r <= a
  {
    if a == 0 then 0 else 2 * And(a / 2, b / 2) + if a % 2 == 1 && b % 2 == 1 then 1 else 0
  }

  function Or(a: nat, b: nat): (r: nat)
    ensures r >= a && r >= b
  {
    if a == 0 then b else 2 * Or(a / 2, b / 2) + if a % 2 == 1 || b % 2 == 1 then 1 else 0
  }

  lemma AndHalf(a: nat, b: nat)
    ensures And(a, b) / 2 == And(a / 2, b / 2)
    ensures And(a, b) % 2 == 1 <==> a % 2 == 1 && b % 2 == 1
  {
  }

  lemma OrHalf(a: nat, b: nat)
    ensures Or(a, b) / 2 == Or(a / 2, b / 2)
    ensures Or(a, b) % 2 == 1 <==> a % 2 == 1 || b % 2 == 1
  {
  }

  /** And and Or are the bitwise operations. */
  lemma {:induction false} AndBits(a: nat, b: nat, i: nat)
    ensures Bit(And(a, b), i) <==> Bit(a, i) && Bit(b, i)
    decreases i
  {
    AndHalf(a, b);
    if i > 0 {
      AndBits(a / 2, b / 2, i - 1);
    }
  }

  lemma {:induction false} OrBits(a: nat, b: nat, i: nat)
    ensures Bit(Or(a, b), i) <==> Bit(a, i) || Bit(b, i)
    decreases i
  {
    OrHalf(a, b);
    if i > 0 {
      OrBits(a / 2, b / 2, i - 1);
    }
  }

  lemma {:induction false} OrBound(a: nat, b: nat, k: nat)
    requires a < Pow2(k) && b < Pow2(k)
    ensures Or(a, b) < Pow2(k)
    decreases k
  {
    if a != 0 {
      assert k > 0;
      OrBound(a / 2, b / 2, k - 1);
    }
  }

  lemma OrIsWord(a: word, b: word)
    ensures Or(a, b) < WORD_BASE
  {
    Pow2OfWord();
    OrBound(a, b, 32);
  }

  /** Numbers that share no bit position are added by or. */
  lemma {:induction false} OrDisjoint(a: nat, b: nat, k: nat)
    requires a < Pow2(k)
    ensures Or(a, b * Pow2(k)) == a + b * Pow2(k)
    decreases k
  {
    if a != 0 {
      assert k > 0;
      var h := Pow2(k - 1);
      MulOrder(b, 2, h);
      OrDisjoint(a / 2, b, k - 1);
    }
  }
}
