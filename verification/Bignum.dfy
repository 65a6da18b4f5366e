/** openssl/bn.h: normalisation of a BIGNUM and the word tests that depend on it. The word is
    32 bits wide, as include/openssl/opensslconf.h configures it. */
module Bignum {
  import opened Limbs

  /** struct bignum_st; dmax is d.Length. */
  class BigNum {
    var d: array<word>
    var top: nat
    var neg: bool

    constructor (words: array<word>, used: nat, negative: bool)
      requires used <= words.Length
      ensures d == words && top == used && neg == negative && Valid()
    {
      d, top, neg := words, used, negative;
    }

    ghost predicate Valid()
      reads this
    {
      top <= d.Length
    }

    ghost function Words(): seq<word>
      reads this, d
      requires Valid()
    {
      d[..top]
    }

    ghost function Magnitude(): nat
      reads this, d
      requires Valid()
    {
      Value(Words())
    }

    ghost function Number(): int
      reads this, d
      requires Valid()
    {
      if neg then 0 - Magnitude() as int else Magnitude()
    }

    /** bn_correct_top: gives up zero words at the top until a non-zero one is found. */
    method CorrectTop()
      requires Valid()
      modifies `top
      ensures Valid() && Normal(Words()) && Number() == old(Number())
      ensures top <= old(top) && forall i :: top <= i < old(top) ==> d[i] == 0
    {
      if top > 0 {
        var ftl: int := top - 1;
        while top > 0
          invariant ftl == top - 1 && top <= old(top)
          invariant Magnitude() == old(Magnitude())
          invariant forall i :: top <= i < old(top) ==> d[i] == 0
        {
          var word := d[ftl];
          ftl := ftl - 1;
          if word != 0 {
            break;
          }
          ValueAppend(d[..top - 1], 0);
          assert d[..top] == d[..top - 1] + [0];
          top := top - 1;
        }
      }
    }

    predicate AbsIsWord(w: word)
      reads this, d
      requires Valid()
    {
      (top == 1 && d[0] == w) || (w == 0 && top == 0)
    }

    predicate IsZero()
      reads this
    {
      top == 0
    }

    predicate IsOne()
      reads this, d
      requires Valid()
    {
      AbsIsWord(1) && !neg
    }

    predicate IsWord(w: word)
      reads this, d
      requires Valid()
    {
      AbsIsWord(w) && (w == 0 || !neg)
    }

    predicate IsOdd()
      reads this, d
      requires Valid()
    {
      top > 0 && d[0] % 2 == 1
    }

    predicate IsNegative()
      reads this
    {
      neg
    }
  }

  /** On a normalised bignum the absolute word test is numeric equality. */
  lemma AbsIsWordExact(a: BigNum, w: word)
    requires a.Valid() && Normal(a.Words())
    ensures a.AbsIsWord(w) <==> a.Magnitude() == w
  {
    var same := if w == 0 then [] else [w];
    assert Value(same) == w by {
      assert w != 0 ==> same[1..] == [];
    }
    assert a.AbsIsWord(w) ==> a.Words() == same;
    if a.Magnitude() == w {
      NormalUnique(a.Words(), same);
      assert |a.Words()| == a.top;
      assert w != 0 ==> a.Words()[0] == a.d[0];
    }
  }

  /** On a normalised bignum every word test decides the signed number exactly. */
  lemma WordTestsExact(a: BigNum, w: word)
    requires a.Valid() && Normal(a.Words())
    ensures a.IsZero() <==> a.Number() == 0
    ensures a.IsOne() <==> a.Number() == 1
    ensures a.IsWord(w) <==> a.Number() == w
  {
    AbsIsWordExact(a, 0);
    AbsIsWordExact(a, 1);
    AbsIsWordExact(a, w);
    if a.top > 0 {
      NormalMeansLarge(a.Words());
    }
  }

  lemma Parity(m: int)
    ensures (m % WORD_BASE) % 2 == m % 2 == (0 - m) % 2
  {
  }

  /** The parity test needs no normalisation. */
  lemma IsOddExact(a: BigNum)
    requires a.Valid()
    ensures a.IsOdd() <==> a.Number() % 2 == 1
  {
    if a.top > 0 {
      LowWord(a.Words());
      assert a.Words()[0] == a.d[0];
    }
    Parity(a.Magnitude());
  }

  /** The sign test decides the sign exactly when zero is not marked negative, a mark that
      normalisation never takes away. */
  lemma NegativeExact(a: BigNum)
    requires a.Valid() && Normal(a.Words())
    ensures (a.IsNegative() <==> a.Number() < 0) <==> !(a.neg && a.top == 0)
  {
    WordTestsExact(a, 0);
  }

  /** Equal normalised numbers have the same top and the same words. */
  lemma SameNumberSameWords(a: BigNum, b: BigNum)
    requires a.Valid() && b.Valid() && Normal(a.Words()) && Normal(b.Words())
    requires a.Magnitude() == b.Magnitude()
    ensures a.top == b.top && a.d[..a.top] == b.d[..b.top]
  {
    NormalUnique(a.Words(), b.Words());
  }

  /** Without normalisation the zero test misses a zero exactly when some words are in use. */
  lemma IsZeroUnnormalised(a: BigNum)
    requires a.Valid()
    ensures (a.IsZero() <==> a.Number() == 0) <==> (a.top == 0 || exists i :: 0 <= i < a.top && a.d[i] != 0)
  {
    ZeroWords(a.Words());
    assert forall i :: 0 <= i < a.top ==> a.Words()[i] == a.d[i];
  }

  lemma {:induction false} ZeroWords(ws: seq<word>)
    ensures Value(ws) == 0 <==> forall i :: 0 <= i < |ws| ==> ws[i] == 0
  {
    if ws != [] {
      ZeroWords(ws[1..]);
      assert forall i :: 1 <= i < |ws| ==> ws[i] == ws[1..][i - 1];
    }
  }
}
