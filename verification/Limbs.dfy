/** Little-endian multi-word numbers: the limb arrays of an RSA public key record and of a
    BIGNUM, both with 32-bit words. */
module Limbs {

  const WORD_BASE: nat := 0x1_0000_0000

  type word = w: nat | w < WORD_BASE

  /** A number stored in a 32-bit signed int: the low 32 bits in two's complement. */
  function AsInt32(x: int): int {
    (x + 0x8000_0000) % WORD_BASE - 0x8000_0000
  }

  /** WORD_BASE to the power k: the Montgomery radix of a k-word modulus. */
  function Radix(k: nat): (r: nat)
    ensures r >= 1
  {
    if k == 0 then 1 else WORD_BASE * Radix(k - 1)
  }

  /** The number a limb array stands for, least significant word first. */
  function Value(ws: seq<word>): nat {
    if ws == [] then 0 else ws[0] + WORD_BASE * Value(ws[1..])
  }

  lemma MulOrder(x: int, y: int, z: int)
    ensures x * (y * z) == (x * y) * z == y * (x * z)
  {
  }

  /** A word appended at the top weighs Radix(|ws|). */
  lemma {:induction false} ValueAppend(ws: seq<word>, w: word)
    ensures Value(ws + [w]) == Value(ws) + Radix(|ws|) * w
  {
    if ws == [] {
      assert [w][1..] == [];
      assert Value([w]) == w + WORD_BASE * Value([w][1..]);
    } else {
      assert (ws + [w])[1..] == ws[1..] + [w];
      ValueAppend(ws[1..], w);
      MulOrder(WORD_BASE, Radix(|ws| - 1), w);
    }
  }

  lemma {:induction false} ValueBound(ws: seq<word>)
    ensures Value(ws) < Radix(|ws|)
  {
    if ws != [] {
      ValueBound(ws[1..]);
    }
  }

  /** Equally long limb arrays for the same number are the same array. */
  lemma {:induction false} ValueInjective(xs: seq<word>, ys: seq<word>)
    requires |xs| == |ys| && Value(xs) == Value(ys)
    ensures xs == ys
  {
    if xs != [] {
      assert xs[0] == ys[0] && Value(xs[1..]) == Value(ys[1..]);
      ValueInjective(xs[1..], ys[1..]);
      assert xs == [xs[0]] + xs[1..] && ys == [ys[0]] + ys[1..];
    }
  }

  /** Digit extraction under way: the words written so far, plus the running quotient at its
      weight, make up the number being written. */
  ghost predicate Unfinished(ws: seq<word>, q: nat, total: nat) {
    Value(ws) + Radix(|ws|) * q == total
  }

  /** Moving the lowest word of q to the top of ws keeps the total. */
  lemma PeelWord(ws: seq<word>, q: nat, total: nat)
    requires Unfinished(ws, q, total)
    ensures Unfinished(ws + [q % WORD_BASE], q / WORD_BASE, total)
  {
    var hi, lo := q / WORD_BASE, q % WORD_BASE;
    ValueAppend(ws, lo);
    PeelProduct(Radix(|ws|), Radix(|ws| + 1), q, hi, lo);
  }

  lemma PeelProduct(r: int, r': int, q: int, hi: int, lo: int)
    requires r' == WORD_BASE * r && q == WORD_BASE * hi + lo
    ensures r * lo + r' * hi == r * q
  {
    calc {
      r * q;
      r * (WORD_BASE * hi + lo);
      r * (WORD_BASE * hi) + r * lo;
      { MulOrder(WORD_BASE, r, hi); }
      r' * hi + r * lo;
    }
  }

  /** The low word of a number is its first limb. */
  lemma LowWord(ws: seq<word>)
    requires ws != []
    ensures Value(ws) % WORD_BASE == ws[0]
  {
    LowDigit(ws[0], Value(ws[1..]));
  }

  lemma LowDigit(w: word, v: int)
    ensures (w + WORD_BASE * v) % WORD_BASE == w
  {
  }

  /** Enough words leave nothing over. */
  lemma Finished(ws: seq<word>, q: nat, total: nat)
    requires Unfinished(ws, q, total) && total < Radix(|ws|)
    ensures q == 0 && Value(ws) == total
  {
    Multiples(q, Radix(|ws|));
  }

  lemma Multiples(x: int, m: int)
    requires m >= 0
    ensures x >= 1 ==> m * x >= m
    ensures x <= -1 ==> m * x <= -m
  {
    assert x >= 1 ==> m * (x - 1) >= 0;
    assert x <= -1 ==> m * (-1 - x) >= 0;
  }

  lemma MulMonotone(x: int, y: int, z: int)
    requires x <= y && z >= 0
    ensures x * z <= y * z && z * x <= z * y
  {
    assert (y - x) * z >= 0;
  }

  /** The number of bytes BN_num_bytes reports. */
  function NumBytes(n: nat): nat {
    if n == 0 then 0 else 1 + NumBytes(n / 256)
  }

  lemma FourBytes(n: nat)
    ensures NumBytes(n) >= 4 <==> n >= 0x100_0000
    ensures n >= 0x100_0000 ==> NumBytes(n) == 4 + NumBytes(n / WORD_BASE)
  {
    var a, b, c := n / 256, n / 0x1_0000, n / 0x100_0000;
    assert a / 256 == b && b / 256 == c && c / 256 == n / WORD_BASE;
    assert n != 0 ==> NumBytes(n) == 1 + NumBytes(a);
    assert a != 0 ==> NumBytes(a) == 1 + NumBytes(b);
    assert b != 0 ==> NumBytes(b) == 1 + NumBytes(c);
    assert c != 0 ==> NumBytes(c) == 1 + NumBytes(c / 256);
  }

  /** Exactly 4k bytes means: below Radix(k), with a non-zero top byte. */
  lemma {:induction false} NumBytesRange(n: nat, k: nat)
    requires k > 0
    ensures NumBytes(n) == 4 * k <==> 0x100_0000 * Radix(k - 1) <= n < Radix(k)
  {
    FourBytes(n);
    if k == 1 {
      FourBytes(n / WORD_BASE);
      assert Radix(1) == WORD_BASE * Radix(0);
      assert NumBytes(n / WORD_BASE) == 0 <==> n / WORD_BASE == 0;
    } else {
      NumBytesRange(n / WORD_BASE, k - 1);
      var r := Radix(k - 2);
      assert Radix(k - 1) == WORD_BASE * r && Radix(k) == WORD_BASE * Radix(k - 1);
    }
  }

  /** No zero word at the top. */
  predicate Normal(ws: seq<word>) {
    ws == [] || ws[|ws| - 1] != 0
  }

  lemma {:induction false} RadixMonotone(j: nat, k: nat)
    requires j <= k
    ensures Radix(j) <= Radix(k)
    decreases k
  {
    if j < k {
      RadixMonotone(j, k - 1);
    }
  }

  /** The top word is what decides whether a number needs all its words. */
  lemma NormalMeansLarge(ws: seq<word>)
    requires ws != []
    ensures Normal(ws) <==> Value(ws) >= Radix(|ws| - 1)
  {
    var lower, w := ws[..|ws| - 1], ws[|ws| - 1];
    assert ws == lower + [w];
    ValueAppend(lower, w);
    ValueBound(lower);
    Multiples(w, Radix(|lower|));
  }

  /** A number has one normal limb array. */
  lemma NormalUnique(xs: seq<word>, ys: seq<word>)
    requires Normal(xs) && Normal(ys) && Value(xs) == Value(ys)
    ensures xs == ys
  {
    if |xs| == |ys| {
      ValueInjective(xs, ys);
    } else {
      var short, long := if |xs| < |ys| then xs else ys, if |xs| < |ys| then ys else xs;
      ValueBound(short);
      NormalMeansLarge(long);
      RadixMonotone(|short|, |long| - 1);
      assert false;
    }
  }
}
