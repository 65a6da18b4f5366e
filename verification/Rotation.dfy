/** Walking a list by feeding each answer back, with NULL both as the start and as the answer after
    the last element: zipfile.cpp's cookie and adb_auth_host.cpp's current key. Positions 0 .. n - 1
    are the elements and n is NULL. */
module Rotation {
  import Modular

  /** The position answered when the previous answer was at p. */
  function Next(p: nat, n: nat): nat
    requires p <= n
  {
    if p == n then 0 else p + 1
  }

  /** The position answered by call number k, counted from 0, starting from NULL. */
  function Answer(n: nat, k: nat): (p: nat)
    ensures p <= n
  {
    if k == 0 then Next(n, n) else Next(Answer(n, k - 1), n)
  }

  /** The answers go round all elements and NULL, n + 1 calls a turn. */
  lemma {:induction false} AnswerCycles(n: nat, k: nat)
    ensures Answer(n, k) == k % (n + 1)
  {
    if k > 0 {
      AnswerCycles(n, k - 1);
      NextRemainder(k - 1, n + 1);
    }
  }

  lemma NextRemainder(k: nat, m: nat)
    requires m > 0
    ensures (k + 1) % m == if k % m == m - 1 then 0 else k % m + 1
  {
    var q, r := k / m, k % m;
    assert k == q * m + r;
    if r == m - 1 {
      assert k + 1 == (q + 1) * m;
      Modular.DivModUnique(k + 1, m, q + 1, 0);
    } else {
      Modular.DivModUnique(k + 1, m, q, r + 1);
    }
  }

  lemma Within(k: nat, m: nat)
    requires k < m
    ensures k % m == k
  {
  }

  /** One turn answers every element exactly once, in order, and then NULL. */
  lemma OneTurn(n: nat, turn: nat, p: nat)
    requires p <= n
    ensures Answer(n, turn * (n + 1) + p) == p
  {
    AnswerCycles(n, turn * (n + 1) + p);
    Modular.DivModUnique(turn * (n + 1) + p, n + 1, turn, p);
  }
}
