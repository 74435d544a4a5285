// Bitwise operations on numbers, defined bit by bit, and what they are in arithmetic.
module Bits {
  function Pow2(k: nat): (p: nat)
    ensures p > 0
  {
    if k == 0 then 1 else 2 * Pow2(k - 1)
  }

  lemma {:induction false} Pow2Adds(a: nat, b: nat)
    ensures Pow2(a + b) == Pow2(a) * Pow2(b)
  {
    if a != 0 {
      Pow2Adds(a - 1, b);
    }
  }

  lemma {:induction false} Pow2Grows(a: nat, b: nat)
    requires a <= b
    ensures Pow2(a) <= Pow2(b)
  {
    if a < b {
      Pow2Grows(a, b - 1);
    }
  }

  function And(a: nat, b: nat): nat {
    if a == 0 || b == 0 then 0 else a % 2 * (b % 2) + 2 * And(a / 2, b / 2)
  }

  // Every one of the lowest `width` bits the other way
  function Flip(n: nat, width: nat): nat {
    if width == 0 then 0 else 1 - n % 2 + 2 * Flip(n / 2, width - 1)
  }

  lemma Remainder(w: nat, m: nat, n: nat)
    requires m > 0 && n * m <= w < (n + 1) * m
    ensures w % m == w - n * m
  {
    var q, r := w / m, w % m;
    assert w == q * m + r;
    MulOrder(q + 1, n, m);
    MulOrder(n + 1, q, m);
  }

  lemma MulOrder(a: int, b: int, m: nat)
    ensures a <= b ==> a * m <= b * m
  {}

  lemma TimesTwice(q: nat, m: nat)
    ensures q * (m + m) == q * m + q * m
  {}

  lemma TimesNext(q: nat, m: nat)
    ensures (q + 1) * m == q * m + m
  {}

  lemma Division(n: nat, m: nat)
    requires m > 0
    ensures n == n / m * m + n % m && n % m < m
  {}

  lemma HalfRemainder(n: nat, m: nat)
    requires m > 0
    ensures n % (m + m) == n % 2 + 2 * (n / 2 % m)
  {
    var h := n / 2;
    Division(h, m);
    TimesTwice(h / m, m);
    TimesNext(h / m, m + m);
    Remainder(n, m + m, h / m);
  }

  // Under a mask of ones a number is its remainder.
  lemma {:induction false} AndOnes(n: nat, k: nat)
    ensures And(n, Pow2(k) - 1) == n % Pow2(k)
  {
    if k > 0 {
      var m := Pow2(k - 1);
      AndOnes(n / 2, k - 1);
      HalfRemainder(n, m);
      OddHalf(m);
      AndHalves(n, m + m - 1);
    }
  }

  lemma OddHalf(m: nat)
    requires m > 0
    ensures (m + m - 1) / 2 == m - 1 && (m + m - 1) % 2 == 1
  {}

  lemma AndHalves(a: nat, b: nat)
    ensures And(a, b) == a % 2 * (b % 2) + 2 * And(a / 2, b / 2)
  {}

  // Flipping all bits is subtracting from all ones.
  lemma {:induction false} FlipIsComplement(n: nat, width: nat)
    requires n < Pow2(width)
    ensures Flip(n, width) == Pow2(width) - 1 - n
  {
    if width > 0 {
      FlipIsComplement(n / 2, width - 1);
    }
  }
}
