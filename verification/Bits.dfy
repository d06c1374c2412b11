/**
 Bitwise operations on integers, read as two's complement numbers with as many
 sign bits as needed, and the facts that let a mask be read as a remainder.
 */
module Bits {
  import opened Arithmetic

  function Pow2(k: nat): (r: nat)
    ensures r > 0
  {
    if k == 0 then 1 else 2 * Pow2(k - 1)
  }

  /** Bitwise "and". An integer is 0, -1 (all ones) or a last bit below the rest. */
  function And(a: int, b: int): int
    decreases if a < 0 then -a else a
  {
    if a == 0 || b == 0 then 0
    else if a == -1 then b
    else if b == -1 then a
    else 2 * And(a / 2, b / 2) + (if a % 2 == 1 && b % 2 == 1 then 1 else 0)
  }

  lemma RemainderByHalving(x: int, m: int)
    requires m > 0
    ensures x % (2 * m) == 2 * ((x / 2) % m) + x % 2
  {
    var h := x / 2;
    var q, r := h / m, h % m;
    assert x == q * (2 * m) + (2 * r + x % 2) by {
      assert h == q * m + r;
      assert q * (2 * m) == 2 * (q * m);
    }
    RemainderUnique(x, 2 * m, q, 2 * r + x % 2);
  }

  /** Masking with 2^k - 1 is the remainder modulo 2^k, for negative numbers too. */
  lemma {:induction false} MaskIsRemainder(x: int, k: nat)
    ensures And(x, Pow2(k) - 1) == x % Pow2(k)
    decreases k
  {
    if k > 0 && x != 0 && x != -1 {
      MaskIsRemainder(x / 2, k - 1);
      var half := Pow2(k - 1);
      RemainderByHalving(x, half);
      assert (2 * half - 1) / 2 == half - 1;
    } else if k > 0 && x == -1 {
      RemainderUnique(-1, Pow2(k), -1, Pow2(k) - 1);
    }
  }

  lemma HalvingPowers(n: int)
    requires n > 0 && n % 2 == 0
    ensures (exists k: nat :: n / 2 == Pow2(k)) <==> (exists k: nat :: n == Pow2(k))
  {
    if k: nat :| n / 2 == Pow2(k) { assert n == Pow2(k + 1); }
    if k: nat :| n == Pow2(k) {
      assert k > 0;
      assert n / 2 == Pow2(k - 1);
    }
  }

  lemma {:induction false} AndSelf(n: nat)
    ensures And(n, n) == n
  {
    if n > 0 { AndSelf(n / 2); }
  }

  /** The test (n - 1) & n == 0 holds of a positive n exactly when n is a power of two. */
  lemma {:induction false} PowerOfTwoTest(n: int)
    requires n > 0
    ensures And(n - 1, n) == 0 <==> exists k: nat :: n == Pow2(k)
    decreases n
  {
    if n == 1 {
      assert n == Pow2(0);
    } else if n % 2 == 1 {
      assert (n - 1) / 2 == n / 2;
      AndSelf(n / 2);
      forall k: nat ensures n != Pow2(k) { assert k > 0 ==> Pow2(k) % 2 == 0; }
    } else {
      PowerOfTwoTest(n / 2);
      assert (n - 1) / 2 == n / 2 - 1;
      assert And(n - 1, n) == 2 * And(n / 2 - 1, n / 2);
      HalvingPowers(n);
    }
  }

  lemma QuotientByHalving(x: nat, m: nat)
    requires m > 0
    ensures x / 2 / m == x / (2 * m)
  {
    var q, r := x / 2 / m, x / 2 % m;
    assert x / 2 == q * m + r;
    assert q * (2 * m) == 2 * (q * m);
    RemainderUnique(x, 2 * m, q, 2 * r + x % 2);
  }

  /** The bit with weight 2^k is set exactly when the quotient by 2^k is odd. */
  lemma {:induction false} BitTest(x: nat, k: nat)
    ensures And(x, Pow2(k)) != 0 <==> x / Pow2(k) % 2 == 1
    decreases k
  {
    if x > 0 && k > 0 {
      BitTest(x / 2, k - 1);
      QuotientByHalving(x, Pow2(k - 1));
    } else if x > 0 {
      assert And(x, 1) == 2 * And(x / 2, 0) + (if x % 2 == 1 then 1 else 0);
    } else {
      RemainderUnique(0, Pow2(k), 0, 0);
    }
  }

  /** Bitwise exclusive "or" of natural numbers. */
  function Xor(a: nat, b: nat): nat
    decreases a
  {
    if a == 0 then b else if b == 0 then a else 2 * Xor(a / 2, b / 2) + (a % 2 + b % 2) % 2
  }

  lemma XorHalves(a: nat, b: nat)
    requires a > 0 && b > 0
    ensures Xor(a, b) / 2 == Xor(a / 2, b / 2) && Xor(a, b) % 2 == (a % 2 + b % 2) % 2
  {
  }

  lemma {:induction false} XorSelf(b: nat)
    ensures Xor(b, b) == 0
  {
    if b > 0 { XorSelf(b / 2); }
  }

  lemma {:induction false} XorTwice(a: nat, b: nat)
    ensures Xor(Xor(a, b), b) == a
    decreases a
  {
    if a == 0 {
      XorSelf(b);
    } else if b > 0 {
      XorTwice(a / 2, b / 2);
      XorHalves(a, b);
      if Xor(a, b) > 0 { XorHalves(Xor(a, b), b); }
    }
  }

  lemma {:induction false} XorBound(a: nat, b: nat, k: nat)
    requires a < Pow2(k) && b < Pow2(k)
    ensures Xor(a, b) < Pow2(k)
    decreases k
  {
    if a > 0 && b > 0 { XorBound(a / 2, b / 2, k - 1); }
  }

  lemma XorStep(a: nat, b: nat)
    ensures Xor(a, b) / 2 == Xor(a / 2, b / 2) && Xor(a, b) % 2 == (a % 2 + b % 2) % 2
  {
  }

  /** The binary digit of x with weight 2^k. */
  function Digit(x: nat, k: nat): (d: nat)
    ensures d < 2
  {
    x / Pow2(k) % 2
  }

  lemma LastDigit(x: nat)
    ensures Digit(x, 0) == x % 2
  {
  }

  lemma HalvedDigit(x: nat, k: nat)
    requires k > 0
    ensures Digit(x, k) == Digit(x / 2, k - 1)
  {
    QuotientByHalving(x, Pow2(k - 1));
  }

  lemma {:induction false} XorDigits(a: nat, b: nat, k: nat)
    ensures Digit(Xor(a, b), k) == (Digit(a, k) + Digit(b, k)) % 2
    decreases k
  {
    hide *;
    XorStep(a, b);
    if k == 0 {
      LastDigit(a);
      LastDigit(b);
      LastDigit(Xor(a, b));
    } else {
      XorDigits(a / 2, b / 2, k - 1);
      HalvedDigit(a, k);
      HalvedDigit(b, k);
      HalvedDigit(Xor(a, b), k);
    }
  }

  /** A bit of the exclusive "or" is set exactly when it is set in one of the two numbers. */
  lemma XorBits(a: nat, b: nat, k: nat)
    ensures And(Xor(a, b), Pow2(k)) != 0 <==> (And(a, Pow2(k)) != 0) != (And(b, Pow2(k)) != 0)
  {
    XorDigits(a, b, k);
    BitTest(Xor(a, b), k);
    BitTest(a, k);
    BitTest(b, k);
    hide And, Xor, Pow2;
  }
}
