/** Small facts about products and remainders, each over plain variables. */
module Arithmetic {
  function Quotient(x: nat, d: nat): nat
    requires d > 0
  {
    x / d
  }

  lemma MulMonotone(a: int, b: int, c: int)
    requires a <= b && 0 <= c
    ensures a * c <= b * c
  {
    assert (b - a) * c >= 0;
  }

  lemma MulSign(d: int, m: int)
    requires m > 0
    ensures d > 0 ==> d * m >= m
    ensures d < 0 ==> d * m <= -m
    ensures d == 0 ==> d * m == 0
  {
    if d > 0 { MulMonotone(1, d, m); }
    if d < 0 { MulMonotone(d, -1, m); }
  }

  lemma Distribute(a: int, b: int, c: int)
    ensures (a + b) * c == a * c + b * c
    ensures (a - b) * c == a * c - b * c
  {
  }

  lemma Associate(a: int, b: int, c: int)
    ensures (a * b) * c == a * (b * c) == b * (a * c)
  {
  }

  /** Quotient and remainder are unique. */
  lemma RemainderUnique(x: int, m: int, q: int, r: int)
    requires 0 <= r < m && x == q * m + r
    ensures x % m == r && x / m == q
  {
    var a, b := x / m, x % m;
    assert x == a * m + b;
    Distribute(a, q, m);
    MulSign(a - q, m);
  }

  lemma WrapsBelow(s: nat, range: nat)
    requires 0 < range <= s
    ensures s % range <= s - range
  {
    var q := s / range;
    assert s == q * range + s % range;
    MulSign(q - 1, range);
    Distribute(q, 1, range);
  }

  /** Dividing a smaller number by at least `g` less gives a smaller quotient. */
  lemma QuotientDrops(w: int, s: int, g: int)
    requires g > 0 && w + g <= s
    ensures w / g < s / g
  {
    var a, b := w / g, s / g;
    assert a * g <= w && s < b * g + g;
    Distribute(b, a, g);
    MulSign(b - a, g);
  }

  lemma AddThenWrap(x: int, m: int, range: int)
    requires range > 0
    ensures (x % range + m) % range == (x + m) % range
  {
    var t, y := x / range, x % range + m;
    var u := y / range;
    Distribute(t, u, range);
    RemainderUnique(x + m, range, t + u, y % range);
  }

  /** A remainder by a multiple of m has the same remainder by m. */
  lemma NestedRemainder(x: int, m: int, c: int)
    requires m > 0 && c > 0
    ensures c * m > 0 && (x % (c * m)) % m == x % m
  {
    MulSign(c, m);
    var big := c * m;
    var q, y := x / big, x % big;
    var s := y / m;
    assert x == (q * c + s) * m + y % m by {
      assert x == q * big + y && y == s * m + y % m;
      Associate(q, c, m);
      Distribute(q * c, s, m);
    }
    RemainderUnique(x, m, q * c + s, y % m);
  }

  /** The signed number of a 32-bit word that an exact result wraps around to. */
  function ToInt32(x: int): (r: int)
    ensures -0x8000_0000 <= r < 0x8000_0000
    ensures -0x8000_0000 <= x < 0x8000_0000 ==> r == x
    ensures (x - r) % 0x1_0000_0000 == 0
  {
    (x + 0x8000_0000) % 0x1_0000_0000 - 0x8000_0000
  }
}
