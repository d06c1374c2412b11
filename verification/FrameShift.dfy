/**
 The prefill arithmetic of the buffer processor: greatest common divisor, least
 common multiple, and the frame shift that full-duplex adaptation needs when
 every host block has the same length.
 */
module FrameShift {
  import opened Arithmetic

  function Gcd(a: nat, b: nat): (g: nat)
    ensures a > 0 || b > 0 ==> g > 0
    decreases b
  {
    if b == 0 then a else Gcd(b, a % b)
  }

  /** LCM on unsigned integers below `range`: the product wraps before the division. */
  function Lcm(a: nat, b: nat, range: nat): nat
    requires 0 < a < range && 0 < b < range
  {
    Quotient((a * b) % range, Gcd(a, b))
  }

  lemma DivisorOfCombination(d: int, b: int, r: int, s: int, t: int, g: int)
    requires b == s * g && r == t * g
    ensures d * b + r == (d * s + t) * g
  {
    Distribute(d * s, t, g);
    Associate(d, s, g);
  }

  lemma {:induction false} GcdDivides(a: nat, b: nat) returns (p: nat, q: nat)
    requires a > 0 || b > 0
    ensures a == p * Gcd(a, b) && b == q * Gcd(a, b)
    decreases b
  {
    if b == 0 {
      p, q := 1, 0;
    } else {
      var s, t := GcdDivides(b, a % b);
      var d := a / b;
      p, q := d * s + t, s;
      DivisorOfCombination(d, b, a % b, s, t, Gcd(b, a % b));
    }
  }

  lemma RegroupCombination(a: int, b: int, d: int, r: int, u: int, v: int)
    requires a == d * b + r
    ensures v * a + (u - v * d) * b == u * b + v * r
  {
    Distribute(u, v * d, b);
    Associate(v, d, b);
    assert v * a == v * (d * b) + v * r;
  }

  /** Gcd is a combination of its arguments, hence divisible by every common divisor. */
  lemma {:induction false} GcdIsCombination(a: nat, b: nat) returns (x: int, y: int)
    ensures x * a + y * b == Gcd(a, b)
    decreases b
  {
    if b == 0 {
      x, y := 1, 0;
    } else {
      var u, v := GcdIsCombination(b, a % b);
      var d := a / b;
      x, y := v, u - v * d;
      RegroupCombination(a, b, d, a % b, u, v);
    }
  }

  /** The wrapped product is divided by the gcd, and the fraction dropped. */
  lemma LcmIsQuotient(a: nat, b: nat, range: nat)
    requires 0 < a < range && 0 < b < range
    ensures Lcm(a, b, range) * Gcd(a, b) <= (a * b) % range < Lcm(a, b, range) * Gcd(a, b) + Gcd(a, b)
  {
    hide Gcd;
    var w := (a * b) % range;
    assert w == w / Gcd(a, b) * Gcd(a, b) + w % Gcd(a, b);
  }

  /** The wrapping LCM is the least common multiple exactly when the product fits. */
  lemma LcmExactIffProductFits(a: nat, b: nat, range: nat)
    requires 0 < a < range && 0 < b < range
    ensures Lcm(a, b, range) == a * b / Gcd(a, b) <==> a * b < range
  {
    var g, s := Gcd(a, b), a * b;
    var p, q := GcdDivides(a, b);
    MulSign(p - 1, g);
    Distribute(p, 1, g);
    if s >= range {
      WrapsBelow(s, range);
      QuotientDrops(s % range, s, g);
    } else {
      RemainderUnique(s, range, 0, s);
    }
  }

  /** Every residue of a multiple of the gcd is a multiple of the gcd, so at most N - gcd. */
  lemma ResidueOfMultiple(a: int, b: nat, g: nat)
    requires b > 0 && g > 0 && b * g > 0
    ensures (a * g) % (b * g) == (a % b) * g <= b * g - g
  {
    var q, r := a / b, a % b;
    assert a == q * b + r;
    Distribute(q * b, r, g);
    Associate(q, b, g);
    MulMonotone(r, b - 1, g);
    Distribute(b, 1, g);
    MulMonotone(0, r, g);
    RemainderUnique(a * g, b * g, q, r * g);
  }

  lemma SwapFactors(p: int, q: int, g: int)
    ensures q * (p * g) == p * (q * g)
  {
    Associate(p, q, g);
  }

  lemma ShiftWitness(m: int, n: int, g: int, x: int, y: int, p: int, q: int, t: int, j: int)
    requires x * m + y * n == g && m == p * g && n == q * g && -x == t * q + j
    ensures j * m == (y - t * p - 1) * n + (n - g)
  {
    assert j * m == -(x * m) - (t * q) * m by { Distribute(-x, t * q, m); }
    assert (t * q) * m == (t * p) * n by {
      Associate(t, q, m);
      Associate(t, p, n);
      SwapFactors(p, q, g);
    }
    assert (y - t * p - 1) * n == y * n - (t * p) * n - n by {
      Distribute(y - t * p, 1, n);
      Distribute(y, t * p, n);
    }
  }

  /** Multiples of M meet every residue class of N that the gcd divides: here N - gcd. */
  lemma ShiftIsReached(m: nat, n: nat) returns (j: nat, q: nat)
    requires m > 0 && n > 0
    ensures n == q * Gcd(m, n) && j < q
    ensures (j * m) % n == n - Gcd(m, n)
  {
    var g := Gcd(m, n);
    var x, y := GcdIsCombination(m, n);
    var p, q' := GcdDivides(m, n);
    q := q';
    MulSign(q, g);
    j := (-x) % q;
    var t := (-x) / q;
    assert -x == t * q + j;
    ShiftWitness(m, n, g, x, y, p, q, t, j);
    MulSign(q - 1, g);
    Distribute(q, 1, g);
    RemainderUnique(j * m, n, y - t * p - 1, n - g);
  }

  lemma LcmBounds(m: nat, n: nat, range: nat, q: nat)
    requires 0 < m < range && 0 < n < range && n == q * Gcd(m, n)
    ensures Lcm(m, n, range) * Gcd(m, n) < range
    ensures m * n < range ==> Lcm(m, n, range) == q * m
    ensures Gcd(m, n) == 1 ==> Lcm(m, n, range) == (q * m) % range
    ensures Lcm(m, n, range) <= q * m
  {
    var g, s := Gcd(m, n), m * n;
    assert s == (q * m) * g by { Associate(m, q, g); Associate(q, m, g); }
    var w := s % range;
    var l := w / g;
    assert l * g <= w;
    RemainderUnique(s, g, q * m, 0);
    if s >= range {
      WrapsBelow(s, range);
      Distribute(l, q * m, g);
      MulSign(l - q * m, g);
    } else {
      RemainderUnique(s, range, 0, s);
    }
    if g == 1 { RemainderUnique(w, 1, w, 0); }
  }

  lemma BelowMultiple(k: nat, q: nat, m: nat, l: nat)
    requires m > 0 && k >= 1 && k * m < l <= q * m
    ensures k < q && k * m >= m
    ensures l == q * m ==> k * m + m <= l
  {
    Distribute(k, q, m);
    MulSign(k - q, m);
    MulMonotone(1, k, m);
    Distribute(k, 1, m);
    if k < q { MulMonotone(k + 1, q, m); }
  }

  lemma StaysInRange(i: nat, m: nat, l: nat, g: nat, range: nat, next: bool)
    requires m <= i < l && g >= 1 && l * g < range
    requires g >= 2 || (next && i + m <= l)
    ensures i + m < range
  {
    MulMonotone(if g >= 2 then 2 else 1, g, l);
  }

  /** What one pass of the loop needs: the next multiple of m, and that the loop ends. */
  lemma NextMultiple(i: nat, k: nat, m: nat, n: nat, range: nat, q: nat)
    requires 0 < m < range && 0 < n < range && n == q * Gcd(m, n) && 1 <= k <= q
    requires i < Lcm(m, n, range) && i == (k * m) % range
    requires Gcd(m, n) >= 2 || m * n < range ==> i == k * m
    ensures k < q
    ensures (i + m) % range == ((k + 1) * m) % range
    ensures Gcd(m, n) >= 2 || m * n < range ==> (i + m) % range == (k + 1) * m
  {
    var g, l := Gcd(m, n), Lcm(m, n, range);
    LcmBounds(m, n, range, q);
    Distribute(k, 1, m);
    AddThenWrap(k * m, m, range);
    if g >= 2 || m * n < range {
      BelowMultiple(k, q, m, l);
      StaysInRange(i, m, l, g, range, i + m <= l);
      RemainderUnique(i + m, range, 0, i + m);
    }
  }

  /** The value of the loop's index in pass k, which wraps around at `range`. */
  function IndexAt(k: nat, m: nat, range: nat): (i: nat)
    requires range > 0
    ensures i < range
  {
    (k * m) % range
  }

  /** The loop has its passes 1 to k. */
  ghost predicate Walks(k: nat, m: nat, n: nat, range: nat)
    requires 0 < m < range && 0 < n < range
  {
    forall t: nat :: 1 <= t <= k ==> IndexAt(t, m, range) < Lcm(m, n, range)
  }

  /** The residue of a pass, which the loop compares with the largest so far. */
  function ResidueAt(k: nat, m: nat, n: nat, range: nat): (r: nat)
    requires n > 0 && range > 0
    ensures r < n
  {
    IndexAt(k, m, range) % n
  }

  /** Some pass of the loop meets the residue N - gcd(M, N). */
  ghost predicate Reached(m: nat, n: nat, range: nat)
    requires 0 < m < range && 0 < n < range
  {
    exists k: nat :: k >= 1 && Walks(k, m, n, range) && ResidueAt(k, m, n, range) == n - Gcd(m, n)
  }

  lemma CoprimeBound(m: nat, n: nat, r: nat)
    requires m > 0 && n > 0 && r < n && Gcd(m, n) < 2
    ensures r <= n - Gcd(m, n)
  {
  }

  /** The largest residue of any pass of the loop, and 0 if it has none. */
  ghost predicate LargestResidue(m: nat, n: nat, range: nat, result: nat)
    requires 0 < m < range && 0 < n < range
  {
    && (forall k: nat :: k >= 1 && Walks(k, m, n, range) ==> ResidueAt(k, m, n, range) <= result)
    && (result > 0 ==> exists k: nat :: k >= 1 && Walks(k, m, n, range) && ResidueAt(k, m, n, range) == result)
  }

  /** What the passes of the loop say of its result. */
  lemma ShiftFound(m: nat, n: nat, range: nat, k: nat, best: nat, result: nat)
    requires 0 < m < range && 0 < n < range && k >= 1 && result <= n - Gcd(m, n)
    requires IndexAt(k, m, range) >= Lcm(m, n, range)
    requires forall t: nat :: 1 <= t < k ==> IndexAt(t, m, range) < Lcm(m, n, range)
    requires forall t: nat :: 1 <= t < k ==> ResidueAt(t, m, n, range) <= result
    requires result > 0 ==> 1 <= best < k && ResidueAt(best, m, n, range) == result
    ensures LargestResidue(m, n, range, result)
    ensures result == n - Gcd(m, n) <==> n == Gcd(m, n) || Reached(m, n, range)
  {
    hide IndexAt, ResidueAt, Lcm, Gcd;
    if result > 0 { assert Walks(best, m, n, range); }
    forall t: nat | t >= 1 && Walks(t, m, n, range) ensures ResidueAt(t, m, n, range) <= result {
      assert t < k;
    }
    if Reached(m, n, range) {
      var t: nat :| t >= 1 && Walks(t, m, n, range) && ResidueAt(t, m, n, range) == n - Gcd(m, n);
      assert t < k;
    }
  }

  /**
   The index wraps around when a pass would reach a multiple of `range`. The passes
   between two wraps are a lap: lap t has the indices LapStart, LapStart + m and so
   on below `range`. Lap 0 starts at 0, before the first pass.
   */
  function LapStart(t: nat, m: nat, range: nat): (s: nat)
    requires m > 0
    ensures s < m
  {
    (-(t * range)) % m
  }

  /** The laps before lap t end below the wrapped multiple, so that the loop comes to lap t. */
  predicate LapsRun(t: nat, m: nat, n: nat, range: nat)
    requires 0 < m < range && 0 < n < range
  {
    forall u: nat :: 1 <= u <= t ==> range - m + LapStart(u, m, range) < Lcm(m, n, range)
  }

  /** How many passes after index s the shift is met, if it is met j passes after index 0. */
  function PassesToShift(s: nat, j: nat, q: nat): (a: nat)
    requires q > 0
    ensures a < q
  {
    (j * (1 + s)) % q
  }

  /** The first index of lap t that leaves N - gcd(M, N) frames, if j * m is that of lap 0. */
  function ShiftInLap(t: nat, m: nat, range: nat, j: nat, q: nat): (i: nat)
    requires m > 0 && q > 0
  {
    LapStart(t, m, range) + PassesToShift(LapStart(t, m, range), j, q) * m
  }

  /** Some lap that the loop comes to has its shift below the wrapped multiple. */
  predicate ShiftAhead(m: nat, n: nat, range: nat, j: nat, q: nat)
    requires 0 < m < range && 0 < n < range && q > 0
  {
    exists t: nat :: t <= Quotient(m * n, range)
      && LapsRun(t, m, n, range) && ShiftInLap(t, m, range, j, q) < Lcm(m, n, range)
  }

  /** The condition under which a product that wraps around does no harm. */
  ghost predicate ShiftFits(m: nat, n: nat, range: nat)
    requires 0 < m < range && 0 < n < range
  {
    exists j: nat, q: nat ::
      n == q * Gcd(m, n) && j < q && (j * m) % n == n - Gcd(m, n) && ShiftAhead(m, n, range, j, q)
  }

  /** The pass at which a lap starts. */
  lemma FirstOfLap(t: nat, m: nat, range: nat) returns (k: nat)
    requires 0 < m < range
    ensures k * m == t * range + LapStart(t, m, range)
    ensures t >= 1 ==> k >= 2
    ensures t == 0 ==> LapStart(t, m, range) == 0
  {
    var a := t * range;
    var d := (-a) / m;
    assert -a == d * m + LapStart(t, m, range);
    if t == 0 { RemainderUnique(0, m, 0, 0); } else { MulMonotone(1, t, range); }
    Distribute(0, d, m);
    MulSign(-d - 1, m);
    Distribute(-d, 1, m);
    k := -d;
  }

  /** The last index of lap u - 1, at the pass before lap u starts. */
  lemma LastOfLap(u: nat, m: nat, range: nat) returns (k: nat)
    requires 0 < m < range && u >= 1
    ensures k >= 1 && k * m + m == u * range + LapStart(u, m, range)
    ensures IndexAt(k, m, range) == range - m + LapStart(u, m, range)
  {
    var first := FirstOfLap(u, m, range);
    k := first - 1;
    Distribute(first, 1, m);
    Distribute(u, 1, range);
    RemainderUnique(k * m, range, u - 1, range - m + LapStart(u, m, range));
  }

  lemma Ordered(a: int, b: int, m: int)
    requires m > 0 && a * m < b * m
    ensures a < b
  {
    Distribute(a, b, m);
    MulSign(a - b, m);
  }

  lemma LapStartBelow(u: nat, m: nat, range: nat)
    requires m > 0
    ensures LapStart(u, m, range) < m
  {
  }

  /** Earlier passes have smaller indices in the same lap, or are no later than the end of an earlier one. */
  lemma EarlierPass(i: nat, k: nat, m: nat, n: nat, range: nat)
    requires 0 < m < range && 0 < n < range && 1 <= i <= k
    requires LapsRun(Quotient(k * m, range), m, n, range) && IndexAt(k, m, range) < Lcm(m, n, range)
    ensures IndexAt(i, m, range) < Lcm(m, n, range)
  {
    hide Lcm, LapStart;
    var t, u := Quotient(k * m, range), Quotient(i * m, range);
    assert k * m == t * range + IndexAt(k, m, range);
    assert i * m == u * range + IndexAt(i, m, range);
    MulMonotone(i, k, m);
    hide IndexAt;
    if u < t {
      MulMonotone(u + 1, t, range);
      Distribute(u, 1, range);
      var last := LastOfLap(u + 1, m, range);
      assert i * m < last * m + m;
      Distribute(last, 1, m);
      Ordered(i, last + 1, m);
      MulMonotone(i, last, m);
    } else {
      MulMonotone(t, u, range);
    }
  }

  /** The loop comes to pass k exactly if it comes to the lap of k and k is below its end. */
  lemma WalksIff(k: nat, m: nat, n: nat, range: nat)
    requires 0 < m < range && 0 < n < range && k >= 1
    ensures Walks(k, m, n, range) <==>
      LapsRun(Quotient(k * m, range), m, n, range) && IndexAt(k, m, range) < Lcm(m, n, range)
  {
    hide Lcm, LapStart, IndexAt;
    var t := Quotient(k * m, range);
    if Walks(k, m, n, range) {
      forall u: nat | 1 <= u <= t ensures range - m + LapStart(u, m, range) < Lcm(m, n, range) {
        var last := LastOfLap(u, m, range);
        MulMonotone(u, t, range);
        LapStartBelow(u, m, range);
        assert t * range <= k * m;
        Ordered(last, k, m);
      }
    }
    if LapsRun(t, m, n, range) && IndexAt(k, m, range) < Lcm(m, n, range) {
      forall i: nat | 1 <= i <= k ensures IndexAt(i, m, range) < Lcm(m, n, range) {
        EarlierPass(i, k, m, n, range);
      }
    }
  }

  lemma CoprimeSum(s: int, m: int, n: int, j: int, c: int, t: int, a: int)
    requires j * m == t * n + (n - 1) && j * (1 + s) == c * n + a
    ensures s + a * m == ((1 + s) * (t + 1) - c * m - 1) * n + (n - 1)
  {
    var u, v := (1 + s) * (t + 1), c * m;
    assert (1 + s) * (j * m) == u * n - (1 + s) by {
      Distribute(t, 1, n);
      Distribute((t + 1) * n, 1, 1 + s);
      Associate(1 + s, t + 1, n);
    }
    assert a * m == (1 + s) * (j * m) - v * n by {
      Distribute(j * (1 + s), c * n, m);
      Associate(j, 1 + s, m);
      Associate(c, n, m);
      Associate(c, m, n);
    }
    Distribute(u, v, n);
    Distribute(u - v, 1, n);
  }

  lemma CoprimeShift(s: nat, m: nat, n: nat, j: nat)
    requires n > 0 && (j * m) % n == n - 1
    ensures (s + PassesToShift(s, j, n) * m) % n == n - 1
  {
    var a, c := PassesToShift(s, j, n), (j * (1 + s)) / n;
    assert j * (1 + s) == c * n + a;
    hide PassesToShift;
    var t := (j * m) / n;
    CoprimeSum(s, m, n, j, c, t, a);
    RemainderUnique(s + a * m, n, (1 + s) * (t + 1) - c * m - 1, n - 1);
  }

  /** The index that the formula of ShiftInLap names has the residue that is looked for. */
  lemma ShiftLeavesGap(s: nat, m: nat, n: nat, j: nat, q: nat)
    requires m > 0 && n > 0 && n == q * Gcd(m, n) && j < q && (j * m) % n == n - Gcd(m, n)
    requires s == 0 || Gcd(m, n) == 1
    ensures (s + PassesToShift(s, j, q) * m) % n == n - Gcd(m, n)
  {
    if s == 0 {
      RemainderUnique(j, q, 0, j);
    } else {
      CoprimeShift(s, m, n, j);
    }
  }

  lemma OnlyOneFits(i: nat, last: nat, m: nat, l: nat, g: nat, range: nat)
    requires i == last * m && last >= 1 && i < l && i + m >= range && l * g < range
    ensures g <= 1
  {
    MulMonotone(1, last, m);
    if g >= 2 { MulMonotone(2, g, l); }
  }

  /** The loop comes to a second lap only when the arguments are coprime. */
  lemma LapsNeedCoprime(t: nat, m: nat, n: nat, range: nat)
    requires 0 < m < range && 0 < n < range && t >= 1 && LapsRun(t, m, n, range)
    ensures Gcd(m, n) == 1
  {
    var g, l := Gcd(m, n), Lcm(m, n, range);
    assert range - m + LapStart(1, m, range) < l;
    hide Lcm, LapStart, LapsRun, IndexAt, Gcd;
    var _, q := GcdDivides(m, n);
    LcmBounds(m, n, range, q);
    var last := LastOfLap(1, m, range);
    OnlyOneFits(range - m + LapStart(1, m, range), last, m, l, g, range);
  }

  lemma LcmBelow(m: nat, n: nat, range: nat)
    requires 0 < m < range && 0 < n < range
    ensures Lcm(m, n, range) < range
  {
    var w, g := (m * n) % range, Gcd(m, n);
    MulMonotone(1, g, w / g);
  }

  /** A lap with its shift below the wrapped multiple has a pass that meets the residue. */
  lemma ShiftIsMet(t: nat, m: nat, n: nat, range: nat, j: nat, q: nat)
    requires 0 < m < range && 0 < n < range && n > Gcd(m, n) && n == q * Gcd(m, n)
    requires j < q && (j * m) % n == n - Gcd(m, n)
    requires LapsRun(t, m, n, range) && ShiftInLap(t, m, range, j, q) < Lcm(m, n, range)
    ensures Reached(m, n, range)
  {
    var s, i := LapStart(t, m, range), ShiftInLap(t, m, range, j, q);
    var a := PassesToShift(s, j, q);
    var first := FirstOfLap(t, m, range);
    if t >= 1 { LapsNeedCoprime(t, m, n, range); }
    ShiftLeavesGap(s, m, n, j, q);
    LcmBelow(m, n, range);
    var k := first + a;
    Distribute(first, a, m);
    RemainderUnique(k * m, range, t, i);
    if k == 0 { RemainderUnique(0, n, 0, 0); }
    hide LapStart, ShiftInLap, Lcm, Gcd;
    WalksIff(k, m, n, range);
    assert ResidueAt(k, m, n, range) == n - Gcd(m, n);
  }

  lemma CombinationDivides(d: int, m: int, n: int, g: int, x: int, y: int, c: int, q: int)
    requires x * m + y * n == g && g > 0 && n == q * g && d * m == c * n
    ensures d == (x * c + d * y) * q
  {
    assert d * g == (x * c + d * y) * n by {
      Associate(d, x, m);
      Associate(x, d, m);
      Associate(x, c, n);
      Associate(d, y, n);
      Distribute(x * c, d * y, n);
      assert d * g == d * (x * m) + d * (y * n);
    }
    Associate(x * c + d * y, q, g);
    Distribute(d, (x * c + d * y) * q, g);
    MulSign(d - (x * c + d * y) * q, g);
  }

  /** Of the indices s + a * m with one residue, the one with a < q is the first. */
  lemma FirstShift(s: nat, m: nat, n: nat, a: nat, b: nat, q: nat)
    requires m > 0 && n > 0 && n == q * Gcd(m, n) && a < q && (s + a * m) % n == (s + b * m) % n
    ensures a <= b
  {
    var g := Gcd(m, n);
    var x, y := GcdIsCombination(m, n);
    var c := (s + a * m) / n - (s + b * m) / n;
    assert (a - b) * m == c * n by {
      Distribute(a, b, m);
      Distribute((s + a * m) / n, (s + b * m) / n, n);
    }
    CombinationDivides(a - b, m, n, g, x, y, c, q);
    MulSign(x * c + (a - b) * y, q);
  }

  lemma SinceFirst(k: nat, first: nat, m: nat, wrapped: nat, s: nat, i: nat) returns (b: nat)
    requires s < m && k * m == wrapped + i && first * m == wrapped + s
    ensures i == s + b * m
  {
    Distribute(first, 1, m);
    Ordered(first - 1, k, m);
    Distribute(k, first, m);
    b := k - first;
  }

  /** Pass k is the pass b of its lap. */
  lemma PassInLap(k: nat, m: nat, n: nat, range: nat) returns (b: nat)
    requires 0 < m < range && 0 < n < range && k >= 1 && Walks(k, m, n, range)
    ensures var t := Quotient(k * m, range);
      && LapsRun(t, m, n, range) && (LapStart(t, m, range) == 0 || Gcd(m, n) == 1)
      && LapStart(t, m, range) + b * m == IndexAt(k, m, range) < Lcm(m, n, range)
  {
    var t, i := Quotient(k * m, range), IndexAt(k, m, range);
    assert k * m == t * range + i;
    WalksIff(k, m, n, range);
    hide Lcm, LapStart, LapsRun, IndexAt, Gcd, Walks;
    if t >= 1 { LapsNeedCoprime(t, m, n, range); }
    var first := FirstOfLap(t, m, range);
    LapStartBelow(t, m, range);
    b := SinceFirst(k, first, m, t * range, LapStart(t, m, range), i);
  }

  /** A pass that meets the residue is no earlier than the shift of its lap. */
  lemma ShiftOfPass(k: nat, m: nat, n: nat, range: nat, j: nat, q: nat)
    requires 0 < m < range && 0 < n < range && n == q * Gcd(m, n) && j < q && (j * m) % n == n - Gcd(m, n)
    requires k >= 1 && Walks(k, m, n, range) && ResidueAt(k, m, n, range) == n - Gcd(m, n)
    ensures LapsRun(Quotient(k * m, range), m, n, range)
    ensures ShiftInLap(Quotient(k * m, range), m, range, j, q) < Lcm(m, n, range)
  {
    var b := PassInLap(k, m, n, range);
    var s := LapStart(Quotient(k * m, range), m, range);
    assert (s + b * m) % n == n - Gcd(m, n);
    hide Lcm, LapsRun, IndexAt, Gcd, Walks, ResidueAt, PassesToShift, LapStart;
    ShiftLeavesGap(s, m, n, j, q);
    FirstShift(s, m, n, PassesToShift(s, j, q), b, q);
    MulMonotone(PassesToShift(s, j, q), b, m);
  }

  lemma EarlierIndex(i: nat, k: nat, m: nat, n: nat, range: nat)
    requires 0 < m < range && 0 < n < range && 1 <= i <= k && Walks(k, m, n, range)
    ensures IndexAt(i, m, range) < Lcm(m, n, range)
  {
  }

  /** No pass goes beyond the product of M and N. */
  lemma PassesAreFew(k: nat, m: nat, n: nat, range: nat, q: nat)
    requires 0 < m < range && 0 < n < range && n == q * Gcd(m, n)
    requires k >= 1 && Walks(k, m, n, range)
    ensures k * m <= m * n
  {
    LcmBounds(m, n, range, q);
    WalksIff(k, m, n, range);
    MulMonotone(1, Gcd(m, n), q);
    MulSign(q, Gcd(m, n));
    hide Lcm, LapStart, LapsRun, Gcd;
    if Gcd(m, n) == 1 {
      if k >= q { EarlierIndex(q, k, m, n, range); }
      MulMonotone(k, q, m);
    } else {
      var t := Quotient(k * m, range);
      if t >= 1 { LapsNeedCoprime(t, m, n, range); }
      assert k * m == t * range + IndexAt(k, m, range);
      MulMonotone(q, n, m);
    }
  }

  lemma QuotientMonotone(x: nat, y: nat, d: nat)
    requires d > 0 && x <= y
    ensures Quotient(x, d) <= Quotient(y, d)
  {
    var a, b := x / d, y / d;
    Distribute(b, a, d);
    MulSign(b - a, d);
  }

  /**
   The loop meets the shift if and only if, for the j of ShiftIsReached, a lap that it
   comes to has its shift below the wrapped multiple. The formula of ShiftInLap names
   one index for each lap, so no pass of the loop is carried out to find out.
   */
  lemma ReachedIff(m: nat, n: nat, range: nat, j: nat, q: nat)
    requires 0 < m < range && 0 < n < range && n > Gcd(m, n) && n == q * Gcd(m, n)
    requires j < q && (j * m) % n == n - Gcd(m, n)
    ensures Reached(m, n, range) <==> ShiftAhead(m, n, range, j, q)
  {
    hide Walks, LapsRun, ShiftInLap, Lcm, Gcd, ResidueAt;
    if ShiftAhead(m, n, range, j, q) {
      var t: nat :| t <= Quotient(m * n, range)
        && LapsRun(t, m, n, range) && ShiftInLap(t, m, range, j, q) < Lcm(m, n, range);
      ShiftIsMet(t, m, n, range, j, q);
    }
    if Reached(m, n, range) {
      var k: nat :| k >= 1 && Walks(k, m, n, range) && ResidueAt(k, m, n, range) == n - Gcd(m, n);
      ShiftOfPass(k, m, n, range, j, q);
      PassesAreFew(k, m, n, range, q);
      QuotientMonotone(k * m, m * n, range);
    }
  }

  lemma ReachedIffFits(m: nat, n: nat, range: nat)
    requires 0 < m < range && 0 < n < range && n > Gcd(m, n)
    ensures Reached(m, n, range) <==> ShiftFits(m, n, range)
  {
    hide Reached, ShiftAhead, Gcd;
    var j, q := ShiftIsReached(m, n);
    ReachedIff(m, n, range, j, q);
    if ShiftFits(m, n, range) {
      var i: nat, p: nat :|
        n == p * Gcd(m, n) && i < p && (i * m) % n == n - Gcd(m, n) && ShiftAhead(m, n, range, i, p);
      ReachedIff(m, n, range, i, p);
    }
  }

  /**
   It is enough that the shift of lap 0, the multiple j of M, lies below the wrapped
   multiple; and it must, when the loop has no second lap.
   */
  lemma ReachedInFirstLap(m: nat, n: nat, range: nat, j: nat, q: nat)
    requires 0 < m < range && 0 < n < range && n > Gcd(m, n) && n == q * Gcd(m, n)
    requires j < q && (j * m) % n == n - Gcd(m, n)
    ensures j * m < Lcm(m, n, range) ==> Reached(m, n, range)
    ensures Gcd(m, n) >= 2 || Lcm(m, n, range) + m <= range ==>
      (Reached(m, n, range) <==> j * m < Lcm(m, n, range))
  {
    hide Lcm, Gcd, LapStart, Reached;
    ReachedIff(m, n, range, j, q);
    var _ := FirstOfLap(0, m, range);
    RemainderUnique(j, q, 0, j);
    assert ShiftInLap(0, m, range, j, q) == j * m;
    assert LapsRun(0, m, n, range);
    if ShiftAhead(m, n, range, j, q) {
      var t: nat :| t <= Quotient(m * n, range)
        && LapsRun(t, m, n, range) && ShiftInLap(t, m, range, j, q) < Lcm(m, n, range);
      if t >= 1 {
        LapsNeedCoprime(t, m, n, range);
        assert range - m + LapStart(1, m, range) < Lcm(m, n, range);
      }
    }
  }

  /** When the product fits, the shift is met, or there is none to meet. */
  lemma FittingShift(m: nat, n: nat, range: nat, j: nat, q: nat)
    requires 0 < m < range && 0 < n < range && m * n < range
    requires n == q * Gcd(m, n) && j < q && (j * m) % n == n - Gcd(m, n)
    ensures n == Gcd(m, n) || Reached(m, n, range)
  {
    if n > Gcd(m, n) {
      ReachedInFirstLap(m, n, range, j, q);
      LcmBounds(m, n, range, q);
      Distribute(q, j, m);
      MulSign(q - j, m);
    }
  }

  lemma ResidueBound(k: nat, m: nat, n: nat, q: nat)
    requires m > 0 && n > 0 && n == q * Gcd(m, n)
    ensures (k * m) % n <= n - Gcd(m, n)
  {
    var g := Gcd(m, n);
    var p, _ := GcdDivides(m, n);
    Associate(k, p, g);
    ResidueOfMultiple(k * p, q, g);
  }

  /**
   The loop over the multiples of M below the least common multiple. `range` is
   one more than the largest unsigned long. The loop ends for all arguments. Its
   result is N - gcd(M, N) whenever the product M * N fits in an unsigned long, and
   never more; when the product wraps around, it is right exactly if a pass of the
   loop meets that residue, which ShiftFits tells beforehand, and 0 if the wrapped
   multiple leaves the loop no pass.
   */
  method CalculateFrameShift(m: nat, n: nat, range: nat) returns (result: nat)
    requires 0 < m < range && 0 < n < range
    ensures m * n < range ==> result == n - Gcd(m, n)
    ensures result <= n - Gcd(m, n)
    ensures result == n - Gcd(m, n) <==> n == Gcd(m, n) || Reached(m, n, range)
    ensures result == n - Gcd(m, n) <==> n == Gcd(m, n) || ShiftFits(m, n, range)
    ensures Lcm(m, n, range) <= m ==> result == 0
    ensures LargestResidue(m, n, range, result)
  {
    ghost var j, q := ShiftIsReached(m, n);
    result := 0;
    var lcm := Lcm(m, n, range);
    var i := m;
    ghost var k: nat := 1;
    ghost var best: nat := 0;
    LcmBounds(m, n, range, q);
    RemainderUnique(m, range, 0, m);
    while i < lcm
      invariant 1 <= k <= q && i == IndexAt(k, m, range)
      invariant Gcd(m, n) >= 2 || m * n < range ==> i == k * m
      invariant forall t: nat :: 1 <= t < k ==> IndexAt(t, m, range) < lcm
      invariant forall t: nat :: 1 <= t < k ==> ResidueAt(t, m, n, range) <= result
      invariant result > 0 ==> 1 <= best < k && ResidueAt(best, m, n, range) == result
      invariant result <= n - Gcd(m, n) && (lcm <= m ==> result == 0)
      decreases q - k
    {
      if Gcd(m, n) >= 2 || m * n < range { ResidueBound(k, m, n, q); } else { CoprimeBound(m, n, i % n); }
      if i % n > result { best := k; }
      result := if result > i % n then result else i % n;
      NextMultiple(i, k, m, n, range, q);
      i := (i + m) % range;
      k := k + 1;
    }
    ShiftFound(m, n, range, k, best, result);
    if m * n < range { FittingShift(m, n, range, j, q); }
    if n > Gcd(m, n) { ReachedIffFits(m, n, range); }
  }

  /** Only one multiple of m below q * m leaves a given residue. */
  lemma OneShift(m: nat, n: nat, j: nat, k: nat, q: nat)
    requires m > 0 && n > 0 && n == q * Gcd(m, n) && j < q && k < q && (j * m) % n == (k * m) % n
    ensures j == k
  {
    FirstShift(0, m, n, j, k, q);
    FirstShift(0, m, n, k, j, q);
  }

  /**
   A product that wraps around at 32 bits to the very value of M: the loop has no
   pass, and the shift of 65536 frames that is needed is not found.
   */
  lemma WrappedProduct()
    ensures Gcd(65536, 65537) == 1 && Lcm(65536, 65537, 0x1_0000_0000) == 65536
    ensures !Reached(65536, 65537, 0x1_0000_0000)
  {
    assert Gcd(65536, 65537) == Gcd(65537, 65536) == Gcd(65536, 1) == Gcd(1, 0);
    assert 65536 * 65537 == 0x1_0000_0000 + 65536;
    assert IndexAt(1, 65536, 0x1_0000_0000) == 65536;
  }
}
