/**
 The pink-noise generator (paex_pink.c): a sum of rows of random numbers, one of
 which is replaced at each call. The trailing zeros of a counter choose the row, so
 that each row is replaced half as often as the one before it.
 */
module PinkNoiseGenerator {
  import opened Arithmetic
  import opened Bits

  const MAX_RANDOM_ROWS := 30
  /** 2^(24 - 1): random numbers have 24 bits, one of them the sign. */
  const LARGEST_RANDOM := 0x80_0000

  /** What is left of a random number of a machine word once shifted to 24 bits. */
  type random = x: int | -LARGEST_RANDOM <= x < LARGEST_RANDOM

  function Sum(s: seq<random>): int {
    if s == [] then 0 else Sum(s[..|s| - 1]) + s[|s| - 1]
  }

  lemma {:induction false} SumBounds(s: seq<random>)
    ensures -LARGEST_RANDOM * |s| <= Sum(s) && (s != [] ==> Sum(s) < LARGEST_RANDOM * |s|)
  {
    if s != [] { SumBounds(s[..|s| - 1]); }
  }

  /** A bound for the sum of the rows and one more random number. */
  function Pmax(numRows: nat): (pmax: int)
    ensures pmax > 0
  {
    (numRows + 1) * LARGEST_RANDOM
  }

  /** The sum of all rows and one more number lies in [-pmax, pmax), which fits 32 bits. */
  lemma SumInRange(s: seq<random>, white: random)
    ensures -Pmax(|s|) <= Sum(s) + white < Pmax(|s|)
    ensures |s| <= MAX_RANDOM_ROWS ==> Pmax(|s|) < 0x8000_0000
  {
    SumBounds(s);
  }

  lemma {:induction false} SumUpdate(s: seq<random>, k: nat, x: random)
    requires k < |s|
    ensures Sum(s[k := x]) == Sum(s) - s[k] + x
  {
    var t := s[k := x];
    if k == |s| - 1 {
      assert t[..|s| - 1] == s[..|s| - 1];
    } else {
      SumUpdate(s[..|s| - 1], k, x);
      assert t[..|s| - 1] == s[..|s| - 1][k := x];
    }
  }

  /** The number of zeros at the end of the binary numeral of x. */
  function TrailingZeros(x: nat): nat
    requires x > 0
  {
    if x % 2 == 1 then 0 else 1 + TrailingZeros(x / 2)
  }

  /** The trailing zeros give the highest power of two that divides a number. */
  lemma {:induction false} TrailingZerosIs(x: nat) returns (odd: nat)
    requires x > 0
    ensures odd % 2 == 1 && x == odd * Pow2(TrailingZeros(x))
  {
    if x % 2 == 1 {
      odd := x;
    } else {
      odd := TrailingZerosIs(x / 2);
      Associate(2, odd, Pow2(TrailingZeros(x / 2)));
    }
  }

  lemma {:induction false} TrailingZerosBound(x: nat, bits: nat)
    requires 0 < x < Pow2(bits)
    ensures TrailingZeros(x) < bits
    decreases bits
  {
    if x % 2 == 0 { TrailingZerosBound(x / 2, bits - 1); }
  }

  /** Whether call number `call` replaces row k of the first `numRows`. */
  predicate Replaces(numRows: nat, call: nat, k: nat) {
    var index := call % Pow2(numRows);
    index != 0 && TrailingZeros(index) == k
  }

  /** How many of the `count` calls after the first `start` replace row k. */
  function Replacements(numRows: nat, start: nat, count: nat, k: nat): nat {
    if count == 0 then 0
    else Replacements(numRows, start, count - 1, k) + (if Replaces(numRows, start + count, k) then 1 else 0)
  }

  /** Of 1, …, m, how many have exactly k trailing zeros. */
  function WithZeros(m: nat, k: nat): nat {
    if m == 0 then 0 else WithZeros(m - 1, k) + (if TrailingZeros(m) == k then 1 else 0)
  }

  lemma ZerosOfDouble(m: nat)
    requires m > 0
    ensures TrailingZeros(2 * m) == 1 + TrailingZeros(m) && TrailingZeros(2 * m + 1) == 0
  {
    assert 2 * m / 2 == m;
  }

  lemma {:induction false} WithZerosByHalving(m: nat, k: nat)
    ensures WithZeros(2 * m + 1, k) == if k == 0 then m + 1 else WithZeros(m, k - 1)
  {
    if m > 0 {
      WithZerosByHalving(m - 1, k);
      ZerosOfDouble(m);
      hide TrailingZeros;
    }
  }

  lemma {:induction false} WithZerosBelowPower(bits: nat, k: nat)
    requires k < bits
    ensures WithZeros(Pow2(bits) - 1, k) == Pow2(bits - 1 - k)
    decreases k
  {
    WithZerosByHalving(Pow2(bits - 1) - 1, k);
    if k > 0 { WithZerosBelowPower(bits - 1, k - 1); }
  }

  lemma {:induction false} FirstCalls(numRows: nat, count: nat, k: nat)
    requires count < Pow2(numRows)
    ensures Replacements(numRows, 0, count, k) == WithZeros(count, k)
  {
    if count > 0 {
      FirstCalls(numRows, count - 1, k);
      RemainderUnique(count, Pow2(numRows), 0, count);
    }
  }

  /** Calls a whole period apart replace the same row. */
  lemma SamePhase(numRows: nat, call: nat, k: nat)
    ensures Replaces(numRows, call + Pow2(numRows), k) == Replaces(numRows, call, k)
  {
    var p := Pow2(numRows);
    var q, r := call / p, call % p;
    Distribute(q, 1, p);
    RemainderUnique(call + p, p, q + 1, r);
  }

  /** Moving the first call of a stretch into the stretch before it. */
  lemma {:induction false} FirstApart(numRows: nat, start: nat, count: nat, k: nat)
    requires count > 0
    ensures Replacements(numRows, start, count, k)
      == (if Replaces(numRows, start + 1, k) then 1 else 0) + Replacements(numRows, start + 1, count - 1, k)
  {
    if count > 1 { FirstApart(numRows, start, count - 1, k); }
  }

  /** In any 2^numRows consecutive calls, row k is replaced exactly 2^(numRows - 1 - k) times. */
  lemma {:induction false} RowSchedule(numRows: nat, start: nat, k: nat)
    requires k < numRows
    ensures Replacements(numRows, start, Pow2(numRows), k) == Pow2(numRows - 1 - k)
    decreases start
  {
    var p := Pow2(numRows);
    if start == 0 {
      FirstCalls(numRows, p - 1, k);
      WithZerosBelowPower(numRows, k);
      RemainderUnique(p, p, 1, 0);
    } else {
      RowSchedule(numRows, start - 1, k);
      FirstApart(numRows, start - 1, p, k);
      SamePhase(numRows, start, k);
    }
  }

  lemma {:induction false} ReplacementsSplit(numRows: nat, start: nat, a: nat, b: nat, k: nat)
    ensures Replacements(numRows, start, a + b, k)
      == Replacements(numRows, start, a, k) + Replacements(numRows, start + a, b, k)
    decreases b
  {
    if b > 0 { ReplacementsSplit(numRows, start, a, b - 1, k); }
  }

  /** How often each row has been replaced in the first calls. */
  ghost predicate Counted(numRows: nat, calls: nat, replaced: seq<nat>) {
    |replaced| == numRows && forall k :: 0 <= k < numRows ==> replaced[k] == Replacements(numRows, 0, calls, k)
  }

  lemma CountStep(numRows: nat, calls: nat, before: seq<nat>, after: seq<nat>)
    requires Counted(numRows, calls, before) && |after| == numRows
    requires forall k :: 0 <= k < numRows ==>
      after[k] == before[k] + if Replaces(numRows, calls + 1, k) then 1 else 0
    ensures Counted(numRows, calls + 1, after)
  {
  }

  lemma IndexStep(numRows: nat, calls: nat, index: int)
    requires index == calls % Pow2(numRows)
    ensures And(index + 1, Pow2(numRows) - 1) == (calls + 1) % Pow2(numRows)
    ensures 0 <= (calls + 1) % Pow2(numRows) < Pow2(numRows)
  {
    MaskIsRemainder(index + 1, numRows);
    AddThenWrap(calls, 1, Pow2(numRows));
  }

  function Ratio(x: int, y: int): real
    requires y != 0
  {
    x as real / y as real
  }

  function Scale(x: int, scalar: real): real {
    scalar * x as real
  }

  lemma Scaled(sum: int, pmax: int)
    requires pmax > 0 && -pmax <= sum < pmax
    ensures Scale(sum, Ratio(1, pmax)) == Ratio(sum, pmax)
    ensures -1.0 <= Ratio(sum, pmax) < 1.0
  {
  }

  /** The sum is divided by the largest one there could be, of numRows rows and one number of 24 bits each. */
  ghost predicate IsScaled(output: real, sum: int, numRows: nat) {
    output * ((numRows + 1) * 0x80_0000) as real == sum as real
  }

  lemma RatioIsScaled(sum: int, numRows: nat)
    ensures IsScaled(Ratio(sum, Pmax(numRows)), sum, numRows)
  {
    assert (sum as real / Pmax(numRows) as real) * Pmax(numRows) as real == sum as real;
  }

  lemma {:induction false} LowestSum(s: seq<random>)
    requires forall k :: 0 <= k < |s| ==> s[k] == -0x80_0000
    ensures Sum(s) == -0x80_0000 * |s|
  {
    if s != [] { LowestSum(s[..|s| - 1]); }
  }

  lemma OnlyMinusOne(x: real, y: real)
    requires y > 0.0 && x * y == -y
    ensures x == -1.0
  {
    assert (x + 1.0) * y == x * y + y;
  }

  /** When all numbers are the lowest, the output is the lowest that the source states. */
  lemma LowestOutput(s: seq<random>, white: random, output: real)
    requires white == -0x80_0000 && forall k :: 0 <= k < |s| ==> s[k] == -0x80_0000
    requires IsScaled(output, Sum(s) + white, |s|)
    ensures output == -1.0
  {
    LowestSum(s);
    hide Sum;
    OnlyMinusOne(output, ((|s| + 1) * 0x80_0000) as real);
  }

  lemma {:induction false} SumOfZeros(s: seq<random>)
    requires forall k :: 0 <= k < |s| ==> s[k] == 0
    ensures Sum(s) == 0
  {
    if s != [] { SumOfZeros(s[..|s| - 1]); }
  }

  class PinkNoise {
    var rows: array<random>
    var runningSum: int
    var index: int
    var indexMask: int
    var scalar: real

    ghost const numRows: nat
    /** The number of calls so far, and how often each row was replaced in them. */
    ghost var calls: nat
    ghost var replaced: seq<nat>

    ghost predicate Valid()
      reads this, rows
    {
      && numRows <= rows.Length == MAX_RANDOM_ROWS
      && runningSum == Sum(rows[..numRows])
      && indexMask == Pow2(numRows) - 1 && index == calls % Pow2(numRows)
      && scalar == Ratio(1, Pmax(numRows))
      && |replaced| == numRows && Counted(numRows, calls, replaced)
    }

    constructor (numRows: nat)
      requires numRows <= MAX_RANDOM_ROWS
      ensures Valid() && this.numRows == numRows && calls == 0 && fresh(rows)
      ensures forall k :: 0 <= k < numRows ==> rows[k] == 0
    {
      this.numRows := numRows;
      index := 0;
      indexMask := Pow2(numRows) - 1;
      scalar := 1.0 / Pmax(numRows) as real;
      rows := new random[MAX_RANDOM_ROWS];
      calls := 0;
      replaced := seq(numRows, k => 0);
      new;
      for i := 0 to numRows
        modifies rows
        invariant forall k :: 0 <= k < i ==> rows[k] == 0
      {
        rows[i] := 0;
      }
      runningSum := 0;
      SumOfZeros(rows[..numRows]);
      RemainderUnique(0, Pow2(numRows), 0, 0);
    }

    /** The row to be replaced at a call that leaves this index, which is not zero. */
    static method CountTrailingZeros(index: int) returns (numZeros: nat)
      requires index > 0
      ensures numZeros == TrailingZeros(index)
    {
      numZeros := 0;
      var n := index;
      MaskIsRemainder(n, 1);
      while And(n, 1) == 0
        invariant n > 0 && TrailingZeros(index) == numZeros + TrailingZeros(n)
        invariant And(n, 1) == n % 2
        decreases n
      {
        n := n / 2;
        numZeros := numZeros + 1;
        MaskIsRemainder(n, 1);
      }
    }

    /** Puts a new random number into one row. */
    method ReplaceRow(k: nat, newRandom: random)
      requires k < numRows == |replaced| <= rows.Length && runningSum == Sum(rows[..numRows])
      modifies this`runningSum, this`replaced, rows
      ensures runningSum == Sum(rows[..numRows]) && rows[..] == old(rows[..])[k := newRandom]
      ensures replaced == old(replaced)[k := old(replaced)[k] + 1]
    {
      SumUpdate(rows[..numRows], k, newRandom);
      runningSum := runningSum - rows[k];
      runningSum := runningSum + newRandom;
      rows[k] := newRandom;
      replaced := replaced[k := replaced[k] + 1];
      assert rows[..numRows] == old(rows[..numRows])[k := newRandom];
    }

    /** The sum scaled to the range of the output. */
    method ScaleSum(sum: int) returns (output: real)
      requires scalar == Ratio(1, Pmax(numRows)) && -Pmax(numRows) <= sum < Pmax(numRows)
      ensures IsScaled(output, sum, numRows) && -1.0 <= output < 1.0
    {
      hide *;
      Scaled(sum, Pmax(numRows));
      output := Scale(sum, scalar);
      RatioIsScaled(sum, numRows);
    }

    /** The next index, and the replacement of the row that it chooses. */
    method NextRow(newRandom: random)
      requires Valid()
      modifies this`index, this`runningSum, this`calls, this`replaced, rows
      ensures Valid() && calls == old(calls) + 1
      ensures forall k :: 0 <= k < rows.Length ==>
        rows[k] == if k < numRows && Replaces(numRows, calls, k) then newRandom else old(rows[k])
    {
      hide Sum, Pow2, Counted, TrailingZeros, Pmax, Ratio, And;
      IndexStep(numRows, calls, index);
      ghost var before := replaced;
      index := And(index + 1, indexMask);
      calls := calls + 1;
      if index != 0 {
        var numZeros := CountTrailingZeros(index);
        TrailingZerosBound(index, numRows);
        ReplaceRow(numZeros, newRandom);
      }
      CountStep(numRows, calls - 1, before, replaced);
    }

    /**
     One call. It replaces at most one row, keeps the sum in step with the rows, and
     returns the sum of all rows and one more random number, scaled into [-1, 1).
     */
    method GeneratePinkNoise(newRandom: random, white: random) returns (output: real)
      requires Valid()
      modifies this`index, this`runningSum, this`calls, this`replaced, rows
      ensures Valid() && calls == old(calls) + 1
      ensures forall k :: 0 <= k < rows.Length ==>
        rows[k] == if k < numRows && Replaces(numRows, calls, k) then newRandom else old(rows[k])
      ensures IsScaled(output, Sum(rows[..numRows]) + white, numRows)
      ensures -1.0 <= output < 1.0
    {
      hide Sum, Pow2, Counted, TrailingZeros, Pmax, Ratio, IsScaled, Replaces;
      NextRow(newRandom);
      SumInRange(rows[..numRows], white);
      output := ScaleSum(runningSum + white);
    }
  }

  /** What the invariant says of how often row k is replaced while a whole period passes. */
  lemma ReplacedInOnePeriod(numRows: nat, calls: nat, before: seq<nat>, after: seq<nat>, k: nat)
    requires Counted(numRows, calls, before) && Counted(numRows, calls + Pow2(numRows), after) && k < numRows
    ensures after[k] == before[k] + Pow2(numRows - 1 - k)
  {
    ReplacementsSplit(numRows, 0, calls, Pow2(numRows), k);
    RowSchedule(numRows, calls, k);
  }
}
