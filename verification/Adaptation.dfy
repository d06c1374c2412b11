/**
 How full the temporary input buffer is after a run of host blocks, and which
 prefills keep the host output from running dry.
 */
module Adaptation {
  import opened Arithmetic
  import opened FrameShift

  /** All frames counts that occur are multiples of this: the gcd when host blocks all have length m. */
  function Granule(fixed: bool, m: nat, n: nat): (g: nat)
    ensures n > 0 ==> g > 0
  {
    if fixed then Gcd(m, n) else 1
  }

  lemma GranuleDivides(fixed: bool, m: nat, n: nat)
    requires n > 0
    ensures n % Granule(fixed, m, n) == 0
    ensures fixed ==> m % Granule(fixed, m, n) == 0
    ensures Granule(fixed, m, n) <= n
    ensures (n - Granule(fixed, m, n)) % Granule(fixed, m, n) == 0
  {
    if fixed {
      var g := Gcd(m, n);
      var p, q := GcdDivides(m, n);
      RemainderUnique(m, g, p, 0);
      RemainderUnique(n, g, q, 0);
      MulSign(q - 1, g);
      Distribute(q, 1, g);
      RemainderUnique(n - g, g, q - 1, 0);
    }
  }

  /** A stream of a multiple of g frames never leaves more than n - g in the user block being filled. */
  lemma FillFits(total: nat, n: nat, g: nat)
    requires n > 0 && g > 0 && n % g == 0 && total % g == 0
    ensures total % n <= n - g && (total % n) % g == 0
  {
    var a, b := total / g, n / g;
    assert total == a * g && n == b * g;
    MulSign(b, g);
    ResidueOfMultiple(a, b, g);
    RemainderUnique((a % b) * g, g, a % b, 0);
  }

  lemma MultiplesAdd(x: nat, y: nat, g: nat)
    requires g > 0 && x % g == 0 && y % g == 0
    ensures (x + y) % g == 0
  {
    var a, b := x / g, y / g;
    Distribute(a, b, g);
    RemainderUnique(x + y, g, a + b, 0);
  }

  /** The temporary buffers between two host blocks. */
  datatype Fill = Fill(input: nat, output: nat)

  /** The effect of a host block of m frames on the fill, while the callback continues. */
  function AfterBlock(f: Fill, m: nat, n: nat): Fill
    requires n > 0
  {
    var input := (f.input + m) % n;
    Fill(input, if input <= f.input + f.output then f.input + f.output - input else 0)
  }

  /** How many frames of that block's output stay unfilled. */
  function Lack(f: Fill, m: nat, n: nat): nat
    requires n > 0
  {
    var input := (f.input + m) % n;
    if input <= f.input + f.output then 0 else input - (f.input + f.output)
  }

  /** The fill after a run of blocks. */
  function AfterRun(f: Fill, blocks: seq<nat>, n: nat): Fill
    requires n > 0
    decreases |blocks|
  {
    if blocks == [] then f else AfterRun(AfterBlock(f, blocks[0], n), blocks[1..], n)
  }

  /** Some block of the run leaves output unfilled. */
  predicate Starves(f: Fill, blocks: seq<nat>, n: nat)
    requires n > 0
    decreases |blocks|
  {
    blocks != [] && (Lack(f, blocks[0], n) > 0 || Starves(AfterBlock(f, blocks[0], n), blocks[1..], n))
  }

  ghost predicate AllMultiples(blocks: seq<nat>, g: nat)
    requires g > 0
  {
    forall i :: 0 <= i < |blocks| ==> blocks[i] % g == 0
  }

  /**
   Prefill n - g is enough: no run of blocks whose lengths are multiples of g ever
   starves. With g = gcd(m, n) these are the runs of blocks of m frames, and with
   g = 1 all runs.
   */
  lemma {:induction false} EnoughPrefill(f: Fill, blocks: seq<nat>, n: nat, g: nat)
    requires n > 0 && g > 0 && n % g == 0 && f.input % g == 0 && AllMultiples(blocks, g)
    requires f.input + f.output >= n - g
    ensures !Starves(f, blocks, n)
    decreases |blocks|
  {
    if blocks != [] {
      var total := f.input + blocks[0];
      MultiplesAdd(f.input, blocks[0], g);
      FillFits(total, n, g);
      var next := AfterBlock(f, blocks[0], n);
      EnoughPrefill(next, blocks[1..], n, g);
    }
  }

  function Repeat(m: nat, count: nat): (r: seq<nat>)
    ensures |r| == count && forall i :: 0 <= i < count ==> r[i] == m
  {
    seq(count, _ => m)
  }

  lemma OneBlockOfRun(f: Fill, m: nat, count: nat, n: nat)
    requires n > 0 && count > 0 && f.input < n && !Starves(f, Repeat(m, count), n)
    ensures var next := AfterBlock(f, m, n);
      && next.input == (f.input + m) % n < n && next.input + next.output == f.input + f.output
      && !Starves(next, Repeat(m, count - 1), n)
      && AfterRun(f, Repeat(m, count), n) == AfterRun(next, Repeat(m, count - 1), n)
  {
    assert Repeat(m, count)[0] == m && Repeat(m, count)[1..] == Repeat(m, count - 1);
  }

  lemma {:induction false} RunWithoutStarving(f: Fill, m: nat, count: nat, n: nat)
    requires n > 0 && f.input < n && !Starves(f, Repeat(m, count), n)
    ensures var r := AfterRun(f, Repeat(m, count), n);
      r.input == (f.input + count * m) % n && r.input + r.output == f.input + f.output
    decreases count
  {
    if count == 0 {
      RemainderUnique(f.input, n, 0, f.input);
    } else {
      OneBlockOfRun(f, m, count, n);
      RunWithoutStarving(AfterBlock(f, m, n), m, count - 1, n);
      hide *;
      AddThenWrap(f.input + m, (count - 1) * m, n);
      Distribute(count, 1, m);
    }
  }

  lemma StarvingCount(input: int, a: int, r: int, g: int, j: int, m: int, n: int, t: int)
    requires input == a * g + r && j * m == t * n + (n - g)
    ensures input + ((a + 1) * j) * m == ((a + 1) * (t + 1) - 1) * n + (n - g + r)
  {
    Associate(a + 1, j, m);
    assert j * m == (t + 1) * n - g by { Distribute(t, 1, n); }
    assert (a + 1) * ((t + 1) * n - g) == (a + 1) * ((t + 1) * n) - (a + 1) * g;
    Associate(a + 1, t + 1, n);
    Distribute(a, 1, g);
    Distribute((a + 1) * (t + 1), 1, n);
  }

  lemma ReachResidue(input: nat, m: nat, n: nat, g: nat, j: nat) returns (count: nat)
    requires n > g > 0 && (j * m) % n == n - g
    ensures (input + count * m) % n >= n - g
  {
    var a, r := input / g, input % g;
    var t := (j * m) / n;
    count := (a + 1) * j;
    assert input == a * g + r && j * m == t * n + (n - g);
    StarvingCount(input, a, r, g, j, m, n, t);
    RemainderUnique(input + count * m, n, (a + 1) * (t + 1) - 1, n - g + r);
  }

  lemma StarvingResidue(input: nat, m: nat, n: nat) returns (count: nat)
    requires m > 0 && n > 0 && n > Gcd(m, n)
    ensures (input + count * m) % n >= n - Gcd(m, n)
  {
    var j, _ := ShiftIsReached(m, n);
    count := ReachResidue(input, m, n, Gcd(m, n), j);
  }

  /**
   A smaller prefill is not enough, whatever is in the buffers: some run of blocks
   of m frames starves. Together with EnoughPrefill, n - gcd(m, n) is the least
   prefill that never starves.
   */
  lemma TooLittlePrefill(f: Fill, m: nat, n: nat) returns (count: nat)
    requires m > 0 && n > 0 && f.input < n
    requires f.input + f.output < n - Gcd(m, n)
    ensures Starves(f, Repeat(m, count), n)
  {
    count := StarvingResidue(f.input, m, n);
    if !Starves(f, Repeat(m, count), n) {
      RunWithoutStarving(f, m, count, n);
    }
  }

  ghost predicate NeverStarves(f: Fill, n: nat)
    requires n > 0
  {
    forall blocks: seq<nat> :: !Starves(f, blocks, n)
  }

  lemma GcdOfOne(n: nat)
    requires n > 0
    ensures Gcd(1, n) == 1
  {
    var p, q := GcdDivides(1, n);
    var g := Gcd(1, n);
    MulSign(p, g);
    MulMonotone(1, p, g);
  }

  /** With blocks of any length, while the callback continues, n - 1 frames of prefill are needed and enough. */
  lemma VariableBlocks(f: Fill, n: nat)
    requires n > 0 && f.input < n
    ensures NeverStarves(f, n) <==> f.input + f.output >= n - 1
  {
    if f.input + f.output >= n - 1 {
      forall blocks: seq<nat> ensures !Starves(f, blocks, n) {
        EnoughPrefill(f, blocks, n, 1);
      }
    } else {
      GcdOfOne(n);
      var count := TooLittlePrefill(f, 1, n);
      assert Starves(f, Repeat(1, count), n);
    }
  }

  /**
   What a block of m frames leaves unfilled, when the callback may abort in it:
   `aborting` says that the call that takes the block's last frame aborts.
   */
  function Gap(f: Fill, m: nat, n: nat, aborting: bool): nat
    requires n > 0
  {
    if aborting && (f.input + m) % n == 0 then
      if f.input + f.output < n then n - (f.input + f.output) else 0
    else
      Lack(f, m, n)
  }

  /** No run of blocks, whose last one may see the callback abort, leaves output unfilled. */
  ghost predicate NeverLeavesGap(f: Fill, n: nat)
    requires n > 0
  {
    && NeverStarves(f, n)
    && forall blocks: seq<nat>, m: nat, aborting: bool :: Gap(AfterRun(f, blocks, n), m, n, aborting) == 0
  }

  lemma {:induction false} TotalIsKept(f: Fill, blocks: seq<nat>, n: nat)
    requires n > 0 && f.input < n && !Starves(f, blocks, n)
    ensures var r := AfterRun(f, blocks, n);
      r.input < n && r.input + r.output == f.input + f.output
    decreases |blocks|
  {
    if blocks != [] { TotalIsKept(AfterBlock(f, blocks[0], n), blocks[1..], n); }
  }

  /**
   With blocks of any length and a callback that may abort, n frames of prefill are
   needed and n are enough: the choice of the source is the least.
   */
  lemma VariableBlocksAndAborts(f: Fill, n: nat)
    requires n > 0 && f.input < n
    ensures NeverLeavesGap(f, n) <==> f.input + f.output >= n
  {
    if f.input + f.output >= n {
      VariableBlocks(f, n);
      forall blocks: seq<nat>, m: nat, aborting: bool ensures Gap(AfterRun(f, blocks, n), m, n, aborting) == 0 {
        assert !Starves(f, blocks, n);
        TotalIsKept(f, blocks, n);
      }
    } else {
      var m := n - f.input;
      RemainderUnique(n, n, 1, 0);
      assert AfterRun(f, [], n) == f;
      assert Gap(AfterRun(f, [], n), m, n, true) > 0;
    }
  }
}
