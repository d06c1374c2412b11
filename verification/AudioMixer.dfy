/**
 Mixing audio packets (AudioMixer.h, AudioPacket.h). A packet is a sequence of bytes,
 read as 16-bit samples with the low byte first; an odd last byte is ignored.
 */
module AudioMixer {
  import opened Arithmetic
  import opened Bytes
  import opened Sequences

  type Packet = seq<byte>
  type int16 = x: int | -0x8000 <= x < 0x8000

  /** The samples that a packet holds in full. */
  function SampleCount(p: Packet): nat {
    |p| / 2
  }

  function Sample(p: Packet, i: nat): (x: int16)
    requires i < SampleCount(p)
    ensures (x - p[2 * i] as int - 256 * p[2 * i + 1] as int) % 0x1_0000 == 0
  {
    var word: int := p[2 * i] as int + 256 * p[2 * i + 1] as int;
    if word < 0x8000 then word else word - 0x1_0000
  }

  function LowByte(x: int16): byte {
    x % 256
  }

  function HighByte(x: int16): byte {
    (x / 256) % 256
  }

  /** The packet that holds these samples. */
  function PacketOf(samples: seq<int16>): (p: Packet)
    ensures |p| == 2 * |samples|
  {
    if samples == [] then []
    else PacketOf(samples[..|samples| - 1]) + [LowByte(samples[|samples| - 1]), HighByte(samples[|samples| - 1])]
  }

  lemma SampleBytes(x: int16)
    ensures LowByte(x) as int + 256 * HighByte(x) as int == if x < 0 then x + 0x1_0000 else x
  {
  }

  lemma {:induction false} PacketRoundTrip(samples: seq<int16>, i: nat)
    requires i < |samples|
    ensures SampleCount(PacketOf(samples)) == |samples| && Sample(PacketOf(samples), i) == samples[i]
  {
    var n := |samples| - 1;
    if i < n {
      PacketRoundTrip(samples[..n], i);
    } else {
      var x := samples[n];
      assert PacketOf(samples)[2 * n] == LowByte(x) && PacketOf(samples)[2 * n + 1] == HighByte(x);
      SampleBytes(x);
    }
  }

  lemma WrapOnce(a: int, b: int)
    ensures ToInt32(ToInt32(a) + b) == ToInt32(a + b)
  {
    AddThenWrap(a + 0x8000_0000, b, 0x1_0000_0000);
  }

  /** Division as C++ defines it, toward zero. */
  function Quot(a: int, b: int): int
    requires b > 0
  {
    if a >= 0 then Quotient(a, b) else 0 - Quotient(-a, b) as int
  }

  function Truncate(x: real): int {
    if x >= 0.0 then x.Floor else -((-x).Floor)
  }

  function Clamp(x: int, lo: int, hi: int): int {
    if x < lo then lo else if hi < x then hi else x
  }

  /** What one packet adds to position i. */
  function Contribution(p: Packet, i: nat): int16 {
    if i < SampleCount(p) then Sample(p, i) else 0
  }

  function CoverSum(packets: seq<Packet>, i: nat): int {
    if packets == [] then 0
    else CoverSum(packets[..|packets| - 1], i) + Contribution(packets[|packets| - 1], i)
  }

  /** How many packets are long enough to have a sample at position i. */
  function CoverCount(packets: seq<Packet>, i: nat): (c: nat)
    ensures c <= |packets|
  {
    if packets == [] then 0
    else CoverCount(packets[..|packets| - 1], i) + (if i < SampleCount(packets[|packets| - 1]) then 1 else 0)
  }

  function MaxSamples(packets: seq<Packet>): nat {
    if packets == [] then 0
    else
      var m, c := MaxSamples(packets[..|packets| - 1]), SampleCount(packets[|packets| - 1]);
      if c > m then c else m
  }

  /** Half the mean of the samples at position i, both quotients taken toward zero. */
  function HalfMean(sum: int, count: int): int
    requires count > 0
  {
    Quot(Quot(sum, count), 2)
  }

  /** q is the quotient of x by d with its fraction dropped: no further from zero than the exact one. */
  ghost predicate TowardZero(q: int, x: int, d: int) {
    && (x >= 0 ==> 0 <= d * q <= x < d * q + d)
    && (x <= 0 ==> d * q - d < x <= d * q <= 0)
  }

  lemma QuotIsTowardZero(a: int, b: int)
    requires b > 0
    ensures TowardZero(Quot(a, b), a, b)
  {
    var q := Quot(a, b);
    if a >= 0 {
      assert a == q * b + a % b;
      MulMonotone(0, q, b);
    } else {
      assert -a == -q * b + -a % b;
      MulMonotone(q, 0, b);
    }
  }

  lemma TwoQuotients(x: int, c: int, m: int, h: int)
    requires c > 0 && TowardZero(m, x, c) && TowardZero(h, m, 2)
    requires m > 0 ==> x > 0
    requires m < 0 ==> x < 0
    ensures TowardZero(h, x, 2 * c)
  {
    var d := m - 2 * h;
    Distribute(2 * h, d, c);
    Associate(2, h, c);
    Associate(2, c, h);
    if x >= 0 {
      MulMonotone(0, h, c);
      MulMonotone(d, 1, c);
      MulMonotone(0, d, c);
    } else {
      MulMonotone(h, 0, c);
      MulMonotone(-1, d, c);
      MulMonotone(d, 0, c);
    }
  }

  lemma SignOfQuotient(q: int, x: int, d: int)
    requires d > 0 && TowardZero(q, x, d)
    ensures q > 0 ==> x > 0
    ensures q < 0 ==> x < 0
  {
    if q > 0 { MulMonotone(1, q, d); }
    if q < 0 { MulMonotone(q, -1, d); }
  }

  /** Both quotients of HalfMean together drop the fraction of half the exact mean. */
  lemma HalfMeanIsTowardZero(sum: int, count: int)
    requires count > 0
    ensures TowardZero(HalfMean(sum, count), sum, 2 * count)
  {
    var m := Quot(sum, count);
    QuotIsTowardZero(sum, count);
    QuotIsTowardZero(m, 2);
    SignOfQuotient(m, sum, count);
    hide TowardZero, Quot;
    TwoQuotients(sum, count, m, HalfMean(sum, count));
  }

  lemma {:induction false} CoverSumBounds(packets: seq<Packet>, i: nat)
    ensures -0x8000 * CoverCount(packets, i) <= CoverSum(packets, i) <= 0x7fff * CoverCount(packets, i)
  {
    if packets != [] { CoverSumBounds(packets[..|packets| - 1], i); }
  }

  /** The longest packet covers every position of the mix. */
  lemma {:induction false} EveryPositionIsCovered(packets: seq<Packet>, i: nat)
    ensures CoverCount(packets, i) > 0 <==> i < MaxSamples(packets)
  {
    if packets != [] { EveryPositionIsCovered(packets[..|packets| - 1], i); }
  }

  lemma QuotientBelow(m: nat, b: nat, h: nat)
    requires b > 0 && m < h * b
    ensures Quotient(m, b) < h
  {
    var q := m / b;
    assert q * b <= m;
    Distribute(q, h, b);
    MulSign(q - h, b);
  }

  lemma QuotBounds(a: int, b: int, lo: int, hi: int)
    requires b > 0 && lo < 0 < hi && lo * b < a < hi * b
    ensures lo < Quot(a, b) < hi
  {
    if a >= 0 {
      QuotientBelow(a, b, hi);
    } else {
      Distribute(0, lo, b);
      QuotientBelow(-a, b, -lo);
    }
  }

  /** A mixed sample lies within half the range of a sample, whatever is mixed: nothing is clipped. */
  lemma MixedWordBounds(packets: seq<Packet>, i: nat)
    ensures CoverCount(packets, i) > 0 ==>
      -0x4000 <= HalfMean(ToInt32(CoverSum(packets, i)), CoverCount(packets, i)) <= 0x3fff
  {
    CoverSumBounds(packets, i);
    var s, c := CoverSum(packets, i), CoverCount(packets, i);
    if c > 0 { QuotBounds(ToInt32(s), c, -0x8001, 0x8000); }
  }

  /** The sample of the mix at position i, from sums that wrap around at 32 bits. */
  function MixedWord(packets: seq<Packet>, i: nat): (r: int16)
  {
    MixedWordBounds(packets, i);
    if CoverCount(packets, i) > 0 then HalfMean(ToInt32(CoverSum(packets, i)), CoverCount(packets, i)) else 0
  }

  function Mixed(packets: seq<Packet>): Packet {
    PacketOf(seq(MaxSamples(packets), i requires 0 <= i => MixedWord(packets, i)))
  }

  /** No more packets than this keep every sum of 16-bit samples within 32 bits. */
  const MOST_EXACT_PACKETS: nat := 0x1_0000

  /** Every sample of the mix is half the true mean of the samples there. */
  ghost predicate Exact(packets: seq<Packet>) {
    && SampleCount(Mixed(packets)) == MaxSamples(packets)
    && forall i: nat :: i < MaxSamples(packets) ==>
         && CoverCount(packets, i) > 0
         && Sample(Mixed(packets), i) == HalfMean(CoverSum(packets, i), CoverCount(packets, i))
  }

  lemma MixedSample(packets: seq<Packet>, i: nat)
    requires i < MaxSamples(packets)
    ensures SampleCount(Mixed(packets)) == MaxSamples(packets)
    ensures Sample(Mixed(packets), i) == MixedWord(packets, i)
  {
    PacketRoundTrip(seq(MaxSamples(packets), j requires 0 <= j => MixedWord(packets, j)), i);
  }

  /** Up to 65536 packets, no sum overflows: each sample is half the mean of those that cover it. */
  lemma NoOverflow(packets: seq<Packet>)
    requires |packets| <= MOST_EXACT_PACKETS
    ensures Exact(packets)
  {
    assert |Mixed(packets)| == 2 * MaxSamples(packets);
    forall i: nat | i < MaxSamples(packets)
      ensures CoverCount(packets, i) > 0
      ensures Sample(Mixed(packets), i) == HalfMean(CoverSum(packets, i), CoverCount(packets, i))
    {
      CoverSumBounds(packets, i);
      EveryPositionIsCovered(packets, i);
      MixedSample(packets, i);
    }
  }

  /** Up to 65536 packets, every sample of the mix is half the exact mean with its fraction dropped. */
  lemma MixIsHalfMean(packets: seq<Packet>, i: nat)
    requires |packets| <= 0x1_0000 && i < MaxSamples(packets)
    ensures SampleCount(Mixed(packets)) == MaxSamples(packets) && CoverCount(packets, i) > 0
    ensures TowardZero(Sample(Mixed(packets), i), CoverSum(packets, i), 2 * CoverCount(packets, i))
  {
    NoOverflow(packets);
    HalfMeanIsTowardZero(CoverSum(packets, i), CoverCount(packets, i));
  }

  /** 65537 packets of one sample, the lowest there is, and then empty ones. */
  function Worst(n: nat): (packets: seq<Packet>)
    ensures |packets| == n
  {
    seq(n, k => if k <= MOST_EXACT_PACKETS then [0, 0x80] else [])
  }

  lemma WorstAt(n: nat, k: nat)
    requires k < n
    ensures Contribution(Worst(n)[k], 0) == if k <= MOST_EXACT_PACKETS then -0x8000 else 0
    ensures SampleCount(Worst(n)[k]) == if k <= MOST_EXACT_PACKETS then 1 else 0
  {
    assert Sample([0, 0x80], 0) == -0x8000;
  }

  lemma {:induction false} WorstSums(n: nat)
    ensures var lowest := if n <= MOST_EXACT_PACKETS then n else MOST_EXACT_PACKETS + 1;
      CoverSum(Worst(n), 0) == -0x8000 * lowest && CoverCount(Worst(n), 0) == lowest
  {
    if n > 0 {
      WorstSums(n - 1);
      assert Worst(n)[..n - 1] == Worst(n - 1);
      WorstAt(n, n - 1);
      hide Worst, Contribution, SampleCount;
    }
  }

  /** For every larger number of packets, there are some whose lowest samples mix to the highest one. */
  lemma OverflowBeyond(n: nat)
    requires n > MOST_EXACT_PACKETS
    ensures MaxSamples(Worst(n)) > 0 && MixedWord(Worst(n), 0) == 0x3fff
    ensures HalfMean(CoverSum(Worst(n), 0), CoverCount(Worst(n), 0)) == -0x4000
  {
    WorstSums(n);
    EveryPositionIsCovered(Worst(n), 0);
  }

  /** All mixes of n packets are exact if and only if n is at most 65536. */
  lemma ExactIff(n: nat)
    ensures n <= MOST_EXACT_PACKETS <==> forall packets: seq<Packet> :: |packets| == n ==> Exact(packets)
  {
    if n <= MOST_EXACT_PACKETS {
      forall packets: seq<Packet> | |packets| == n ensures Exact(packets) {
        NoOverflow(packets);
      }
    } else {
      OverflowBeyond(n);
      MixedSample(Worst(n), 0);
      assert !Exact(Worst(n));
    }
  }

  /** Taking one packet out of the middle. */
  lemma {:induction false} TakeOut(packets: seq<Packet>, k: nat, i: nat)
    requires k < |packets|
    ensures var rest := packets[..k] + packets[k + 1..];
      && CoverSum(packets, i) == CoverSum(rest, i) + Contribution(packets[k], i)
      && CoverCount(packets, i) == CoverCount(rest, i) + if i < SampleCount(packets[k]) then 1 else 0
  {
    var rest, n := packets[..k] + packets[k + 1..], |packets| - 1;
    if k == n {
      assert rest == packets[..n];
    } else {
      TakeOut(packets[..n], k, i);
      assert rest[..n - 1] == packets[..n][..k] + packets[..n][k + 1..];
      assert rest[n - 1] == packets[n];
    }
  }

  lemma {:induction false} SumsAreOrderless(p: seq<Packet>, q: seq<Packet>, i: nat)
    requires multiset(p) == multiset(q)
    ensures CoverSum(p, i) == CoverSum(q, i) && CoverCount(p, i) == CoverCount(q, i)
    decreases |p|
  {
    assert |multiset(p)| == |p| && |multiset(q)| == |q|;
    if p != [] {
      var n := |p| - 1;
      var k := PlaceOf(p, q);
      SumsAreOrderless(p[..n], q[..k] + q[k + 1..], i);
      TakeOut(q, k, i);
    }
  }

  lemma LongestIsOrderless(p: seq<Packet>, q: seq<Packet>)
    requires multiset(p) == multiset(q)
    ensures MaxSamples(q) <= MaxSamples(p)
  {
    var m := MaxSamples(p);
    SumsAreOrderless(p, q, m);
    EveryPositionIsCovered(p, m);
    EveryPositionIsCovered(q, m);
  }

  /** The mix depends on which packets there are, not on their order. */
  lemma MixIsOrderless(p: seq<Packet>, q: seq<Packet>)
    requires multiset(p) == multiset(q)
    ensures Mixed(p) == Mixed(q)
  {
    LongestIsOrderless(p, q);
    LongestIsOrderless(q, p);
    forall i: nat ensures MixedWord(p, i) == MixedWord(q, i) {
      SumsAreOrderless(p, q, i);
    }
    assert seq(MaxSamples(p), i requires 0 <= i => MixedWord(p, i))
        == seq(MaxSamples(q), i requires 0 <= i => MixedWord(q, i));
  }

  /** Adds the samples of one packet to the sums, in 32-bit words. */
  method AddPacket(packet: Packet, mixBuffer: array<int>, sampleCounts: array<int>)
    requires SampleCount(packet) <= mixBuffer.Length == sampleCounts.Length && mixBuffer != sampleCounts
    modifies mixBuffer, sampleCounts
    ensures forall i :: 0 <= i < mixBuffer.Length ==>
      && mixBuffer[i]
         == (if i < SampleCount(packet) then ToInt32(old(mixBuffer[i]) + Sample(packet, i)) else old(mixBuffer[i]))
      && sampleCounts[i] == old(sampleCounts[i]) + (if i < SampleCount(packet) then 1 else 0)
  {
    var packetSampleCount := |packet| / 2;
    for i := 0 to packetSampleCount
      invariant forall k :: 0 <= k < i ==>
        mixBuffer[k] == ToInt32(old(mixBuffer[k]) + Sample(packet, k)) && sampleCounts[k] == old(sampleCounts[k]) + 1
      invariant forall k :: i <= k < mixBuffer.Length ==>
        mixBuffer[k] == old(mixBuffer[k]) && sampleCounts[k] == old(sampleCounts[k])
    {
      mixBuffer[i] := ToInt32(mixBuffer[i] + Sample(packet, i));
      sampleCounts[i] := sampleCounts[i] + 1;
    }
  }

  /** Scaling by one half and dropping the fraction is division by two. */
  lemma HalfOf(mean: int)
    ensures Truncate(mean as real * 0.5) == Quot(mean, 2)
  {
  }

  /** Half the mean of one sum, clamped to 16 bits. */
  method Normalize(sum: int, count: int) returns (sample: int16)
    requires count > 0 ==> -0x8000 <= Quot(sum, count) <= 0x7fff
    ensures sample == if count > 0 then HalfMean(sum, count) else 0
  {
    if count > 0 {
      var mean := Quot(sum, count);
      var scaled := Truncate(mean as real * 0.5);
      sample := Clamp(scaled, -0x8000, 0x7fff);
      HalfOf(mean);
    } else {
      sample := 0;
    }
  }

  /** The number of samples in the longest packet. */
  method LongestPacket(packets: seq<Packet>) returns (maxSampleCount: nat)
    ensures maxSampleCount == MaxSamples(packets)
  {
    maxSampleCount := 0;
    for p := 0 to |packets|
      invariant maxSampleCount == MaxSamples(packets[..p])
    {
      assert packets[..p + 1][..p] == packets[..p];
      var packetSampleCount := |packets[p]| / 2;
      if packetSampleCount > maxSampleCount { maxSampleCount := packetSampleCount; }
    }
    assert packets[..|packets|] == packets;
  }

  /** Sums and counts, over the first packets, at every position of the mix. */
  ghost predicate Summed(packets: seq<Packet>, mixBuffer: array<int>, sampleCounts: array<int>)
    reads mixBuffer, sampleCounts
  {
    && mixBuffer.Length == sampleCounts.Length
    && (forall i :: 0 <= i < mixBuffer.Length ==> mixBuffer[i] == ToInt32(CoverSum(packets, i)))
    && (forall i :: 0 <= i < sampleCounts.Length ==> sampleCounts[i] == CoverCount(packets, i))
  }

  lemma {:induction false} FitsLongest(packets: seq<Packet>, p: nat)
    requires p < |packets|
    ensures SampleCount(packets[p]) <= MaxSamples(packets)
  {
    if p < |packets| - 1 { FitsLongest(packets[..|packets| - 1], p); }
  }

  lemma OneMorePacket(packets: seq<Packet>, p: nat, i: nat)
    requires p < |packets|
    ensures ToInt32(CoverSum(packets[..p + 1], i))
      == ToInt32(ToInt32(CoverSum(packets[..p], i)) + Contribution(packets[p], i))
    ensures CoverCount(packets[..p + 1], i)
      == CoverCount(packets[..p], i) + if i < SampleCount(packets[p]) then 1 else 0
  {
    assert packets[..p + 1][..p] == packets[..p];
    WrapOnce(CoverSum(packets[..p], i), Contribution(packets[p], i));
  }

  method AddPackets(packets: seq<Packet>, mixBuffer: array<int>, sampleCounts: array<int>)
    requires mixBuffer.Length == MaxSamples(packets) && mixBuffer != sampleCounts
    requires Summed([], mixBuffer, sampleCounts)
    modifies mixBuffer, sampleCounts
    ensures Summed(packets, mixBuffer, sampleCounts)
  {
    for p := 0 to |packets|
      invariant Summed(packets[..p], mixBuffer, sampleCounts)
    {
      FitsLongest(packets, p);
      AddPacket(packets[p], mixBuffer, sampleCounts);
      forall i | 0 <= i < mixBuffer.Length ensures mixBuffer[i] == ToInt32(CoverSum(packets[..p + 1], i))
        && sampleCounts[i] == CoverCount(packets[..p + 1], i)
      {
        OneMorePacket(packets, p, i);
      }
    }
    assert packets[..|packets|] == packets;
  }

  lemma MeanBounds(packets: seq<Packet>, i: nat)
    ensures CoverCount(packets, i) > 0 ==>
      -0x8000 <= Quot(ToInt32(CoverSum(packets, i)), CoverCount(packets, i)) <= 0x7fff
  {
    CoverSumBounds(packets, i);
    if CoverCount(packets, i) > 0 {
      QuotBounds(ToInt32(CoverSum(packets, i)), CoverCount(packets, i), -0x8001, 0x8000);
    }
  }

  /** The mix of packets; the source bounds neither their number nor their lengths. */
  method Mix(packets: seq<Packet>) returns (mixed: Packet)
    ensures mixed == Mixed(packets)
  {
    if packets == [] { return []; }
    var maxSampleCount := LongestPacket(packets);
    var mixBuffer := new int[maxSampleCount](_ => 0);
    var sampleCounts := new int[maxSampleCount](_ => 0);
    AddPackets(packets, mixBuffer, sampleCounts);
    var outputBuffer := new int16[maxSampleCount];
    for i := 0 to maxSampleCount
      modifies outputBuffer
      invariant forall k :: 0 <= k < i ==> outputBuffer[k] == MixedWord(packets, k)
    {
      MeanBounds(packets, i);
      outputBuffer[i] := Normalize(mixBuffer[i], sampleCounts[i]);
    }
    assert outputBuffer[..] == seq(MaxSamples(packets), i requires 0 <= i => MixedWord(packets, i));
    mixed := PacketOf(outputBuffer[..]);
  }
}
