/** The ring buffer used from one thread: a bounded queue with partial transfers. */
module RingBuffers {
  import opened Arithmetic
  import opened Bits
  import opened RingIndices

  /** A stretch of the buffer: where it starts and how many elements it has. */
  datatype Region = Region(start: int, size: nat)

  /** Where element i of a transfer lies, the second region starting at the buffer's start. */
  function Position(first: Region, i: int): int {
    if i < first.size then first.start + i else i - first.size
  }

  /** The elements with counters `from` up to `to`, in the slots they use. */
  ghost function Stretch<T>(slots: seq<T>, from: nat, to: nat): (c: seq<T>)
    requires |slots| > 0 && from <= to
    ensures |c| == to - from
    ensures forall i: nat :: from <= i < to ==> c[i - from] == slots[Slot(i, |slots|)]
  {
    seq(to - from, i requires 0 <= i < to - from => slots[Slot(from + i, |slots|)])
  }

  lemma AppendToStretch<T>(before: seq<T>, after: seq<T>, r: nat, w: nat, added: seq<T>)
    requires |before| == |after| > 0 && r <= w
    requires forall c: nat :: r <= c < w ==> after[Slot(c, |after|)] == before[Slot(c, |after|)]
    requires forall c: nat :: w <= c < w + |added| ==> after[Slot(c, |after|)] == added[c - w]
    ensures Stretch(after, r, w + |added|) == Stretch(before, r, w) + added
  {
    hide Slot;
  }

  /** What is copied out of two regions. */
  lemma TwoRegions<T>(slots: seq<T>, first: Region, second: Region, data: seq<T>)
    requires 0 <= first.start && first.start + first.size <= |slots|
    requires second.start == 0 && second.size <= |slots|
    requires data == slots[first.start..first.start + first.size] + slots[second.start..second.start + second.size]
    ensures |data| == first.size + second.size
    ensures forall i :: 0 <= i < |data| ==> data[i] == slots[Position(first, i)]
  {
  }

  lemma TakeFromStretch<T>(slots: seq<T>, r: nat, w: nat, taken: seq<T>)
    requires |slots| > 0 && r + |taken| <= w
    requires forall c: nat :: r <= c < r + |taken| ==> taken[c - r] == slots[Slot(c, |slots|)]
    ensures Stretch(slots, r, w) == taken + Stretch(slots, r + |taken|, w)
  {
    hide Slot;
  }

  class RingBuffer<T> {
    var bufferSize: int
    var writeIndex: int
    var readIndex: int
    var bigMask: int
    var smallMask: int
    const buffer: array<T>

    // The unbounded counters behind the two indices, and the logarithm of the size.
    ghost var written: nat
    ghost var consumed: nat
    ghost var log2: nat

    constructor (buffer: array<T>)
      ensures this.buffer == buffer
    {
      this.buffer := buffer;
      bufferSize, writeIndex, readIndex, bigMask, smallMask := 0, 0, 0, 0, 0;
      written, consumed, log2 := 0, 0, 0;
    }

    ghost predicate Valid() reads this {
      && bufferSize == Pow2(log2) == buffer.Length
      && bigMask == 2 * bufferSize - 1 && smallMask == bufferSize - 1
      && consumed <= written <= consumed + bufferSize
      && Stands(writeIndex, written, bufferSize) && Stands(readIndex, consumed, bufferSize)
    }

    /** The elements written and not yet read, oldest first. */
    ghost function Contents(): (c: seq<T>)
      requires Valid()
      reads this, buffer
      ensures |c| == written - consumed <= bufferSize
    {
      Stretch(buffer[..], consumed, written)
    }

    /** The queue is empty, whatever it held, and as large as it was. */
    method Flush()
      modifies this`writeIndex, this`readIndex, this`written, this`consumed
      ensures old(Valid()) ==> Valid() && Contents() == []
      ensures writeIndex == readIndex == 0 && written == consumed == 0
    {
      writeIndex, readIndex := 0, 0;
      written, consumed := 0, 0;
    }

    /** Returns 0 for a positive size exactly when it is a power of two, and -1 when it is not. */
    method Initialize(elementCount: int) returns (result: int)
      requires elementCount > 0 ==> elementCount == buffer.Length
      modifies this
      ensures result == 0 || result == -1
      ensures elementCount > 0 ==> (result == 0 <==> exists k: nat :: elementCount == Pow2(k))
      ensures result == 0 && elementCount > 0 ==> Valid() && bufferSize == elementCount && Contents() == []
      ensures result == -1 ==> unchanged(this)
    {
      if elementCount > 0 {
        PowerOfTwoTest(elementCount);
      }
      if And(elementCount - 1, elementCount) != 0 {
        return -1;
      }
      bufferSize := elementCount;
      Flush();
      bigMask := elementCount * 2 - 1;
      smallMask := elementCount - 1;
      if elementCount > 0 {
        ghost var k :| elementCount == Pow2(k);
        log2 := k;
        RemainderUnique(0, 2 * bufferSize, 0, 0);
      }
      return 0;
    }

    method GetReadAvailable() returns (available: int)
      requires Valid()
      ensures available == |Contents()|
    {
      available := And(writeIndex - readIndex, bigMask);
      AvailableIsDifference(writeIndex, readIndex, written, consumed, log2);
    }

    method GetWriteAvailable() returns (available: int)
      requires Valid()
      ensures available == bufferSize - |Contents()|
    {
      var readable := GetReadAvailable();
      available := bufferSize - readable;
    }

    /** The two regions are inside the buffer, disjoint and in order the slots of the counters from `from` on. */
    ghost predicate RegionsFrom(from: nat, count: nat, first: Region, second: Region)
      requires bufferSize > 0
      reads this
    {
      && first.size + second.size == count
      && 0 <= first.start && first.start + first.size <= bufferSize
      && second.start == 0 && (second.size > 0 ==> second.size <= first.start)
      && (forall c: nat :: from <= c < from + count ==> Slot(c, bufferSize) == Position(first, c - from))
    }

    /** The wrapping that GetWriteRegions and GetReadRegions share. */
    method Regions(index: int, ghost from: nat, count: nat) returns (first: Region, second: Region)
      requires Valid() && count <= bufferSize && Stands(index, from, bufferSize)
      ensures RegionsFrom(from, count, first, second)
    {
      hide Slot, Stands;
      var start := And(index, smallMask);
      StartIsSlot(index, from, log2);
      if start + count > bufferSize {
        // Two blocks that wrap the buffer.
        var firstHalf := bufferSize - start;
        first, second := Region(start, firstHalf), Region(0, count - firstHalf);
      } else {
        first, second := Region(start, count), Region(0, 0);
      }
      forall c: nat | from <= c < from + count ensures Slot(c, bufferSize) == Position(first, c - from) {
        SlotsFollow(from, c - from, bufferSize);
      }
    }

    method GetWriteRegions(elementCount: nat) returns (count: nat, first: Region, second: Region)
      requires Valid()
      ensures count == if elementCount < bufferSize - |Contents()| then elementCount else bufferSize - |Contents()|
      ensures RegionsFrom(written, count, first, second)
    {
      var available := GetWriteAvailable();
      count := if elementCount > available then available else elementCount;
      first, second := Regions(writeIndex, written, count);
    }

    method GetReadRegions(elementCount: nat) returns (count: nat, first: Region, second: Region)
      requires Valid()
      ensures count == if elementCount < |Contents()| then elementCount else |Contents()|
      ensures RegionsFrom(consumed, count, first, second)
    {
      var available := GetReadAvailable();
      count := if elementCount > available then available else elementCount;
      first, second := Regions(readIndex, consumed, count);
    }

    method AdvanceWriteIndex(count: nat)
      requires Valid() && written + count <= consumed + bufferSize
      modifies this`writeIndex, this`written
      ensures Valid() && written == old(written) + count
    {
      AdvanceCounts(writeIndex, written, count, log2);
      writeIndex := And(writeIndex + count, bigMask);
      written := written + count;
    }

    method AdvanceReadIndex(count: nat)
      requires Valid() && consumed + count <= written
      modifies this`readIndex, this`consumed
      ensures Valid() && consumed == old(consumed) + count
    {
      AdvanceCounts(readIndex, consumed, count, log2);
      readIndex := And(readIndex + count, bigMask);
      consumed := consumed + count;
    }

    /** The copying in Write: the two regions receive the data, the rest of the buffer stays. */
    method CopyIn(data: seq<T>, first: Region, second: Region)
      requires Valid() && RegionsFrom(written, first.size + second.size, first, second)
      requires first.size + second.size <= |data|
      modifies buffer
      ensures forall i :: 0 <= i < first.size + second.size ==> buffer[Position(first, i)] == data[i]
      ensures forall p ::
        0 <= p < buffer.Length && !(first.start <= p < first.start + first.size) && second.size <= p ==>
        buffer[p] == old(buffer[p])
    {
      hide Slot, Stands;
      forall i | 0 <= i < first.size {
        buffer[first.start + i] := data[i];
      }
      forall i | 0 <= i < second.size {
        buffer[second.start + i] := data[first.size + i];
      }
    }

    /** A write leaves the slots of the elements not yet read alone. */
    lemma NotInRegions(c: nat, from: nat, count: nat, first: Region, second: Region)
      requires bufferSize > 0 && RegionsFrom(from, count, first, second)
      requires c < from && from + count <= c + bufferSize
      ensures !(first.start <= Slot(c, bufferSize) < first.start + first.size)
      ensures second.size <= Slot(c, bufferSize)
    {
      hide Slot;
      var s := Slot(c, bufferSize);
      if first.start <= s < first.start + first.size {
        DistinctSlots(c, from + (s - first.start), bufferSize);
      }
      if s < second.size {
        DistinctSlots(c, from + (first.size + s), bufferSize);
      }
    }

    /** As many of the elements as fit are appended. */
    method Write(data: seq<T>) returns (numWritten: nat)
      requires Valid()
      modifies this`writeIndex, this`written, buffer
      ensures Valid()
      ensures numWritten == if |data| < bufferSize - |old(Contents())| then |data| else bufferSize - |old(Contents())|
      ensures Contents() == old(Contents()) + data[..numWritten]
    {
      hide Slot, Stands, Stretch, And, Pow2;
      var first, second;
      numWritten, first, second := GetWriteRegions(|data|);
      CopyIn(data, first, second);
      ghost var n, from := bufferSize, written;
      forall c: nat | consumed <= c < from ensures buffer[Slot(c, n)] == old(buffer[Slot(c, n)]) {
        NotInRegions(c, from, numWritten, first, second);
      }
      forall c: nat | from <= c < from + numWritten ensures buffer[Slot(c, n)] == data[..numWritten][c - from] {
        assert Slot(c, n) == Position(first, c - from);
      }
      AppendToStretch(old(buffer[..]), buffer[..], consumed, from, data[..numWritten]);
      AdvanceWriteIndex(numWritten);
    }

    /** As many elements as there are, at most, are taken from the front. */
    method Read(elementCount: nat) returns (numRead: nat, data: seq<T>)
      requires Valid()
      modifies this`readIndex, this`consumed
      ensures Valid()
      ensures numRead == if elementCount < |old(Contents())| then elementCount else |old(Contents())|
      ensures data == old(Contents())[..numRead]
      ensures Contents() == old(Contents())[numRead..]
    {
      hide Slot, Stands, Stretch, And, Pow2;
      var first, second;
      numRead, first, second := GetReadRegions(elementCount);
      data := buffer[first.start..first.start + first.size] + buffer[second.start..second.start + second.size];
      TwoRegions(buffer[..], first, second, data);
      forall c: nat | consumed <= c < consumed + numRead ensures data[c - consumed] == buffer[Slot(c, bufferSize)] {
        assert Slot(c, bufferSize) == Position(first, c - consumed);
      }
      TakeFromStretch(buffer[..], consumed, written, data);
      AdvanceReadIndex(numRead);
    }
  }
}
