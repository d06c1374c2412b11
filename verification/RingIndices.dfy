/**
 Ring indices are kept modulo twice the buffer size. They stand for unbounded
 counters of all elements ever written and ever read.
 */
module RingIndices {
  import opened Arithmetic
  import opened Bits

  /** The slot of the buffer that element number `counter` of the stream uses. */
  function Slot(counter: nat, size: nat): (s: nat)
    requires size > 0
    ensures s < size
  {
    counter % size
  }

  /** An index stands for a counter. */
  predicate Stands(index: int, counter: nat, size: nat)
    requires size > 0
  {
    index == counter % (2 * size)
  }

  lemma DifferenceOfMultiples(w: int, r: int, a: int, b: int, x: int, y: int, m: int)
    requires w == a * m + x && r == b * m + y
    ensures x - y == (b - a) * m + (w - r)
  {
    Distribute(b, a, m);
  }

  lemma DifferenceResidue(w: nat, r: nat, m: nat)
    requires r <= w < r + m
    ensures (w % m - r % m) % m == w - r
  {
    var a, b, x, y := w / m, r / m, w % m, r % m;
    assert w == a * m + x && r == b * m + y;
    DifferenceOfMultiples(w, r, a, b, x, y, m);
    RemainderUnique(x - y, m, b - a, w - r);
  }

  /** The masked difference of the indices is the difference of the counters. */
  lemma AvailableIsDifference(writeIndex: int, readIndex: int, w: nat, r: nat, k: nat)
    requires Stands(writeIndex, w, Pow2(k)) && Stands(readIndex, r, Pow2(k))
    requires r <= w <= r + Pow2(k)
    ensures And(writeIndex - readIndex, 2 * Pow2(k) - 1) == w - r
  {
    assert Pow2(k + 1) == 2 * Pow2(k);
    MaskIsRemainder(writeIndex - readIndex, k + 1);
    DifferenceResidue(w, r, Pow2(k + 1));
  }

  lemma AdvanceCounts(index: int, counter: nat, count: nat, k: nat)
    requires Stands(index, counter, Pow2(k))
    ensures Stands(And(index + count, 2 * Pow2(k) - 1), counter + count, Pow2(k))
  {
    assert Pow2(k + 1) == 2 * Pow2(k);
    MaskIsRemainder(index + count, k + 1);
    AddThenWrap(counter, count, Pow2(k + 1));
  }

  /** Masking an index with the small mask gives the slot of its counter. */
  lemma StartIsSlot(index: int, counter: nat, k: nat)
    requires Stands(index, counter, Pow2(k))
    ensures And(index, Pow2(k) - 1) == Slot(counter, Pow2(k))
  {
    MaskIsRemainder(index, k);
    NestedRemainder(counter, Pow2(k), 2);
  }

  /** Counters less than a buffer apart have slots that follow, wrapping at the end of the buffer. */
  lemma SlotsFollow(counter: nat, i: nat, n: nat)
    requires n > 0 && i <= n
    ensures Slot(counter + i, n)
         == if Slot(counter, n) + i < n then Slot(counter, n) + i else Slot(counter, n) + i - n
  {
    var start, q := counter % n, counter / n;
    assert counter == q * n + start;
    if start + i < n {
      RemainderUnique(counter + i, n, q, start + i);
    } else {
      Distribute(q, 1, n);
      RemainderUnique(counter + i, n, q + 1, start + i - n);
    }
  }

  /** Counters less than a buffer apart have different slots. */
  lemma DistinctSlots(a: nat, b: nat, n: nat)
    requires a < b < a + n
    ensures Slot(a, n) != Slot(b, n)
  {
    SlotsFollow(a, b - a, n);
  }
}
