/**
 One writer thread and one reader thread on the same ring buffer. Every element
 copy and every access to an index of the other thread is a step of its own.
 */
module RingInterleaving {
  import Arithmetic
  import opened Bits
  import opened RingIndices

  /** PaUtil_WriteRingBuffer between its steps: the elements it will write and how many it has copied. */
  datatype Writer<T> = WriterIdle | Writing(items: seq<T>, done: nat)

  /** PaUtil_ReadRingBuffer between its steps: how many elements it will read and those it has copied. */
  datatype Reader<T> = ReaderIdle | Reading(count: nat, got: seq<T>)

  /** The shared buffer and indices, both threads, and the elements published and consumed so far. */
  datatype State<T> = State(slots: seq<T>, writeIndex: int, readIndex: int, writer: Writer<T>, reader: Reader<T>,
                            published: seq<T>, consumed: seq<T>)

  datatype Event<T> =
    | StartWrite(data: seq<T>) | StoreElement | AdvanceWrite
    | StartRead(elementCount: nat) | LoadElement | AdvanceRead

  /** Element i of a transfer from `index`: in the first region, or past the end in the second. */
  function RegionSlot(index: int, size: nat, i: nat): int {
    var start := And(index, size - 1);
    if start + i < size then start + i else start + i - size
  }

  function Least(a: int, b: int): int { if a < b then a else b }

  function Readable<T>(s: State<T>): int {
    And(s.writeIndex - s.readIndex, 2 * |s.slots| - 1)
  }

  /** When a thread can take the step, what the step does. Both threads may take any enabled step. */
  ghost predicate Step<T>(s: State<T>, e: Event<T>, t: State<T>) {
    match e
    case StartWrite(data) =>
      var count := Least(|data|, |s.slots| - Readable(s));
      s.writer.WriterIdle? && 0 <= count <= |data| && t == s.(writer := Writing(data[..count], 0))
    case StoreElement =>
      && s.writer.Writing? && s.writer.done < |s.writer.items|
      && var p := RegionSlot(s.writeIndex, |s.slots|, s.writer.done);
      && 0 <= p < |s.slots|
      && t == s.(slots := s.slots[p := s.writer.items[s.writer.done]],
                 writer := Writing(s.writer.items, s.writer.done + 1))
    case AdvanceWrite =>
      && s.writer.Writing? && s.writer.done == |s.writer.items|
      && t == s.(writeIndex := And(s.writeIndex + s.writer.done, 2 * |s.slots| - 1),
                 writer := WriterIdle, published := s.published + s.writer.items)
    case StartRead(elementCount) =>
      var count := Least(elementCount, Readable(s));
      s.reader.ReaderIdle? && 0 <= count && t == s.(reader := Reading(count, []))
    case LoadElement =>
      && s.reader.Reading? && |s.reader.got| < s.reader.count
      && var p := RegionSlot(s.readIndex, |s.slots|, |s.reader.got|);
      && 0 <= p < |s.slots|
      && t == s.(reader := Reading(s.reader.count, s.reader.got + [s.slots[p]]))
    case AdvanceRead =>
      && s.reader.Reading? && |s.reader.got| == s.reader.count
      && t == s.(readIndex := And(s.readIndex + s.reader.count, 2 * |s.slots| - 1),
                 reader := ReaderIdle, consumed := s.consumed + s.reader.got)
  }

  /** A buffer of a power-of-two size, flushed, with no transfer under way. */
  ghost predicate Initial<T>(s: State<T>, k: nat) {
    && |s.slots| == Pow2(k) && s.writeIndex == s.readIndex == 0
    && s.writer.WriterIdle? && s.reader.ReaderIdle? && s.published == s.consumed == []
  }

  /** Everything that will have been read and written once the transfers under way are done. */
  function Incoming<T>(s: State<T>): seq<T> {
    s.published + (if s.writer.Writing? then s.writer.items else [])
  }

  function Delivered<T>(s: State<T>): seq<T> {
    s.consumed + (if s.reader.Reading? then s.reader.got else [])
  }

  /** How many elements of Incoming are in the buffer or have passed through it. */
  function StoredCount<T>(s: State<T>): nat {
    |s.published| + (if s.writer.Writing? then s.writer.done else 0)
  }

  ghost predicate Inv<T>(s: State<T>, k: nat) {
    var n := Pow2(k);
    && |s.slots| == n
    && Stands(s.writeIndex, |s.published|, n) && Stands(s.readIndex, |s.consumed|, n)
    && (s.writer.Writing? ==> s.writer.done <= |s.writer.items|)
    && (s.reader.Reading? ==> |s.reader.got| <= s.reader.count <= |s.published| - |s.consumed|)
    && Delivered(s) <= s.published
    && |Incoming(s)| <= |s.consumed| + n
    && (forall c: nat :: |s.consumed| <= c < StoredCount(s) ==> s.slots[Slot(c, n)] == Incoming(s)[c])
  }

  /** A run: states with a step of either thread between each two. */
  ghost predicate Run<T>(states: seq<State<T>>, events: seq<Event<T>>, k: nat) {
    && |states| == |events| + 1 && Initial(states[0], k)
    && forall i :: 0 <= i < |events| ==> Step(states[i], events[i], states[i + 1])
  }

  lemma InitialInv<T>(s: State<T>, k: nat)
    requires Initial(s, k)
    ensures Inv(s, k)
  {
    Arithmetic.RemainderUnique(0, 2 * Pow2(k), 0, 0);
  }

  lemma ReadableIsCount<T>(s: State<T>, k: nat)
    requires Inv(s, k)
    ensures Readable(s) == |s.published| - |s.consumed|
  {
    AvailableIsDifference(s.writeIndex, s.readIndex, |s.published|, |s.consumed|, k);
  }

  lemma RegionSlotIsSlot(index: int, counter: nat, k: nat, i: nat)
    requires Stands(index, counter, Pow2(k)) && i <= Pow2(k)
    ensures RegionSlot(index, Pow2(k), i) == Slot(counter + i, Pow2(k))
  {
    StartIsSlot(index, counter, k);
    SlotsFollow(counter, i, Pow2(k));
  }

  lemma StoreKeepsInv<T>(s: State<T>, t: State<T>, k: nat)
    requires Inv(s, k) && Step(s, StoreElement, t)
    ensures Inv(t, k)
  {
    hide Slot, Stands;
    var n := Pow2(k);
    var stored := StoredCount(s);
    RegionSlotIsSlot(s.writeIndex, |s.published|, k, s.writer.done);
    forall c: nat | |t.consumed| <= c < StoredCount(t) ensures t.slots[Slot(c, n)] == Incoming(t)[c] {
      if c < stored { DistinctSlots(c, stored, n); }
    }
  }

  lemma LoadKeepsInv<T>(s: State<T>, t: State<T>, k: nat)
    requires Inv(s, k) && Step(s, LoadElement, t)
    ensures Inv(t, k)
  {
    hide Slot, Stands;
    RegionSlotIsSlot(s.readIndex, |s.consumed|, k, |s.reader.got|);
    var c := |Delivered(s)|;
    assert s.slots[Slot(c, Pow2(k))] == s.published[c];
    assert Delivered(t) == Delivered(s) + [s.published[c]];
  }

  lemma AdvanceKeepsInv<T>(s: State<T>, e: Event<T>, t: State<T>, k: nat)
    requires Inv(s, k) && Step(s, e, t) && (e.AdvanceWrite? || e.AdvanceRead?)
    ensures Inv(t, k)
  {
    hide Slot, Stands;
    if e.AdvanceWrite? {
      AdvanceCounts(s.writeIndex, |s.published|, s.writer.done, k);
    } else {
      AdvanceCounts(s.readIndex, |s.consumed|, s.reader.count, k);
    }
  }

  lemma StartKeepsInv<T>(s: State<T>, e: Event<T>, t: State<T>, k: nat)
    requires Inv(s, k) && Step(s, e, t) && (e.StartWrite? || e.StartRead?)
    ensures Inv(t, k)
  {
    hide Slot, Stands;
    ReadableIsCount(s, k);
  }

  lemma StepKeepsInv<T>(s: State<T>, e: Event<T>, t: State<T>, k: nat)
    requires Inv(s, k) && Step(s, e, t)
    ensures Inv(t, k)
  {
    match e
    case StoreElement => StoreKeepsInv(s, t, k);
    case LoadElement => LoadKeepsInv(s, t, k);
    case AdvanceWrite => AdvanceKeepsInv(s, e, t, k);
    case AdvanceRead => AdvanceKeepsInv(s, e, t, k);
    case StartWrite(_) => StartKeepsInv(s, e, t, k);
    case StartRead(_) => StartKeepsInv(s, e, t, k);
  }

  lemma {:induction false} RunKeepsInv<T>(states: seq<State<T>>, events: seq<Event<T>>, k: nat)
    requires Run(states, events, k)
    ensures Inv(states[|events|], k)
    decreases |events|
  {
    if events == [] {
      InitialInv(states[0], k);
    } else {
      var m := |events| - 1;
      RunKeepsInv(states[..m + 1], events[..m], k);
      assert Step(states[m], events[m], states[m + 1]);
      StepKeepsInv(states[m], events[m], states[m + 1], k);
    }
  }

  lemma InvAt<T>(states: seq<State<T>>, events: seq<Event<T>>, k: nat, m: nat)
    requires Run(states, events, k) && m <= |events|
    ensures Inv(states[m], k)
  {
    RunKeepsInv(states[..m + 1], events[..m], k);
  }

  /** c is as many as are asked for, or as many as there can be, whichever is less. */
  ghost predicate AtMost(c: nat, asked: nat, available: int) {
    c <= asked && c <= available && (c == asked || c == available)
  }

  /**
   A step as it would be on a plain queue of at most n elements, without slots and
   indices: a write takes as many elements as there is room for, a read as many as
   there are, and each element is copied from its place in the stream.
   */
  ghost predicate QueueStep<T>(s: State<T>, e: Event<T>, t: State<T>, n: nat) {
    match e
    case StartWrite(data) =>
      && t.published == s.published && t.consumed == s.consumed && t.reader == s.reader && s.writer.WriterIdle?
      && t.writer.Writing? && t.writer.done == 0 && t.writer.items <= data
      && AtMost(|t.writer.items|, |data|, n - (|s.published| - |s.consumed|))
    case StoreElement =>
      && t.published == s.published && t.consumed == s.consumed && t.reader == s.reader
      && s.writer.Writing? && t.writer == Writing(s.writer.items, s.writer.done + 1)
    case AdvanceWrite =>
      && s.writer.Writing? && s.writer.done == |s.writer.items| && t.published == s.published + s.writer.items
      && t.consumed == s.consumed && t.reader == s.reader && t.writer.WriterIdle?
    case StartRead(elementCount) =>
      && t.published == s.published && t.consumed == s.consumed && t.writer == s.writer && s.reader.ReaderIdle?
      && t.reader.Reading? && t.reader.got == []
      && AtMost(t.reader.count, elementCount, |s.published| - |s.consumed|)
    case LoadElement =>
      && t.published == s.published && t.consumed == s.consumed && t.writer == s.writer && s.reader.Reading?
      && |s.consumed| + |s.reader.got| < |s.published|
      && t.reader == Reading(s.reader.count, s.reader.got + [s.published[|s.consumed| + |s.reader.got|]])
    case AdvanceRead =>
      && s.reader.Reading? && |s.reader.got| == s.reader.count && t.consumed == s.consumed + s.reader.got
      && t.published == s.published && t.writer == s.writer && t.reader.ReaderIdle?
  }

  lemma StepIsQueueStep<T>(s: State<T>, e: Event<T>, t: State<T>, k: nat)
    requires Inv(s, k) && Step(s, e, t)
    ensures QueueStep(s, e, t, Pow2(k))
  {
    hide Slot, Stands;
    match e
    case StartWrite(data) => ReadableIsCount(s, k);
    case StartRead(elementCount) => ReadableIsCount(s, k);
    case LoadElement =>
      RegionSlotIsSlot(s.readIndex, |s.consumed|, k, |s.reader.got|);
      assert s.slots[Slot(|Delivered(s)|, Pow2(k))] == s.published[|Delivered(s)|];
    case StoreElement =>
    case AdvanceWrite =>
    case AdvanceRead =>
  }

  lemma QueueStepAt<T>(states: seq<State<T>>, events: seq<Event<T>>, k: nat, m: nat)
    requires Run(states, events, k) && m < |events|
    ensures QueueStep(states[m], events[m], states[m + 1], Pow2(k))
  {
    InvAt(states, events, k, m);
    StepIsQueueStep(states[m], events[m], states[m + 1], k);
  }

  /** While a write is under way, its elements stay what they are and nothing is published. */
  lemma {:induction false} WriteGoesOn<T>(states: seq<State<T>>, events: seq<Event<T>>, k: nat, i: nat, m: nat)
    requires Run(states, events, k) && i < m <= |events| && events[i].StartWrite?
    requires forall j :: i < j < m ==> !events[j].AdvanceWrite?
    ensures var s, t := states[i], states[m];
      && t.published == s.published && t.writer.Writing? && t.writer.items <= events[i].data
      && AtMost(|t.writer.items|, |events[i].data|, Pow2(k) - (|s.published| - |s.consumed|))
  {
    hide Step;
    QueueStepAt(states, events, k, m - 1);
    if i + 1 < m { WriteGoesOn(states, events, k, i, m - 1); }
  }

  /**
   A write that starts at step i and ends at step j, with any steps of the reader in
   between, publishes as many of its elements as there was room for when it started.
   */
  lemma WritePublishes<T>(states: seq<State<T>>, events: seq<Event<T>>, k: nat, i: nat, j: nat) returns (count: nat)
    requires Run(states, events, k) && i < j < |events| && events[i].StartWrite? && events[j].AdvanceWrite?
    requires forall m :: i < m < j ==> !events[m].AdvanceWrite?
    ensures AtMost(count, |events[i].data|, Pow2(k) - (|states[i].published| - |states[i].consumed|))
    ensures states[j + 1].published == states[i].published + events[i].data[..count]
  {
    hide Step;
    WriteGoesOn(states, events, k, i, j);
    QueueStepAt(states, events, k, j);
    count := |states[j].writer.items|;
  }

  /** What was published once is published for good. */
  lemma {:induction false} PublishedGrows<T>(states: seq<State<T>>, events: seq<Event<T>>, k: nat, i: nat, m: nat)
    requires Run(states, events, k) && i <= m <= |events|
    ensures states[i].published <= states[m].published
    decreases m
  {
    hide Step;
    if i < m {
      PublishedGrows(states, events, k, i, m - 1);
      QueueStepAt(states, events, k, m - 1);
    }
  }

  /** While a read is under way, it asks for the same number of elements and nothing is released. */
  lemma {:induction false} ReadGoesOn<T>(states: seq<State<T>>, events: seq<Event<T>>, k: nat, i: nat, m: nat)
    requires Run(states, events, k) && i < m <= |events| && events[i].StartRead?
    requires forall j :: i < j < m ==> !events[j].AdvanceRead?
    ensures var s, t := states[i], states[m];
      && t.consumed == s.consumed && t.reader.Reading?
      && AtMost(t.reader.count, events[i].elementCount, |s.published| - |s.consumed|)
  {
    hide Step;
    QueueStepAt(states, events, k, m - 1);
    if i + 1 < m { ReadGoesOn(states, events, k, i, m - 1); }
  }

  /**
   A read that starts at step i and ends at step j, with any steps of the writer in
   between, takes as many elements from the front as there were when it started.
   */
  lemma ReadConsumes<T>(states: seq<State<T>>, events: seq<Event<T>>, k: nat, i: nat, j: nat) returns (count: nat)
    requires Run(states, events, k) && i < j < |events| && events[i].StartRead? && events[j].AdvanceRead?
    requires forall m :: i < m < j ==> !events[m].AdvanceRead?
    ensures AtMost(count, events[i].elementCount, |states[i].published| - |states[i].consumed|)
    ensures var s := states[i];
      |s.consumed| + count <= |s.published|
      && states[j + 1].consumed == s.consumed + s.published[|s.consumed|..|s.consumed| + count]
  {
    hide Step;
    ReadGoesOn(states, events, k, i, j);
    QueueStepAt(states, events, k, j);
    PublishedGrows(states, events, k, i, j);
    InvAt(states, events, k, j);
    count := states[j].reader.count;
    var s, t := states[i], states[j];
    assert t.consumed + t.reader.got == Delivered(t) <= t.published;
    assert Delivered(t) == t.published[..|s.consumed| + count] == s.published[..|s.consumed| + count];
  }

  /** In every run, what the reader has copied so far is a prefix of what was published to it. */
  lemma ReadIsPrefixOfWritten<T>(states: seq<State<T>>, events: seq<Event<T>>, k: nat)
    requires Run(states, events, k)
    ensures Delivered(states[|events|]) <= states[|events|].published <= Incoming(states[|events|])
  {
    RunKeepsInv(states, events, k);
  }

  /**
   In every run, the slot the writer stores next holds no element that was
   published and not yet released, so none that the reader may still copy.
   */
  lemma WriterAvoidsReader<T>(states: seq<State<T>>, events: seq<Event<T>>, k: nat, c: nat)
    requires Run(states, events, k)
    requires var s := states[|events|];
      && s.writer.Writing? && s.writer.done < |s.writer.items|
      && |s.consumed| <= c < |s.published|
    ensures var s := states[|events|];
      RegionSlot(s.writeIndex, |s.slots|, s.writer.done) != Slot(c, Pow2(k))
  {
    RunKeepsInv(states, events, k);
    var s := states[|events|];
    RegionSlotIsSlot(s.writeIndex, |s.published|, k, s.writer.done);
    DistinctSlots(c, StoredCount(s), Pow2(k));
  }

  ghost predicate Enabled<T(!new)>(s: State<T>, e: Event<T>) {
    exists t :: Step(s, e, t)
  }

  lemma WriterGoesOn<T(!new)>(s: State<T>, k: nat)
    requires Inv(s, k) && s.writer.Writing?
    ensures Enabled(s, StoreElement) || Enabled(s, AdvanceWrite)
  {
    var n := Pow2(k);
    if s.writer.done < |s.writer.items| {
      RegionSlotIsSlot(s.writeIndex, |s.published|, k, s.writer.done);
      var p := RegionSlot(s.writeIndex, n, s.writer.done);
      assert Step(s, StoreElement, s.(slots := s.slots[p := s.writer.items[s.writer.done]],
                                      writer := Writing(s.writer.items, s.writer.done + 1)));
    } else {
      assert Step(s, AdvanceWrite, s.(writeIndex := And(s.writeIndex + s.writer.done, 2 * n - 1),
                                      writer := WriterIdle, published := s.published + s.writer.items));
    }
  }

  lemma ReaderGoesOn<T(!new)>(s: State<T>, k: nat)
    requires Inv(s, k) && s.reader.Reading?
    ensures Enabled(s, LoadElement) || Enabled(s, AdvanceRead)
  {
    var n := Pow2(k);
    if |s.reader.got| < s.reader.count {
      RegionSlotIsSlot(s.readIndex, |s.consumed|, k, |s.reader.got|);
      var p := RegionSlot(s.readIndex, n, |s.reader.got|);
      assert Step(s, LoadElement, s.(reader := Reading(s.reader.count, s.reader.got + [s.slots[p]])));
    } else {
      assert Step(s, AdvanceRead, s.(readIndex := And(s.readIndex + s.reader.count, 2 * n - 1),
                                     reader := ReaderIdle, consumed := s.consumed + s.reader.got));
    }
  }

  lemma WriterStarts<T(!new)>(s: State<T>, k: nat, data: seq<T>)
    requires Inv(s, k) && s.writer.WriterIdle?
    ensures Enabled(s, StartWrite(data))
  {
    ReadableIsCount(s, k);
    var count := Least(|data|, |s.slots| - Readable(s));
    hide Readable;
    assert Step(s, StartWrite(data), s.(writer := Writing(data[..count], 0)));
  }

  lemma ReaderStarts<T(!new)>(s: State<T>, k: nat, elementCount: nat)
    requires Inv(s, k) && s.reader.ReaderIdle?
    ensures Enabled(s, StartRead(elementCount))
  {
    ReadableIsCount(s, k);
    var count := Least(elementCount, Readable(s));
    hide Readable;
    assert Step(s, StartRead(elementCount), s.(reader := Reading(count, [])));
  }

  /**
   The guards on counts and slots in Step never fail: a thread in the middle of a
   transfer can always go on, and an idle thread can start any transfer.
   */
  lemma NoThreadIsStuck<T(!new)>(s: State<T>, k: nat)
    requires Inv(s, k)
    ensures s.writer.Writing? ==> Enabled(s, StoreElement) || Enabled(s, AdvanceWrite)
    ensures s.reader.Reading? ==> Enabled(s, LoadElement) || Enabled(s, AdvanceRead)
    ensures s.writer.WriterIdle? ==> forall data :: Enabled(s, StartWrite(data))
    ensures s.reader.ReaderIdle? ==> forall elementCount :: Enabled(s, StartRead(elementCount))
  {
    hide *;
    if s.writer.Writing? {
      WriterGoesOn(s, k);
    } else {
      forall data ensures Enabled(s, StartWrite(data)) { WriterStarts(s, k, data); }
    }
    if s.reader.Reading? {
      ReaderGoesOn(s, k);
    } else {
      forall elementCount ensures Enabled(s, StartRead(elementCount)) {
        ReaderStarts(s, k, elementCount);
      }
    }
  }
}
