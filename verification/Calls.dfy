/**
 What the user's stream callback is told and what it answers. The callback is an
 arbitrary function of everything it has been told so far, so it may keep any
 state of its own.
 */
module Calls {
  import opened Arithmetic

  datatype CallbackResult = Continue | Complete | Abort

  /** Frame i of the user output buffer is output(i). */
  datatype Reply<!T> = Reply(output: nat -> T, result: CallbackResult)

  datatype Call<T> = Call(input: seq<T>, frames: nat, adc: real, dac: real)

  type Callback<!T> = seq<Call<T>> -> Reply<T>

  function Zeros<T>(zero: T, k: nat): (r: seq<T>)
    ensures |r| == k
    ensures forall i :: 0 <= i < k ==> r[i] == zero
  {
    seq(k, _ => zero)
  }

  /** The value the callback returned last; a new stream continues. */
  function LastResult<T>(cb: Callback<T>, log: seq<Call<T>>): CallbackResult {
    if log == [] then Continue else cb(log).result
  }

  function Stopped<T>(cb: Callback<T>, log: seq<Call<T>>): bool {
    LastResult(cb, log) != Continue
  }

  /** All user input so far, in the order it was presented. */
  function Presented<T>(log: seq<Call<T>>): seq<T> {
    if log == [] then [] else Presented(log[..|log| - 1]) + log[|log| - 1].input
  }

  /** The frames the latest call left in the user output buffer; an abort discards them. */
  function Answer<T>(cb: Callback<T>, log: seq<Call<T>>): seq<T>
    requires log != []
  {
    if cb(log).result == Abort then [] else seq(log[|log| - 1].frames, cb(log).output)
  }

  /** All user output so far that was not discarded. */
  function Produced<T>(cb: Callback<T>, log: seq<Call<T>>): seq<T> {
    if log == [] then [] else Produced(cb, log[..|log| - 1]) + Answer(cb, log)
  }

  /** The callback is never called again after it has answered complete or abort. */
  ghost predicate OnlyLastStops<T>(cb: Callback<T>, log: seq<Call<T>>) {
    forall j :: 0 <= j < |log| ==> !Stopped(cb, log[..j])
  }

  /** Every call presented and asked for exactly n frames. */
  ghost predicate FullCalls<T>(log: seq<Call<T>>, n: nat) {
    forall j :: 0 <= j < |log| ==> |log[j].input| == log[j].frames == n
  }

  lemma {:induction false} PresentedLength<T>(log: seq<Call<T>>, n: nat)
    requires FullCalls(log, n)
    ensures |Presented(log)| == |log| * n
  {
    if log != [] {
      PresentedLength(log[..|log| - 1], n);
      Distribute(|log|, 1, n);
    }
  }

  /** While no call aborts, as many frames are produced as are presented. */
  lemma {:induction false} ProducedLength<T>(cb: Callback<T>, log: seq<Call<T>>, n: nat)
    requires FullCalls(log, n) && OnlyLastStops(cb, log) && LastResult(cb, log) != Abort
    ensures |Produced(cb, log)| == |Presented(log)|
  {
    if log != [] {
      var before := log[..|log| - 1];
      assert !Stopped(cb, before);
      forall j | 0 <= j < |before| ensures !Stopped(cb, before[..j]) {
        assert before[..j] == log[..j];
      }
      ProducedLength(cb, before, n);
    }
  }

  /** A callback that returns its input, whenever that has as many frames as are asked for, and never stops. */
  ghost predicate Echoes<T(!new)>(cb: Callback<T>) {
    forall log: seq<Call<T>> :: log != [] && |log[|log| - 1].input| == log[|log| - 1].frames ==>
      cb(log).result == Continue && Answer(cb, log) == log[|log| - 1].input
  }

  /** Frame i of the latest input. */
  function LatestInput<T>(log: seq<Call<T>>, zero: T, i: nat): T {
    if log != [] && i < |log[|log| - 1].input| then log[|log| - 1].input[i] else zero
  }

  function EchoCallback<T>(zero: T): Callback<T> {
    (log: seq<Call<T>>) => Reply((i: nat) => LatestInput(log, zero, i), Continue)
  }

  /** There is such a callback. */
  lemma EchoExists<T(!new)>(zero: T)
    ensures Echoes(EchoCallback(zero))
  {
    var cb := EchoCallback(zero);
    forall log: seq<Call<T>> | log != [] && |log[|log| - 1].input| == log[|log| - 1].frames
      ensures cb(log).result == Continue && Answer(cb, log) == log[|log| - 1].input
    {
      assert forall i :: 0 <= i < log[|log| - 1].frames ==> Answer(cb, log)[i] == log[|log| - 1].input[i];
    }
  }

  lemma {:induction false} EchoProducesInput<T(!new)>(cb: Callback<T>, log: seq<Call<T>>, n: nat)
    requires Echoes(cb) && FullCalls(log, n)
    ensures Produced(cb, log) == Presented(log) && !Stopped(cb, log)
  {
    if log != [] {
      EchoProducesInput(cb, log[..|log| - 1], n);
      assert Answer(cb, log) == log[|log| - 1].input;
    }
  }

  lemma OneMoreCall<T>(cb: Callback<T>, log: seq<Call<T>>, call: Call<T>)
    requires OnlyLastStops(cb, log) && !Stopped(cb, log)
    ensures (log + [call])[..|log|] == log
    ensures Presented(log + [call]) == Presented(log) + call.input
    ensures Produced(cb, log + [call]) == Produced(cb, log) + Answer(cb, log + [call])
    ensures OnlyLastStops(cb, log + [call])
  {
    var next := log + [call];
    assert next[..|log|] == log;
    forall j | 0 <= j < |next| ensures !Stopped(cb, next[..j]) {
      assert next[..j] == log[..j];
      assert log[..|log|] == log;
    }
  }

  function Duration(frames: int, period: real): real {
    frames as real * period
  }

  /** The time of the frame at `position`, when the frame at `start` has time `origin`. */
  ghost function TimeAt(origin: real, start: int, position: int, period: real): real {
    origin + Duration(position - start, period)
  }

  lemma TimeAdvances(origin: real, start: int, position: int, period: real, frames: nat)
    ensures TimeAt(origin, start, position, period) + Duration(frames, period)
      == TimeAt(origin, start, position + frames, period)
  {
  }

  /** A host block: its times, and where its first frames stand in the two streams. */
  datatype Block = Block(adc: real, dac: real, inputStart: int, outputStart: int)

  /**
   Call j carries the ADC time of the first frame it reads and the DAC time of the
   first frame it makes, where `prefill` output frames precede all user output.
   */
  ghost predicate StampOk<T>(cb: Callback<T>, log: seq<Call<T>>, j: nat, block: Block, prefill: nat, period: real)
    requires j < |log|
  {
    && log[j].adc == TimeAt(block.adc, block.inputStart, |Presented(log[..j])|, period)
    && log[j].dac == TimeAt(block.dac, block.outputStart, prefill + |Produced(cb, log[..j])|, period)
  }

  ghost predicate StampsOk<T>(cb: Callback<T>, log: seq<Call<T>>, from: nat, block: Block, prefill: nat, period: real) {
    forall j :: from <= j < |log| ==> StampOk(cb, log, j, block, prefill, period)
  }

  /** A call stamped with the current times keeps the stamps right. */
  lemma OneMoreStamp<T>(cb: Callback<T>, log: seq<Call<T>>, call: Call<T>, from: nat, block: Block, prefill: nat,
                        period: real)
    requires StampsOk(cb, log, from, block, prefill, period)
    requires call.adc == TimeAt(block.adc, block.inputStart, |Presented(log)|, period)
    requires call.dac == TimeAt(block.dac, block.outputStart, prefill + |Produced(cb, log)|, period)
    ensures StampsOk(cb, log + [call], from, block, prefill, period)
  {
    hide Presented, Produced, TimeAt;
    var next := log + [call];
    forall j | from <= j < |next| ensures StampOk(cb, next, j, block, prefill, period) {
      if j < |log| {
        assert next[..j] == log[..j] && StampOk(cb, log, j, block, prefill, period);
      } else {
        assert next[..j] == log;
      }
    }
  }

  /** The times after a call are those of the next frames, on the output side unless it aborted. */
  lemma TimesAfterCall<T>(cb: Callback<T>, log: seq<Call<T>>, call: Call<T>, block: Block, prefill: nat, period: real)
    requires OnlyLastStops(cb, log) && !Stopped(cb, log) && |call.input| == call.frames
    requires call.adc == TimeAt(block.adc, block.inputStart, |Presented(log)|, period)
    requires call.dac == TimeAt(block.dac, block.outputStart, prefill + |Produced(cb, log)|, period)
    ensures call.adc + Duration(call.frames, period)
         == TimeAt(block.adc, block.inputStart, |Presented(log + [call])|, period)
    ensures LastResult(cb, log + [call]) != Abort ==>
      call.dac + Duration(call.frames, period)
      == TimeAt(block.dac, block.outputStart, prefill + |Produced(cb, log + [call])|, period)
  {
    hide TimeAt, Duration, Presented, Produced, OnlyLastStops;
    OneMoreCall(cb, log, call);
    TimeAdvances(block.adc, block.inputStart, |Presented(log)|, period, call.frames);
    TimeAdvances(block.dac, block.outputStart, prefill + |Produced(cb, log)|, period, call.frames);
  }

  /** The calls from `from` on carry the ADC time of the first frame they read. */
  ghost predicate InputStamps<T>(log: seq<Call<T>>, from: nat, block: Block, period: real) {
    forall j :: from <= j < |log| ==>
      log[j].adc == TimeAt(block.adc, block.inputStart, |Presented(log[..j])|, period)
  }

  /** The calls from `from` on carry the DAC time of the first frame they make. */
  ghost predicate OutputStamps<T>(cb: Callback<T>, log: seq<Call<T>>, from: nat, block: Block, period: real) {
    forall j :: from <= j < |log| ==>
      log[j].dac == TimeAt(block.dac, block.outputStart, |Produced(cb, log[..j])|, period)
  }

  /** One more call with the right ADC time, and the time after it. */
  lemma InputStampAfter<T>(cb: Callback<T>, log: seq<Call<T>>, call: Call<T>, from: nat, block: Block, period: real)
    requires OnlyLastStops(cb, log) && !Stopped(cb, log) && InputStamps(log, from, block, period)
    requires call.adc == TimeAt(block.adc, block.inputStart, |Presented(log)|, period)
    ensures InputStamps(log + [call], from, block, period)
    ensures call.adc + Duration(|call.input|, period)
         == TimeAt(block.adc, block.inputStart, |Presented(log + [call])|, period)
  {
    hide TimeAt, Duration, Presented, Produced, OnlyLastStops;
    OneMoreCall(cb, log, call);
    TimeAdvances(block.adc, block.inputStart, |Presented(log)|, period, |call.input|);
    var next := log + [call];
    forall j | from <= j < |next|
      ensures next[j].adc == TimeAt(block.adc, block.inputStart, |Presented(next[..j])|, period)
    {
      if j < |log| { assert next[..j] == log[..j] && next[j] == log[j]; }
    }
  }

  /** One more call with the right DAC time, and the time after it unless it aborts. */
  lemma OutputStampAfter<T>(cb: Callback<T>, log: seq<Call<T>>, call: Call<T>, from: nat, block: Block, period: real)
    requires OnlyLastStops(cb, log) && !Stopped(cb, log) && OutputStamps(cb, log, from, block, period)
    requires call.dac == TimeAt(block.dac, block.outputStart, |Produced(cb, log)|, period)
    ensures OutputStamps(cb, log + [call], from, block, period)
    ensures LastResult(cb, log + [call]) != Abort ==>
      call.dac + Duration(call.frames, period)
      == TimeAt(block.dac, block.outputStart, |Produced(cb, log + [call])|, period)
  {
    hide TimeAt, Duration, Presented, Produced, OnlyLastStops;
    OneMoreCall(cb, log, call);
    TimeAdvances(block.dac, block.outputStart, |Produced(cb, log)|, period, call.frames);
    var next := log + [call];
    forall j | from <= j < |next|
      ensures next[j].dac == TimeAt(block.dac, block.outputStart, |Produced(cb, next[..j])|, period)
    {
      if j < |log| { assert next[..j] == log[..j] && next[j] == log[j]; }
    }
  }

  lemma TimeAtIs(origin: real, start: int, position: int, period: real)
    ensures TimeAt(origin, start, position, period) == origin + (position - start) as real * period
  {
  }

  /** The ADC times of the calls in seconds. */
  lemma InputSeconds<T>(log: seq<Call<T>>, from: nat, block: Block, period: real)
    requires InputStamps(log, from, block, period)
    ensures forall j :: from <= j < |log| ==>
      log[j].adc == block.adc + (|Presented(log[..j])| - block.inputStart) as real * period
  {
    hide Presented, TimeAt;
    forall j | from <= j < |log|
      ensures log[j].adc == block.adc + (|Presented(log[..j])| - block.inputStart) as real * period
    {
      TimeAtIs(block.adc, block.inputStart, |Presented(log[..j])|, period);
    }
  }

  /** The DAC times of the calls in seconds. */
  lemma OutputSeconds<T>(cb: Callback<T>, log: seq<Call<T>>, from: nat, block: Block, period: real)
    requires OutputStamps(cb, log, from, block, period)
    ensures forall j :: from <= j < |log| ==>
      log[j].dac == block.dac + (|Produced(cb, log[..j])| - block.outputStart) as real * period
  {
    hide Produced, TimeAt;
    forall j | from <= j < |log|
      ensures log[j].dac == block.dac + (|Produced(cb, log[..j])| - block.outputStart) as real * period
    {
      TimeAtIs(block.dac, block.outputStart, |Produced(cb, log[..j])|, period);
    }
  }

  lemma TimeDifference(block: Block, position: nat, prefill: nat, period: real)
    ensures TimeAt(block.dac, block.outputStart, prefill + position, period)
          - TimeAt(block.adc, block.inputStart, position, period)
         == block.dac - block.adc + (prefill + block.inputStart - block.outputStart) as real * period
  {
    var a, b := (prefill + position - block.outputStart) as real, (position - block.inputStart) as real;
    assert a * period - b * period == (a - b) * period;
  }

  /** How many frames the calls from `from` on asked for. */
  function FramesAsked<T>(log: seq<Call<T>>, from: nat): nat {
    if |log| <= from then 0 else FramesAsked(log[..|log| - 1], from) + log[|log| - 1].frames
  }

  /** Each call from `from` on asked for `size` frames, or for what was left of `total` when that was less. */
  ghost predicate Chunked<T>(log: seq<Call<T>>, from: nat, size: nat, total: nat) {
    forall j :: from <= j < |log| ==>
      var left := total - FramesAsked(log[..j], from);
      log[j].frames == if left < size then left else size
  }

  lemma OneMoreChunk<T>(log: seq<Call<T>>, call: Call<T>, from: nat, size: nat, total: nat)
    requires from <= |log| && Chunked(log, from, size, total)
    requires var left := total - FramesAsked(log, from);
      call.frames == if left < size then left else size
    ensures Chunked(log + [call], from, size, total)
    ensures FramesAsked(log + [call], from) == FramesAsked(log, from) + call.frames
  {
    var next := log + [call];
    assert next[..|log|] == log;
    forall j | from <= j < |log|
      ensures var left := total - FramesAsked(next[..j], from);
        next[j].frames == if left < size then left else size
    {
      assert next[..j] == log[..j];
    }
  }

  lemma DurationIs(frames: int, period: real)
    ensures Duration(frames, period) == frames as real * period
  {
  }

  /** While calls are full and none has stopped, as many frames are made as are read: n for each call. */
  lemma PositionsAt<T>(cb: Callback<T>, log: seq<Call<T>>, j: nat, n: nat)
    requires j < |log| && FullCalls(log, n) && OnlyLastStops(cb, log)
    ensures |Presented(log[..j])| == |Produced(cb, log[..j])| == j * n
  {
    var before := log[..j];
    assert !Stopped(cb, before);
    forall i | 0 <= i < |before| ensures !Stopped(cb, before[..i]) {
      assert before[..i] == log[..i];
    }
    ProducedLength(cb, before, n);
    PresentedLength(before, n);
  }

  /** The times of call j in seconds: n frames for each call before it. */
  lemma StampTimes<T>(cb: Callback<T>, log: seq<Call<T>>, j: nat, n: nat, block: Block, prefill: nat, period: real)
    requires j < |log| && FullCalls(log, n) && OnlyLastStops(cb, log)
    requires StampOk(cb, log, j, block, prefill, period)
    ensures log[j].adc == block.adc + (j * n - block.inputStart) as real * period
    ensures log[j].dac == block.dac + (prefill + j * n - block.outputStart) as real * period
  {
    hide Presented, Produced, FullCalls, OnlyLastStops, TimeAt;
    PositionsAt(cb, log, j, n);
    TimeAtIs(block.adc, block.inputStart, j * n, period);
    TimeAtIs(block.dac, block.outputStart, prefill + j * n, period);
  }

  /**
   In every call, output leaves later than input arrived by what the host's own
   times say plus the total prefill, here counted from the two stream positions.
   */
  lemma DelayIsPrefill<T>(cb: Callback<T>, log: seq<Call<T>>, j: nat, n: nat, block: Block, prefill: nat, period: real)
    requires j < |log| && FullCalls(log, n) && OnlyLastStops(cb, log)
    requires StampOk(cb, log, j, block, prefill, period)
    ensures log[j].dac - log[j].adc
         == block.dac - block.adc + (prefill + block.inputStart - block.outputStart) as real * period
  {
    hide Presented, Produced, FullCalls, OnlyLastStops, TimeAt, Duration;
    PositionsAt(cb, log, j, n);
    TimeDifference(block, j * n, prefill, period);
  }
}
