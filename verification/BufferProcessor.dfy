/**
 The buffer processor: it matches the host's blocks to the user callback's
 blocks. A frame is an opaque value, and sample conversion is the identity.
 */
module BufferProcessing {
  import opened Arithmetic
  import opened Calls
  import opened FrameShift
  import opened Adaptation
  import opened Sequences

  datatype HostBufferSizeMode = FixedSize | BoundedSize | UnknownSize

  /** The size of the temporary buffers when neither side fixes one. */
  const FRAMES_PER_TEMP_BUFFER_WHEN_HOST_BUFFER_SIZE_IS_UNKNOWN: nat := 1024

  datatype Setup = Setup(nonAdapting: bool, framesPerTempBuffer: nat, inputPrefill: nat, outputPrefill: nat)

  /** What CalculateFrameShift needs to find N - gcd(M, N); it is enough that the product fits. */
  ghost predicate ShiftIsFound(m: nat, n: nat, range: nat) {
    m * n < range || (0 < m < range && 0 < n < range && ShiftFits(m, n, range))
  }

  /**
   Which mode is chosen: no adaptation when the callback takes any length or a
   fixed host block is a whole number of user blocks. A full-duplex adapting stream
   gets the frame shift as prefill when the host's block length is fixed, a whole
   user block when it is not, and other streams get none.
   */
  ghost predicate IsChoice(duplex: bool, n: nat, m: nat, mode: HostBufferSizeMode, range: nat, s: Setup) {
    && (s.nonAdapting <==> (n == 0 || (mode == FixedSize && m % n == 0)))
    && (n > 0 ==> s.framesPerTempBuffer == n)
    && (n == 0 && mode == UnknownSize ==>
          s.framesPerTempBuffer == 1024)
    && (n == 0 && mode != UnknownSize ==> s.framesPerTempBuffer == m)
    && (s.nonAdapting || !duplex ==> s.inputPrefill == s.outputPrefill == 0)
    && (!s.nonAdapting && duplex && mode != FixedSize ==> s.inputPrefill == 0 && s.outputPrefill == n)
    && (!s.nonAdapting && duplex && mode == FixedSize ==>
          && (if n > m then s.outputPrefill == 0 else s.inputPrefill == 0)
          && (0 < m < range && n < range ==> LargestResidue(m, n, range, s.inputPrefill + s.outputPrefill))
          && (ShiftIsFound(m, n, range) ==> s.inputPrefill + s.outputPrefill == n - Gcd(m, n)))
  }

  /** The branches of PaUtil_InitializeBufferProcessor that choose the mode and the prefill. */
  method ChooseSetup(hasInput: bool, hasOutput: bool, framesPerUserBuffer: nat, framesPerHostBuffer: nat,
                     hostBufferSizeMode: HostBufferSizeMode, range: nat) returns (s: Setup)
    requires framesPerUserBuffer < range && framesPerHostBuffer < range
    ensures IsChoice(hasInput && hasOutput, framesPerUserBuffer, framesPerHostBuffer, hostBufferSizeMode, range, s)
  {
    if framesPerUserBuffer == 0 {
      if hostBufferSizeMode == FixedSize || hostBufferSizeMode == BoundedSize {
        s := Setup(true, framesPerHostBuffer, 0, 0);
      } else {
        s := Setup(true, FRAMES_PER_TEMP_BUFFER_WHEN_HOST_BUFFER_SIZE_IS_UNKNOWN, 0, 0);
      }
    } else if hostBufferSizeMode == FixedSize && framesPerHostBuffer % framesPerUserBuffer == 0 {
      s := Setup(true, framesPerUserBuffer, 0, 0);
    } else if hasInput && hasOutput {
      if hostBufferSizeMode == FixedSize {
        var frameShift := CalculateFrameShift(framesPerHostBuffer, framesPerUserBuffer, range);
        if framesPerUserBuffer > framesPerHostBuffer {
          s := Setup(false, framesPerUserBuffer, frameShift, 0);
        } else {
          s := Setup(false, framesPerUserBuffer, 0, frameShift);
        }
      } else {
        s := Setup(false, framesPerUserBuffer, 0, framesPerUserBuffer);
      }
    } else {
      s := Setup(false, framesPerUserBuffer, 0, 0);
    }
  }

  lemma EchoShift<T>(zero: T, inputPrefill: nat, outputPrefill: nat, stream: seq<T>, presented: seq<T>, played: seq<T>)
    requires inputPrefill <= |stream| && stream[..inputPrefill] == Zeros(zero, inputPrefill)
    requires presented <= stream && played <= Zeros(zero, outputPrefill) + presented
    requires |played| == |stream| - inputPrefill
    ensures played <= Zeros(zero, inputPrefill + outputPrefill) + stream[inputPrefill..]
  {
    var delayed := Zeros(zero, inputPrefill + outputPrefill) + stream[inputPrefill..];
    forall i | 0 <= i < |played| ensures played[i] == delayed[i] {
      if i >= outputPrefill {
        assert played[i] == presented[i - outputPrefill] == stream[i - outputPrefill];
        if i - outputPrefill < inputPrefill {
          assert stream[i - outputPrefill] == stream[..inputPrefill][i - outputPrefill];
        }
      }
    }
  }

  /** A positive multiple. */
  predicate Whole(frames: nat, n: nat)
    requires n > 0
  {
    frames > 0 && frames % n == 0
  }

  lemma WholeChunk(frames: nat, n: nat)
    requires n > 0 && Whole(frames, n)
    ensures frames >= n && (frames > n ==> Whole(frames - n, n))
  {
    Distribute(frames / n, 1, n);
    MulSign(frames / n - 1, n);
    RemainderUnique(frames - n, n, frames / n - 1, 0);
  }

  lemma SameResidue(before: nat, input: nat, frames: nat, base: nat, fill: nat, n: nat)
    requires fill < n && before % n == 0 && base % n == 0 && before + input + frames == base + fill
    ensures (input + frames) % n == fill
  {
    var a, b := before / n, base / n;
    Distribute(b, a, n);
    RemainderUnique(input + frames, n, b - a, fill);
  }

  lemma FillIsResidue(base: nat, fill: nat, n: nat)
    requires fill < n && base % n == 0
    ensures (base + fill) % n == fill
  {
    RemainderUnique(base + fill, n, base / n, fill);
  }

  lemma SplitAt<T>(stream: seq<T>, base: nat, gathered: seq<T>, rest: seq<T>)
    requires base <= |stream| && stream[base..] == gathered + rest
    ensures |stream| == base + |gathered| + |rest|
    ensures stream[base + |gathered|..] == rest
    ensures stream[..base + |gathered|] == stream[..base] + gathered
  {
    var next := base + |gathered|;
    assert stream[next..] == stream[base..][|gathered|..];
    assert stream[..next] == stream[..base] + stream[base..][..|gathered|];
  }

  /** Playing what was pending and then silence keeps the output line. */
  lemma AddSilence<T>(played: seq<T>, written: seq<T>, line: seq<T>, zero: T, silence: nat, more: nat)
    requires played + (written + []) == line + Zeros(zero, silence)
    ensures played + ((written + Zeros(zero, more)) + []) == line + Zeros(zero, silence + more)
  {
    var a := played + ((written + Zeros(zero, more)) + []);
    assert a == (played + (written + [])) + Zeros(zero, more);
    assert Zeros(zero, silence) + Zeros(zero, more) == Zeros(zero, silence + more);
    Regroup(line, Zeros(zero, silence), Zeros(zero, more));
  }

  lemma AddAnswer<T>(played: seq<T>, written: seq<T>, prefill: seq<T>, produced: seq<T>, answer: seq<T>)
    requires played + (written + []) == (prefill + produced) + []
    ensures played + (written + answer) == (prefill + (produced + answer)) + []
  {
    assert played + (written + answer) == (played + (written + [])) + answer;
    assert (prefill + (produced + answer)) + [] == ((prefill + produced) + []) + answer;
  }

  /** The times of the first frames still in the temporary buffers. */
  lemma StartTimes(adc: real, inputStart: int, inputLeft: int, dac: real, outputStart: int, outputLeft: int,
                   period: real)
    ensures TimeAt(adc, inputStart, inputStart - inputLeft, period) == adc - Duration(inputLeft, period)
    ensures TimeAt(dac, outputStart, outputStart + outputLeft, period) == dac + Duration(outputLeft, period)
  {
  }

  /** A whole number of user blocks. */
  predicate Aligned(frames: nat, n: nat) {
    n > 0 && frames % n == 0
  }

  lemma NextBase(base: nat, n: nat)
    requires Aligned(base, n)
    ensures Aligned(base + n, n)
  {
    Distribute(base / n, 1, n);
    RemainderUnique(base + n, n, base / n + 1, 0);
  }

  function Min(a: nat, b: nat): nat { if a < b then a else b }

  lemma LaterBy(x: int, n: int, period: real)
    ensures (x + n) as real * period - x as real * period == n as real * period
  {
  }

  class BufferProcessor<T(==,!new)> {
    const framesPerUserBuffer: nat
    const framesPerHostBuffer: nat
    const hostBufferSizeMode: HostBufferSizeMode
    const hasInput: bool
    const hasOutput: bool
    const useNonAdaptingProcess: bool
    const framesPerTempBuffer: nat
    const callback: Callback<T>
    const zero: T
    const samplePeriod: real
    const initialFramesInTempInputBuffer: nat
    const initialFramesInTempOutputBuffer: nat
    const tempInputBuffer: array<T>
    const tempOutputBuffer: array<T>

    var framesInTempInputBuffer: nat
    var framesInTempOutputBuffer: nat
    var inputBufferAdcTime: real
    var outputBufferDacTime: real
    var streamCallbackResult: CallbackResult
    // What is left of the two host input buffers.
    var hostInput0: seq<T>
    var hostInput1: seq<T>
    // What was written to the two host output buffers, and the room left in them.
    var hostOutput0: seq<T>
    var hostOutput1: seq<T>
    var hostOutputFrameCount0: nat
    var hostOutputFrameCount1: nat
    // The calls made to the user callback.
    var log: seq<Call<T>>

    // History: all input so far (with the input prefill), how much of it has left
    // the temporary input buffer, all output of the earlier blocks, the number of
    // zero frames played because the callback had stopped, and the number of output
    // frames that earlier blocks left unfilled.
    ghost var stream: seq<T>
    ghost var base: nat
    ghost var playedBefore: seq<T>
    ghost var silence: nat
    ghost var gap: nat
    // The block being processed, and the number of calls before it.
    ghost var block: Block
    ghost var callsBefore: nat

    ghost predicate Duplex() { !useNonAdaptingProcess && hasInput && hasOutput }

    function Written(): seq<T> reads this`hostOutput0, this`hostOutput1 { hostOutput0 + hostOutput1 }

    /** All output handed to the host so far. */
    ghost function Played(): seq<T>
      reads this`playedBefore, this`hostOutput0, this`hostOutput1
    {
      playedBefore + Written()
    }

    function Room(): nat
      reads this`hostOutputFrameCount0, this`hostOutputFrameCount1
    {
      hostOutputFrameCount0 + hostOutputFrameCount1
    }

    function HostInput(): seq<T> reads this`hostInput0, this`hostInput1 { hostInput0 + hostInput1 }

    ghost predicate Shape()
      reads this`framesInTempInputBuffer, this`framesInTempOutputBuffer, this`hostOutputFrameCount0, this`hostOutput1
    {
      && framesPerUserBuffer > 0
      && tempInputBuffer != tempOutputBuffer
      && tempInputBuffer.Length == tempOutputBuffer.Length == framesPerUserBuffer
      && framesInTempInputBuffer <= framesPerUserBuffer
      && framesInTempOutputBuffer <= framesPerUserBuffer
      && (hostOutputFrameCount0 > 0 ==> hostOutput1 == [])
    }

    ghost predicate LogLine() reads this`log, this`streamCallbackResult {
      OnlyLastStops(callback, log) && streamCallbackResult == LastResult(callback, log)
    }

    function Gathered(): seq<T>
      requires framesInTempInputBuffer <= tempInputBuffer.Length
      reads this`framesInTempInputBuffer, tempInputBuffer
    {
      tempInputBuffer[..framesInTempInputBuffer]
    }

    ghost predicate HasStopped() reads this`log { Stopped(callback, log) }

    /** Input is presented in order, with nothing lost before the callback stops. */
    ghost predicate InputLine()
      reads this`framesInTempInputBuffer, this`hostInput0, this`hostInput1, this`log, this`stream, this`base,
            tempInputBuffer
    {
      && framesInTempInputBuffer <= tempInputBuffer.Length
      && base <= |stream|
      && stream[base..] == Gathered() + HostInput()
      && |Presented(log)| <= base
      && Presented(log) == stream[..|Presented(log)|]
      && (!HasStopped() ==> |Presented(log)| == base)
    }

    /** User output not yet handed to the host: the tail of the temporary buffer. */
    function Pending(): seq<T>
      requires framesInTempOutputBuffer <= tempOutputBuffer.Length
      reads this`framesInTempOutputBuffer, tempOutputBuffer
    {
      tempOutputBuffer[tempOutputBuffer.Length - framesInTempOutputBuffer..]
    }

    /** The output prefill followed by all user output. */
    ghost function Line(calls: seq<Call<T>>): seq<T> {
      Zeros(zero, initialFramesInTempOutputBuffer) + Produced(callback, calls)
    }

    /** Output reaches the host in order, with silence only once nothing else is left. */
    ghost predicate OutputLine()
      reads this`framesInTempOutputBuffer, this`hostOutput0, this`hostOutput1, this`log, this`playedBefore,
            this`silence, tempOutputBuffer
    {
      && framesInTempOutputBuffer <= tempOutputBuffer.Length
      && playedBefore + (Written() + Pending()) == Line(log) + Zeros(zero, silence)
      && (silence > 0 ==> framesInTempOutputBuffer == 0 && HasStopped())
    }

    /** Without full-duplex adaptation: each call of this block has the ADC time of the first frame it reads. */
    ghost predicate InTimes() reads this`log, this`block, this`callsBefore, this`inputBufferAdcTime {
      && callsBefore <= |log| && InputStamps(log, callsBefore, block, samplePeriod)
      && (!useNonAdaptingProcess && !hasOutput ==> forall j :: callsBefore <= j < |log| ==> log[j].dac == 0.0)
      && (!HasStopped() ==>
            inputBufferAdcTime == TimeAt(block.adc, block.inputStart, |Presented(log)|, samplePeriod))
    }

    /** Without full-duplex adaptation: each call of this block has the DAC time of the first frame it makes. */
    ghost predicate OutTimes() reads this`log, this`block, this`callsBefore, this`outputBufferDacTime {
      && callsBefore <= |log| && OutputStamps(callback, log, callsBefore, block, samplePeriod)
      && (!useNonAdaptingProcess && !hasInput ==> forall j :: callsBefore <= j < |log| ==>
            log[j].adc == 0.0 && log[j].frames == framesPerUserBuffer && log[j].input == [])
      && (!HasStopped() ==>
            outputBufferDacTime == TimeAt(block.dac, block.outputStart, |Produced(callback, log)|, samplePeriod))
    }

    /** Without adaptation both times advance together, also the one that belongs to no direction of the stream. */
    ghost predicate Together()
      reads this`log, this`block, this`callsBefore, this`inputBufferAdcTime, this`outputBufferDacTime
    {
      && outputBufferDacTime - inputBufferAdcTime == block.dac - block.adc
      && forall j :: callsBefore <= j < |log| ==> log[j].dac - log[j].adc == block.dac - block.adc
    }

    ghost predicate Times()
      reads this`log, this`block, this`callsBefore, this`inputBufferAdcTime, this`outputBufferDacTime
    {
      (hasInput ==> InTimes()) && (hasOutput ==> OutTimes()) && (useNonAdaptingProcess ==> Together())
    }

    ghost predicate Unbuffered()
      reads this`framesInTempInputBuffer, this`framesInTempOutputBuffer, this`log, this`streamCallbackResult
    {
      && useNonAdaptingProcess && framesPerTempBuffer > 0
      && framesInTempInputBuffer == framesInTempOutputBuffer == 0 && LogLine()
    }

    /** A stream without adaptation between two calls. */
    ghost predicate NonAdapting()
      reads this`framesInTempInputBuffer, this`framesInTempOutputBuffer, this`log, this`streamCallbackResult,
            this`block, this`callsBefore, this`inputBufferAdcTime, this`outputBufferDacTime
    {
      Unbuffered() && Times()
    }

    /** What every mode keeps from block to block. */
    ghost predicate Between() reads this, tempInputBuffer, tempOutputBuffer {
      && LogLine() && (hasInput ==> InputLine()) && (hasOutput ==> OutputLine())
      && (useNonAdaptingProcess ==> NonAdapting())
      && (!useNonAdaptingProcess ==> Shape()) && (!Duplex() ==> Times())
      && (!useNonAdaptingProcess && hasInput ==>
            && FullCalls(log, framesPerUserBuffer)
            && Aligned(base, framesPerUserBuffer) && framesInTempInputBuffer < framesPerUserBuffer)
    }

    /** Every mode but full-duplex adaptation; none of them has a prefill. */
    ghost predicate OtherMode() {
      (hasInput || hasOutput) && !Duplex() && initialFramesInTempInputBuffer == initialFramesInTempOutputBuffer == 0
    }

    /**
     The invariant of every other stream between host blocks: half-duplex streams,
     and full-duplex streams without adaptation. None of them has a prefill.
     */
    ghost predicate Running() reads this, tempInputBuffer, tempOutputBuffer {
      && OtherMode() && Between()
      && (hasInput ==> HostInput() == []) && (hasOutput ==> Room() == 0)
      && (hasInput && hasOutput ==> |Played()| == |stream|)
    }

    /** A new stream of any other kind satisfies its invariant. */
    lemma FreshOtherStream(range: nat)
      requires IsChoice(hasInput && hasOutput, framesPerUserBuffer, framesPerHostBuffer, hostBufferSizeMode, range,
                        Setup(useNonAdaptingProcess, framesPerTempBuffer, initialFramesInTempInputBuffer,
                              initialFramesInTempOutputBuffer))
      requires !Duplex() && (hasInput || hasOutput) && framesPerTempBuffer > 0
      requires tempInputBuffer != tempOutputBuffer
      requires tempInputBuffer.Length == tempOutputBuffer.Length == framesPerTempBuffer
      requires framesInTempInputBuffer == initialFramesInTempInputBuffer
      requires framesInTempOutputBuffer == initialFramesInTempOutputBuffer
      requires hostInput0 == hostInput1 == hostOutput0 == hostOutput1 == [] && Room() == 0
      requires streamCallbackResult == Continue && log == []
      requires stream == Zeros(zero, initialFramesInTempInputBuffer) && base == 0
      requires playedBefore == [] && silence == gap == 0
      requires callsBefore == 0 && block == Block(0.0, 0.0, 0, 0) && inputBufferAdcTime == outputBufferDacTime == 0.0
      ensures Running()
    {
      assert Zeros(zero, 0) == [] && Presented(log) == Produced(callback, log) == [];
      assert TimeAt(0.0, 0, 0, samplePeriod) == 0.0;
      if framesPerUserBuffer > 0 { RemainderUnique(0, framesPerUserBuffer, 0, 0); }
    }

    /** The output frames left unfilled so far. */
    ghost function Missing(): nat
      reads this`gap, this`hostOutputFrameCount0, this`hostOutputFrameCount1
    {
      gap + Room()
    }

    ghost function Prefill(): nat { initialFramesInTempInputBuffer + initialFramesInTempOutputBuffer }

    ghost function CommonUnit(): nat {
      Granule(hostBufferSizeMode == FixedSize, framesPerHostBuffer, framesPerUserBuffer)
    }

    /** The prefill that no run of acceptable host blocks can outrun. */
    ghost predicate Enough() {
      && framesPerUserBuffer > 0
      && framesPerUserBuffer - CommonUnit() <= Prefill() <= framesPerUserBuffer
      && (hostBufferSizeMode != FixedSize ==> Prefill() == framesPerUserBuffer)
      && initialFramesInTempInputBuffer < framesPerUserBuffer
      && initialFramesInTempInputBuffer % CommonUnit() == 0
    }

    /**
     The invariant of a full-duplex adapting stream between host blocks: the history
     of the whole run fixes the fill of both buffers and what was played.
     */
    ghost predicate Streaming() reads this, tempInputBuffer, tempOutputBuffer {
      && Shape() && Duplex() && Enough() && HostInput() == []
      && LogLine() && InputLine() && OutputLine() && FullCalls(log, framesPerUserBuffer)
      && Aligned(base, framesPerUserBuffer) && framesInTempInputBuffer < framesPerUserBuffer
      && |stream| % CommonUnit() == 0
      && initialFramesInTempInputBuffer <= |stream|
      && stream[..initialFramesInTempInputBuffer] == Zeros(zero, initialFramesInTempInputBuffer)
      && |Played()| + Missing() == |stream| - initialFramesInTempInputBuffer
      && (!HasStopped() || framesInTempOutputBuffer > 0 ==>
            framesInTempInputBuffer + framesInTempOutputBuffer == Prefill() && Missing() == 0)
      && (Missing() > 0 ==> Missing() == framesPerUserBuffer - Prefill() && streamCallbackResult == Abort)
    }

    /** A full-duplex adapting stream for which CalculateFrameShift, if it is needed, finds the frame shift. */
    ghost predicate PrefillIsFound(range: nat) {
      Duplex() && (hostBufferSizeMode == FixedSize ==> ShiftIsFound(framesPerHostBuffer, framesPerUserBuffer, range))
    }

    /** A new full-duplex adapting stream satisfies the invariant. */
    lemma FreshStream(range: nat)
      requires IsChoice(true, framesPerUserBuffer, framesPerHostBuffer, hostBufferSizeMode, range,
                        Setup(false, framesPerTempBuffer, initialFramesInTempInputBuffer,
                              initialFramesInTempOutputBuffer))
      requires PrefillIsFound(range)
      requires tempInputBuffer != tempOutputBuffer
      requires tempInputBuffer.Length == tempOutputBuffer.Length == framesPerTempBuffer
      requires forall i :: 0 <= i < framesPerTempBuffer ==> tempInputBuffer[i] == tempOutputBuffer[i] == zero
      requires framesInTempInputBuffer == initialFramesInTempInputBuffer
      requires framesInTempOutputBuffer == initialFramesInTempOutputBuffer
      requires hostInput0 == hostInput1 == hostOutput0 == hostOutput1 == [] && Room() == 0
      requires streamCallbackResult == Continue && log == []
      requires stream == Zeros(zero, initialFramesInTempInputBuffer) && base == 0
      requires playedBefore == [] && silence == gap == 0
      ensures Streaming()
    {
      GranuleDivides(hostBufferSizeMode == FixedSize, framesPerHostBuffer, framesPerUserBuffer);
      assert Gathered() == stream;
      assert Pending() == Zeros(zero, initialFramesInTempOutputBuffer);
    }

    /** A new buffer processor; `range` is one more than the largest unsigned long. */
    constructor (hasInput: bool, hasOutput: bool, framesPerUserBuffer: nat, framesPerHostBuffer: nat,
                 hostBufferSizeMode: HostBufferSizeMode, callback: Callback<T>, zero: T, samplePeriod: real,
                 range: nat)
      requires framesPerUserBuffer < range && framesPerHostBuffer < range
      ensures this.hasInput == hasInput && this.hasOutput == hasOutput
      ensures this.framesPerUserBuffer == framesPerUserBuffer && this.framesPerHostBuffer == framesPerHostBuffer
      ensures this.hostBufferSizeMode == hostBufferSizeMode && this.callback == callback && this.zero == zero
      ensures this.samplePeriod == samplePeriod
      ensures IsChoice(hasInput && hasOutput, framesPerUserBuffer, framesPerHostBuffer, hostBufferSizeMode, range,
                       Setup(useNonAdaptingProcess, framesPerTempBuffer, initialFramesInTempInputBuffer,
                             initialFramesInTempOutputBuffer))
      ensures fresh(tempInputBuffer) && fresh(tempOutputBuffer)
      ensures log == [] && Played() == [] && Missing() == 0
      ensures stream == Zeros(zero, initialFramesInTempInputBuffer)
      ensures PrefillIsFound(range) ==>
        Streaming()
      ensures !Duplex() && (hasInput || hasOutput) && framesPerTempBuffer > 0 ==> Running()
    {
      var setup := ChooseSetup(hasInput, hasOutput, framesPerUserBuffer, framesPerHostBuffer, hostBufferSizeMode,
                               range);
      this.hasInput, this.hasOutput := hasInput, hasOutput;
      this.framesPerUserBuffer, this.framesPerHostBuffer := framesPerUserBuffer, framesPerHostBuffer;
      this.hostBufferSizeMode, useNonAdaptingProcess := hostBufferSizeMode, setup.nonAdapting;
      this.callback, this.zero, this.samplePeriod := callback, zero, samplePeriod;
      framesPerTempBuffer := setup.framesPerTempBuffer;
      initialFramesInTempInputBuffer, initialFramesInTempOutputBuffer := setup.inputPrefill, setup.outputPrefill;
      framesInTempInputBuffer, framesInTempOutputBuffer := setup.inputPrefill, setup.outputPrefill;
      tempInputBuffer := new T[setup.framesPerTempBuffer](_ => zero);
      tempOutputBuffer := new T[setup.framesPerTempBuffer](_ => zero);
      inputBufferAdcTime, outputBufferDacTime := 0.0, 0.0;
      hostInput0, hostInput1, hostOutput0, hostOutput1 := [], [], [], [];
      hostOutputFrameCount0, hostOutputFrameCount1 := 0, 0;
      streamCallbackResult, log := Continue, [];
      stream, base, playedBefore, silence, gap := Zeros(zero, setup.inputPrefill), 0, [], 0, 0;
      block, callsBefore := Block(0.0, 0.0, 0, 0), 0;
      new;
      hide Streaming, Running, IsChoice;
      if PrefillIsFound(range) {
        FreshStream(range);
      }
      if !Duplex() && (hasInput || hasOutput) && framesPerTempBuffer > 0 {
        FreshOtherStream(range);
      }
    }

    /** What the adapting loop needs of a full-duplex stream between blocks, whatever its prefill. */
    ghost predicate Adapting() reads this, tempInputBuffer, tempOutputBuffer {
      && Shape() && Duplex() && HostInput() == []
      && LogLine() && InputLine() && OutputLine() && FullCalls(log, framesPerUserBuffer)
      && Aligned(base, framesPerUserBuffer) && framesInTempInputBuffer < framesPerUserBuffer
      && framesInTempInputBuffer + framesInTempOutputBuffer <= framesPerUserBuffer
    }

    /** A full-duplex adapting stream as it would be with any other prefill. */
    constructor WithPrefill (framesPerUserBuffer: nat, framesPerHostBuffer: nat, hostBufferSizeMode: HostBufferSizeMode,
                             callback: Callback<T>, zero: T, samplePeriod: real, inputPrefill: nat, outputPrefill: nat)
      requires inputPrefill < framesPerUserBuffer && inputPrefill + outputPrefill <= framesPerUserBuffer
      ensures this.framesPerUserBuffer == framesPerUserBuffer && this.framesPerHostBuffer == framesPerHostBuffer
      ensures this.callback == callback && this.zero == zero && this.samplePeriod == samplePeriod && log == []
      ensures framesInTempInputBuffer == inputPrefill && framesInTempOutputBuffer == outputPrefill
      ensures fresh(tempInputBuffer) && fresh(tempOutputBuffer)
      ensures Adapting()
    {
      hasInput, hasOutput, useNonAdaptingProcess := true, true, false;
      this.framesPerUserBuffer, this.framesPerHostBuffer := framesPerUserBuffer, framesPerHostBuffer;
      this.hostBufferSizeMode := hostBufferSizeMode;
      this.callback, this.zero, this.samplePeriod := callback, zero, samplePeriod;
      framesPerTempBuffer := framesPerUserBuffer;
      initialFramesInTempInputBuffer, initialFramesInTempOutputBuffer := inputPrefill, outputPrefill;
      framesInTempInputBuffer, framesInTempOutputBuffer := inputPrefill, outputPrefill;
      tempInputBuffer := new T[framesPerUserBuffer](_ => zero);
      tempOutputBuffer := new T[framesPerUserBuffer](_ => zero);
      inputBufferAdcTime, outputBufferDacTime := 0.0, 0.0;
      hostInput0, hostInput1, hostOutput0, hostOutput1 := [], [], [], [];
      hostOutputFrameCount0, hostOutputFrameCount1 := 0, 0;
      streamCallbackResult, log := Continue, [];
      stream, base, playedBefore, silence, gap := Zeros(zero, inputPrefill), 0, [], 0, 0;
      block, callsBefore := Block(0.0, 0.0, 0, 0), 0;
      new;
      RemainderUnique(0, framesPerUserBuffer, 0, 0);
      assert Gathered() == stream;
      assert Pending() == Zeros(zero, outputPrefill);
    }

    /** The sizes of the two host output buffers: what was written and what is left. */
    ghost function OutputSizes(): (nat, nat)
      reads this`hostOutput0, this`hostOutput1, this`hostOutputFrameCount0, this`hostOutputFrameCount1
    {
      (|hostOutput0| + hostOutputFrameCount0, |hostOutput1| + hostOutputFrameCount1)
    }

    function OutputPieceRoom(second: bool): nat reads this`hostOutputFrameCount0, this`hostOutputFrameCount1 {
      if second then hostOutputFrameCount1 else hostOutputFrameCount0
    }

    ghost predicate OutputTurn(second: bool) reads this`hostOutputFrameCount0, this`hostOutput1 {
      if second then hostOutputFrameCount0 == 0 else hostOutput1 == []
    }

    method PutOutput(second: bool, frames: seq<T>)
      requires |frames| <= OutputPieceRoom(second) && OutputTurn(second)
      modifies this`hostOutput0, this`hostOutput1, this`hostOutputFrameCount0, this`hostOutputFrameCount1
      ensures Written() == old(Written()) + frames && OutputTurn(second)
      ensures OutputPieceRoom(second) == old(OutputPieceRoom(second)) - |frames|
      ensures OutputPieceRoom(!second) == old(OutputPieceRoom(!second))
      ensures OutputSizes() == old(OutputSizes())
    {
      if second {
        hostOutput1, hostOutputFrameCount1 := hostOutput1 + frames, hostOutputFrameCount1 - |frames|;
      } else {
        hostOutput0, hostOutputFrameCount0 := hostOutput0 + frames, hostOutputFrameCount0 - |frames|;
      }
    }

    method DrainTempOutputBuffer(second: bool, frameCount: nat)
      requires Shape() && OutputLine() && OutputTurn(second)
      requires frameCount <= OutputPieceRoom(second) && frameCount <= framesInTempOutputBuffer
      modifies this`framesInTempOutputBuffer, this`hostOutput0, this`hostOutput1,
               this`hostOutputFrameCount0, this`hostOutputFrameCount1
      ensures Shape() && OutputLine() && OutputTurn(second)
      ensures framesInTempOutputBuffer == old(framesInTempOutputBuffer) - frameCount
      ensures OutputPieceRoom(second) == old(OutputPieceRoom(second)) - frameCount
      ensures OutputPieceRoom(!second) == old(OutputPieceRoom(!second))
      ensures OutputSizes() == old(OutputSizes())
    {
      hide Produced, OnlyLastStops;
      var first := framesPerUserBuffer - framesInTempOutputBuffer;
      var frames := tempOutputBuffer[first..first + frameCount];
      ghost var pending, written := Pending(), Written();
      PutOutput(second, frames);
      framesInTempOutputBuffer := framesInTempOutputBuffer - frameCount;
      assert pending == frames + Pending();
      Regroup(written, frames, Pending());
      assert silence == 0 || frameCount == 0;
    }

    /** Pending user output goes to the host until one of the two runs out. */
    method CopyTempOutputBuffersToHostOutputBuffers()
      requires Shape() && OutputLine()
      modifies this`framesInTempOutputBuffer, this`hostOutput0, this`hostOutput1,
               this`hostOutputFrameCount0, this`hostOutputFrameCount1
      ensures Shape() && OutputLine()
      ensures framesInTempOutputBuffer == 0 || Room() == 0
      ensures Room() - framesInTempOutputBuffer == old(Room() - framesInTempOutputBuffer)
      ensures OutputSizes() == old(OutputSizes())
    {
      hide OutputLine, OutputSizes;
      while framesInTempOutputBuffer > 0 && hostOutputFrameCount0 + hostOutputFrameCount1 > 0
        invariant Shape() && OutputLine()
        invariant Room() - framesInTempOutputBuffer == old(Room() - framesInTempOutputBuffer)
        invariant OutputSizes() == old(OutputSizes())
        decreases framesInTempOutputBuffer
      {
        var second := hostOutputFrameCount0 == 0;
        DrainTempOutputBuffer(second, Min(OutputPieceRoom(second), framesInTempOutputBuffer));
      }
    }

    /** The zeroing of host output once the callback has stopped. */
    method ZeroOutputPiece(second: bool, frameCount: nat)
      requires OutputLine() && OutputTurn(second) && HasStopped() && framesInTempOutputBuffer == 0
      requires frameCount <= OutputPieceRoom(second)
      modifies this`silence, this`hostOutput0, this`hostOutput1, this`hostOutputFrameCount0, this`hostOutputFrameCount1
      ensures OutputLine() && OutputTurn(second)
      ensures OutputPieceRoom(second) == old(OutputPieceRoom(second)) - frameCount
      ensures OutputPieceRoom(!second) == old(OutputPieceRoom(!second))
      ensures OutputSizes() == old(OutputSizes())
    {
      AddSilence(playedBefore, Written(), Line(log), zero, silence, frameCount);
      PutOutput(second, Zeros(zero, frameCount));
      silence := silence + frameCount;
    }

    /** The zeroing of what is left of both host output buffers. */
    method ZeroHostOutput()
      requires Shape() && OutputLine() && HasStopped() && framesInTempOutputBuffer == 0
      modifies this`hostOutput0, this`hostOutput1, this`hostOutputFrameCount0, this`hostOutputFrameCount1, this`silence
      ensures Shape() && OutputLine() && Room() == 0
      ensures OutputSizes() == old(OutputSizes())
    {
      hide OutputLine, OutputSizes;
      if hostOutputFrameCount0 > 0 {
        ZeroOutputPiece(false, hostOutputFrameCount0);
      }
      if hostOutputFrameCount1 > 0 {
        ZeroOutputPiece(true, hostOutputFrameCount1);
      }
    }

    function InputPiece(second: bool): seq<T> reads this`hostInput0, this`hostInput1 {
      if second then hostInput1 else hostInput0
    }

    method ConvertInput(frames: seq<T>)
      requires Shape() && framesInTempInputBuffer + |frames| <= framesPerUserBuffer
      modifies this`framesInTempInputBuffer, tempInputBuffer
      ensures Shape()
      ensures framesInTempInputBuffer == old(framesInTempInputBuffer) + |frames|
      ensures Gathered() == old(Gathered()) + frames
    {
      forall i | 0 <= i < |frames| {
        tempInputBuffer[framesInTempInputBuffer + i] := frames[i];
      }
      framesInTempInputBuffer := framesInTempInputBuffer + |frames|;
    }

    /** The pieces of the host's buffers are used in order. */
    ghost predicate InputTurn(second: bool) reads this`hostInput0 { second ==> hostInput0 == [] }

    method TakeInput(second: bool, frames: nat) returns (input: seq<T>)
      requires frames <= |InputPiece(second)| && InputTurn(second)
      modifies this`hostInput0, this`hostInput1
      ensures old(HostInput()) == input + HostInput() && |input| == frames && InputTurn(second)
      ensures |InputPiece(second)| == old(|InputPiece(second)|) - frames
      ensures InputPiece(!second) == old(InputPiece(!second))
    {
      if second {
        input, hostInput1 := hostInput1[..frames], hostInput1[frames..];
      } else {
        input, hostInput0 := hostInput0[..frames], hostInput0[frames..];
      }
    }

    method GatherPiece(second: bool, frameCount: nat)
      requires Shape() && InputLine() && InputTurn(second)
      requires frameCount <= |InputPiece(second)| && framesInTempInputBuffer + frameCount <= framesPerUserBuffer
      modifies this`framesInTempInputBuffer, this`hostInput0, this`hostInput1, tempInputBuffer
      ensures Shape() && InputLine() && InputTurn(second)
      ensures framesInTempInputBuffer == old(framesInTempInputBuffer) + frameCount
      ensures |InputPiece(second)| == old(|InputPiece(second)|) - frameCount
      ensures InputPiece(!second) == old(InputPiece(!second))
    {
      hide Presented, OnlyLastStops;
      ghost var gathered := Gathered();
      var input := TakeInput(second, frameCount);
      ConvertInput(input);
      Regroup(gathered, input, HostInput());
    }

    /** The inner loop of AdaptingProcess: host input fills the temporary input buffer. */
    method CopyHostInputToTempInputBuffer() returns (copied: nat)
      requires Shape() && InputLine()
      modifies this`framesInTempInputBuffer, this`hostInput0, this`hostInput1, tempInputBuffer
      ensures Shape() && InputLine()
      ensures framesInTempInputBuffer == framesPerUserBuffer || HostInput() == []
      ensures framesInTempInputBuffer == old(framesInTempInputBuffer) + copied
      ensures |HostInput()| == |old(HostInput())| - copied
    {
      hide InputLine;
      copied := 0;
      while framesInTempInputBuffer < framesPerUserBuffer && |hostInput0| + |hostInput1| > 0
        invariant Shape() && InputLine()
        invariant framesInTempInputBuffer == old(framesInTempInputBuffer) + copied
        invariant |HostInput()| == |old(HostInput())| - copied
        decreases |HostInput()|
      {
        var second := |hostInput0| == 0;
        var frameCount := Min(|InputPiece(second)|, framesPerUserBuffer - framesInTempInputBuffer);
        GatherPiece(second, frameCount);
        copied := copied + frameCount;
      }
    }

    /** Each call of this block is stamped with the times of the first frames it reads and makes. */
    ghost predicate TimeLine()
      reads this`log, this`block, this`callsBefore, this`base, this`inputBufferAdcTime, this`outputBufferDacTime
    {
      && callsBefore <= |log|
      && StampsOk(callback, log, callsBefore, block, initialFramesInTempOutputBuffer, samplePeriod)
      && (!HasStopped() ==>
            && inputBufferAdcTime == TimeAt(block.adc, block.inputStart, base, samplePeriod)
            && outputBufferDacTime == TimeAt(block.dac, block.outputStart, |Line(log)|, samplePeriod))
    }

    /** A call of the user callback. */
    method InvokeCallback(input: seq<T>, frames: nat) returns (answer: seq<T>)
      requires LogLine() && !HasStopped()
      modifies this`log, this`streamCallbackResult
      ensures LogLine() && |log| == |old(log)| + 1 && log[..|old(log)|] == old(log)
      ensures log[|old(log)|] == Call(input, frames, inputBufferAdcTime, outputBufferDacTime)
      ensures Presented(log) == old(Presented(log)) + input
      ensures Produced(callback, log)
        == old(Produced(callback, log)) + (if streamCallbackResult == Abort then [] else answer)
      ensures |answer| == frames
    {
      var call := Call(input, frames, inputBufferAdcTime, outputBufferDacTime);
      OneMoreCall(callback, log, call);
      log := log + [call];
      var reply := callback(log);
      answer := seq(frames, reply.output);
      streamCallbackResult := reply.result;
    }

    /** The call itself, with a full user block, and the times after it. */
    method CallWithTimes(input: seq<T>) returns (answer: seq<T>)
      requires LogLine() && TimeLine() && !HasStopped() && |Presented(log)| == base
      requires FullCalls(log, framesPerUserBuffer) && |input| == framesPerUserBuffer
      modifies this`log, this`streamCallbackResult, this`inputBufferAdcTime, this`outputBufferDacTime
      ensures LogLine() && |answer| == framesPerUserBuffer
      ensures callsBefore <= |log|
        && StampsOk(callback, log, callsBefore, block, initialFramesInTempOutputBuffer, samplePeriod)
      ensures !HasStopped() ==>
        && inputBufferAdcTime == TimeAt(block.adc, block.inputStart, |Presented(log)|, samplePeriod)
        && outputBufferDacTime == TimeAt(block.dac, block.outputStart, |Line(log)|, samplePeriod)
      ensures |log| == |old(log)| + 1 && log[..|old(log)|] == old(log) && FullCalls(log, framesPerUserBuffer)
      ensures Presented(log) == old(Presented(log)) + input
      ensures Produced(callback, log)
        == old(Produced(callback, log)) + (if streamCallbackResult == Abort then [] else answer)
    {
      hide TimeAt, Duration, StampsOk, Presented, Produced, OnlyLastStops;
      ghost var call := Call(input, framesPerUserBuffer, inputBufferAdcTime, outputBufferDacTime);
      OneMoreStamp(callback, log, call, callsBefore, block, initialFramesInTempOutputBuffer, samplePeriod);
      TimesAfterCall(callback, log, call, block, initialFramesInTempOutputBuffer, samplePeriod);
      answer := InvokeCallback(input, framesPerUserBuffer);
      assert log == old(log) + [call];
      inputBufferAdcTime := inputBufferAdcTime + Duration(framesPerUserBuffer, samplePeriod);
      outputBufferDacTime := outputBufferDacTime + Duration(framesPerUserBuffer, samplePeriod);
    }

    /**
     The call of the user callback inside AdaptingProcess: a full temporary input
     buffer goes in, a full temporary output buffer comes back unless the callback aborts.
     */
    method CallStreamCallback()
      requires Shape() && LogLine() && OutputLine() && TimeLine() && !HasStopped() && |Presented(log)| == base
      requires FullCalls(log, framesPerUserBuffer)
      requires framesInTempInputBuffer == framesPerUserBuffer && framesInTempOutputBuffer == 0
      modifies this`log, this`streamCallbackResult, this`inputBufferAdcTime, this`outputBufferDacTime,
               this`framesInTempInputBuffer, this`framesInTempOutputBuffer, tempOutputBuffer
      ensures Shape() && LogLine() && OutputLine()
      ensures callsBefore <= |log|
        && StampsOk(callback, log, callsBefore, block, initialFramesInTempOutputBuffer, samplePeriod)
      ensures !HasStopped() ==>
        && inputBufferAdcTime == TimeAt(block.adc, block.inputStart, |Presented(log)|, samplePeriod)
        && outputBufferDacTime == TimeAt(block.dac, block.outputStart, |Line(log)|, samplePeriod)
      ensures |log| == |old(log)| + 1 && log[..|old(log)|] == old(log) && FullCalls(log, framesPerUserBuffer)
      ensures Presented(log) == old(Presented(log)) + old(Gathered())
      ensures framesInTempInputBuffer == 0
      ensures framesInTempOutputBuffer == if streamCallbackResult == Abort then 0 else framesPerUserBuffer
    {
      hide TimeAt, Duration, StampsOk, Presented, Produced, OnlyLastStops, FullCalls;
      ghost var produced := Produced(callback, log);
      assert tempInputBuffer[..] == Gathered();
      var answer := CallWithTimes(tempInputBuffer[..]);
      forall i | 0 <= i < framesPerUserBuffer {
        tempOutputBuffer[i] := answer[i];
      }
      framesInTempInputBuffer := 0;
      framesInTempOutputBuffer := if streamCallbackResult == Abort then 0 else framesPerUserBuffer;
      assert Pending() == if streamCallbackResult == Abort then [] else answer;
      AddAnswer(playedBefore, Written(), Zeros(zero, initialFramesInTempOutputBuffer), produced, Pending());
    }

    ghost predicate Lines()
      requires framesPerUserBuffer > 0
      reads this, tempInputBuffer, tempOutputBuffer
    {
      && LogLine() && InputLine() && OutputLine() && TimeLine()
      && FullCalls(log, framesPerUserBuffer) && Aligned(base, framesPerUserBuffer)
    }

    ghost predicate Balanced(prefill: nat) reads this {
      && framesInTempInputBuffer + |HostInput()| + framesInTempOutputBuffer == prefill + Room()
      && (HasStopped() && Room() > framesInTempOutputBuffer ==> HostInput() != [])
    }

    ghost predicate Drained() reads this {
      HasStopped() && framesInTempOutputBuffer == 0 && Room() == 0
    }

    /** A call of this block aborted, and no host input was read since. */
    ghost predicate JustAborted(prefill: nat) reads this {
      && streamCallbackResult == Abort && |log| > callsBefore && |Presented(log)| == base
      && framesInTempInputBuffer == framesInTempOutputBuffer == 0
      && Room() + prefill == |HostInput()| + framesPerUserBuffer
    }

    /** The call that aborted took the very last frame of the host's input. */
    ghost predicate AbortedOnLastFrame() reads this {
      streamCallbackResult == Abort && |log| > callsBefore && |Presented(log)| == |stream|
    }

    /**
     How many frames of the host output a block leaves unfilled, when the temporary
     buffers held `prefill` frames in all before it.
     */
    ghost function Unfilled(prefill: nat): int reads this {
      if AbortedOnLastFrame() then framesPerUserBuffer - prefill
      else if HasStopped() || framesInTempInputBuffer <= prefill then 0
      else framesInTempInputBuffer - prefill
    }

    ghost predicate Phase(prefill: nat) reads this {
      && |Presented(log)| <= base
      && (Balanced(prefill) || Drained() || JustAborted(prefill))
      && (AbortedOnLastFrame() <==> JustAborted(prefill) && HostInput() == [])
    }

    /** A full temporary input buffer becomes the next user block. */
    method CallNext(ghost prefill: nat)
      requires Shape() && Lines() && prefill <= framesPerUserBuffer && !HasStopped()
      requires framesInTempInputBuffer == framesPerUserBuffer && framesInTempOutputBuffer == 0
      requires Balanced(prefill)
      modifies this`log, this`streamCallbackResult, this`inputBufferAdcTime, this`outputBufferDacTime,
               this`framesInTempInputBuffer, this`framesInTempOutputBuffer, this`base, tempOutputBuffer
      ensures Shape() && Lines() && framesInTempInputBuffer == 0
      ensures old(log) <= log
      ensures Phase(prefill)
    {
      hide Presented, Produced, OnlyLastStops, FullCalls, StampsOk, TimeAt, OutputLine, Aligned;
      SplitAt(stream, base, Gathered(), HostInput());
      NextBase(base, framesPerUserBuffer);
      CallStreamCallback();
      base := base + framesPerUserBuffer;
      assert InputLine();
    }

    /** The first half of a pass: silence if nothing else will come, then input. */
    method FeedInput(ghost prefill: nat) returns (copied: nat)
      requires Shape() && Lines() && Phase(prefill)
      requires framesInTempInputBuffer < framesPerUserBuffer && HostInput() != []
      requires framesInTempOutputBuffer == 0 || Room() == 0
      modifies this`framesInTempInputBuffer, this`silence,
               this`hostInput0, this`hostInput1, this`hostOutput0, this`hostOutput1,
               this`hostOutputFrameCount0, this`hostOutputFrameCount1, tempInputBuffer
      ensures Shape() && Lines()
      ensures 0 < copied && |HostInput()| + copied == old(|HostInput()|)
      ensures framesInTempInputBuffer > 0
      ensures framesInTempInputBuffer == framesPerUserBuffer || HostInput() == []
      ensures Balanced(prefill) || Drained()
      ensures HasStopped() && framesInTempOutputBuffer == 0 ==> Drained()
      ensures framesInTempOutputBuffer == 0 || Room() == 0
      ensures !AbortedOnLastFrame() && |Presented(log)| <= base
      ensures OutputSizes() == old(OutputSizes())
    {
      hide OnlyLastStops, InputLine, OutputLine, TimeLine, Presented, FullCalls, OutputSizes;
      if framesInTempOutputBuffer == 0 && streamCallbackResult != Continue {
        ZeroHostOutput();
      }
      copied := CopyHostInputToTempInputBuffer();
    }

    /** Once the callback has stopped, a full temporary input buffer is dropped. */
    method DropUserBlock()
      requires Shape() && InputLine() && HasStopped()
      requires Aligned(base, framesPerUserBuffer) && framesInTempInputBuffer == framesPerUserBuffer
      modifies this`framesInTempInputBuffer, this`base
      ensures Shape() && InputLine()
      ensures base == old(base) + framesPerUserBuffer && Aligned(base, framesPerUserBuffer)
      ensures framesInTempInputBuffer == 0 && (old(TimeLine()) ==> TimeLine())
    {
      SplitAt(stream, base, Gathered(), HostInput());
      NextBase(base, framesPerUserBuffer);
      framesInTempInputBuffer := 0;
      base := base + framesPerUserBuffer;
    }

    /** The second half of a pass: a full user block is presented, or dropped. */
    method CallOrDrop(ghost prefill: nat)
      requires Shape() && Lines() && prefill <= framesPerUserBuffer
      requires Balanced(prefill) || Drained()
      requires HasStopped() && framesInTempOutputBuffer == 0 ==> Drained()
      requires framesInTempOutputBuffer == 0 || Room() == 0
      requires framesInTempInputBuffer > 0
      requires framesInTempInputBuffer == framesPerUserBuffer || HostInput() == []
      requires !AbortedOnLastFrame() && |Presented(log)| <= base
      modifies this`log, this`streamCallbackResult, this`inputBufferAdcTime, this`outputBufferDacTime,
               this`framesInTempInputBuffer, this`framesInTempOutputBuffer, this`base, tempOutputBuffer
      ensures Shape() && Lines() && Phase(prefill) && old(log) <= log
      ensures framesInTempInputBuffer < framesPerUserBuffer
    {
      hide OnlyLastStops, InputLine, OutputLine, TimeLine, Presented, FullCalls, OutputSizes;
      if framesInTempInputBuffer == framesPerUserBuffer && framesInTempOutputBuffer == 0 {
        if streamCallbackResult == Continue {
          CallNext(prefill);
        } else {
          DropUserBlock();
        }
      }
    }

    /** The copying of pending output, before the loop and at the end of a pass. */
    method ReleaseOutput(ghost prefill: nat)
      requires Shape() && Lines() && Phase(prefill)
      modifies this`framesInTempOutputBuffer, this`hostOutput0, this`hostOutput1,
               this`hostOutputFrameCount0, this`hostOutputFrameCount1
      ensures Shape() && Lines() && Phase(prefill)
      ensures framesInTempOutputBuffer == 0 || Room() == 0
      ensures OutputSizes() == old(OutputSizes())
    {
      hide OnlyLastStops, InputLine, OutputLine, TimeLine, Presented, FullCalls, OutputSizes;
      CopyTempOutputBuffersToHostOutputBuffers();
    }

    /** One pass of the loop in AdaptingProcess. */
    method AdaptingPass(ghost prefill: nat) returns (copied: nat)
      requires Shape() && Lines() && Phase(prefill) && prefill <= framesPerUserBuffer
      requires framesInTempInputBuffer < framesPerUserBuffer && HostInput() != []
      requires framesInTempOutputBuffer == 0 || Room() == 0
      modifies this`log, this`streamCallbackResult, this`inputBufferAdcTime, this`outputBufferDacTime,
               this`framesInTempInputBuffer, this`framesInTempOutputBuffer, this`base, this`silence,
               this`hostInput0, this`hostInput1, this`hostOutput0, this`hostOutput1,
               this`hostOutputFrameCount0, this`hostOutputFrameCount1, tempInputBuffer, tempOutputBuffer
      ensures Shape() && Lines() && Phase(prefill) && old(log) <= log
      ensures 0 < copied && |HostInput()| + copied == old(|HostInput()|)
      ensures framesInTempInputBuffer < framesPerUserBuffer
      ensures framesInTempOutputBuffer == 0 || Room() == 0
      ensures OutputSizes() == old(OutputSizes())
    {
      hide Lines, Phase, OutputSizes;
      copied := FeedInput(prefill);
      CallOrDrop(prefill);
      ReleaseOutput(prefill);
    }

    /** Phase holds before the loop in AdaptingProcess. */
    lemma StartsInPhase(prefill: nat)
      requires Shape() && Lines() && callsBefore == |log|
      requires |HostInput()| == Room() && prefill == framesInTempInputBuffer + framesInTempOutputBuffer
      ensures Phase(prefill)
    {
      hide OnlyLastStops, Presented, FullCalls;
    }

    lemma StartOfBlock()
      requires framesPerUserBuffer > 0 && Lines()
      ensures |stream| == base + framesInTempInputBuffer + |HostInput()|
      ensures Aligned(base, framesPerUserBuffer) && |Presented(log)| <= base
    {
    }

    /**
     Full-duplex adaptation with partial user buffers. For any split of the host
     block and any callback, the loop ends with all input read; what it leaves of
     the output is exactly Unfilled.
     */
    method AdaptingProcess() returns (framesProcessed: nat)
      requires Shape() && Lines()
      requires framesInTempInputBuffer < framesPerUserBuffer
      requires framesInTempInputBuffer + framesInTempOutputBuffer <= framesPerUserBuffer
      requires |HostInput()| == Room() && callsBefore == |log|
      modifies this`log, this`streamCallbackResult, this`inputBufferAdcTime, this`outputBufferDacTime,
               this`framesInTempInputBuffer, this`framesInTempOutputBuffer, this`base, this`silence,
               this`hostInput0, this`hostInput1, this`hostOutput0, this`hostOutput1,
               this`hostOutputFrameCount0, this`hostOutputFrameCount1, tempInputBuffer, tempOutputBuffer
      ensures Shape() && Lines() && old(log) <= log
      ensures HostInput() == [] && framesProcessed == old(|HostInput()|)
      ensures framesInTempInputBuffer < framesPerUserBuffer
      ensures framesInTempOutputBuffer == 0 || Room() == 0
      ensures Room() == Unfilled(old(framesInTempInputBuffer + framesInTempOutputBuffer))
      ensures !HasStopped() || framesInTempOutputBuffer > 0 ==>
        framesInTempInputBuffer + framesInTempOutputBuffer - Room()
          == old(framesInTempInputBuffer + framesInTempOutputBuffer)
      ensures OutputSizes() == old(OutputSizes())
      ensures !HasStopped() ==>
        var before, frames := old(Fill(framesInTempInputBuffer, framesInTempOutputBuffer)), old(|HostInput()|);
        && Fill(framesInTempInputBuffer, framesInTempOutputBuffer) == AfterBlock(before, frames, framesPerUserBuffer)
        && Room() == Lack(before, frames, framesPerUserBuffer)
      ensures AbortedOnLastFrame() ==>
        var before, frames := old(Fill(framesInTempInputBuffer, framesInTempOutputBuffer)), old(|HostInput()|);
        && Aligned(before.input + frames, framesPerUserBuffer)
        && Room() == Gap(before, frames, framesPerUserBuffer, true)
    {
      hide Phase, Lines, OutputSizes, Unfilled;
      ghost var before, input, output := base, framesInTempInputBuffer, framesInTempOutputBuffer;
      StartOfBlock();
      framesProcessed := 0;
      var framesAvailable := |hostInput0| + |hostInput1|;
      StartsInPhase(input + output);
      ReleaseOutput(input + output);
      while framesAvailable > 0
        invariant Shape() && Lines() && Phase(input + output) && old(log) <= log
        invariant framesAvailable == |HostInput()| && framesProcessed + framesAvailable == old(|HostInput()|)
        invariant framesInTempInputBuffer < framesPerUserBuffer
        invariant framesInTempOutputBuffer == 0 || Room() == 0
        invariant OutputSizes() == old(OutputSizes())
        decreases framesAvailable
      {
        var copied := AdaptingPass(input + output);
        framesAvailable := framesAvailable - copied;
        framesProcessed := framesProcessed + copied;
      }
      EndOfBlock(before, input, output, framesProcessed);
    }

    /** What Phase says once all host input has been read. */
    lemma EndOfBlock(before: nat, input: nat, output: nat, frames: nat)
      requires Shape() && Lines() && Phase(input + output) && HostInput() == []
      requires before % framesPerUserBuffer == 0 && |stream| == before + input + frames
      requires framesInTempInputBuffer < framesPerUserBuffer && input + output <= framesPerUserBuffer
      requires framesInTempOutputBuffer == 0 || Room() == 0
      ensures Room() == Unfilled(input + output)
      ensures !HasStopped() || framesInTempOutputBuffer > 0 ==>
        framesInTempInputBuffer + framesInTempOutputBuffer - Room() == input + output
      ensures !HasStopped() ==>
        && Fill(framesInTempInputBuffer, framesInTempOutputBuffer)
           == AfterBlock(Fill(input, output), frames, framesPerUserBuffer)
        && Room() == Lack(Fill(input, output), frames, framesPerUserBuffer)
      ensures AbortedOnLastFrame() ==>
        && Aligned(input + frames, framesPerUserBuffer)
        && Room() == Gap(Fill(input, output), frames, framesPerUserBuffer, true)
    {
      StartOfBlock();
      SameResidue(before, input, frames, base, framesInTempInputBuffer, framesPerUserBuffer);
      hide OnlyLastStops, InputLine, OutputLine, TimeLine, Presented, FullCalls;
    }

    /** A half-duplex call with a full user block, which has no DAC time. */
    method CallWithInput(input: seq<T>)
      requires LogLine() && InTimes() && !HasStopped() && |input| == framesPerUserBuffer
      requires FullCalls(log, framesPerUserBuffer)
      modifies this`log, this`streamCallbackResult, this`inputBufferAdcTime, this`outputBufferDacTime
      ensures LogLine() && InTimes() && old(log) <= log && FullCalls(log, framesPerUserBuffer)
      ensures Presented(log) == old(Presented(log)) + input
    {
      hide Presented, Produced, OnlyLastStops, Duration, TimeAt, InputStamps;
      outputBufferDacTime := 0.0;
      ghost var call := Call(input, framesPerUserBuffer, inputBufferAdcTime, 0.0);
      InputStampAfter(callback, log, call, callsBefore, block, samplePeriod);
      var _ := InvokeCallback(input, framesPerUserBuffer);
      assert log == old(log) + [call];
      inputBufferAdcTime := inputBufferAdcTime + Duration(framesPerUserBuffer, samplePeriod);
    }

    method PresentUserBlock()
      requires Shape() && LogLine() && InputLine() && FullCalls(log, framesPerUserBuffer) && !HasStopped()
      requires Aligned(base, framesPerUserBuffer) && framesInTempInputBuffer == framesPerUserBuffer && InTimes()
      modifies this`log, this`streamCallbackResult, this`inputBufferAdcTime, this`outputBufferDacTime,
               this`framesInTempInputBuffer, this`base
      ensures Shape() && LogLine() && InputLine() && FullCalls(log, framesPerUserBuffer)
      ensures Aligned(base, framesPerUserBuffer) && framesInTempInputBuffer == 0
      ensures InTimes() && old(log) <= log
    {
      hide Presented, FullCalls, OnlyLastStops, Aligned, BufferProcessor.InTimes;
      SplitAt(stream, base, Gathered(), HostInput());
      NextBase(base, framesPerUserBuffer);
      assert tempInputBuffer[..] == Gathered();
      CallWithInput(tempInputBuffer[..]);
      framesInTempInputBuffer := 0;
      base := base + framesPerUserBuffer;
    }

    /** One pass of the loop in AdaptingInputOnlyProcess. */
    method FillOnce(second: bool, frameCount: nat)
      requires Shape() && LogLine() && InputLine() && FullCalls(log, framesPerUserBuffer) && InputTurn(second)
      requires Aligned(base, framesPerUserBuffer) && InTimes()
      requires frameCount <= |InputPiece(second)| && framesInTempInputBuffer + frameCount <= framesPerUserBuffer
      modifies this`log, this`streamCallbackResult, this`inputBufferAdcTime, this`outputBufferDacTime,
               this`framesInTempInputBuffer, this`base, this`hostInput0, this`hostInput1, tempInputBuffer
      ensures Shape() && LogLine() && InputLine() && FullCalls(log, framesPerUserBuffer) && InputTurn(second)
      ensures Aligned(base, framesPerUserBuffer) && framesInTempInputBuffer < framesPerUserBuffer
      ensures InTimes() && old(log) <= log
      ensures |InputPiece(second)| == old(|InputPiece(second)|) - frameCount
      ensures InputPiece(!second) == old(InputPiece(!second))
    {
      hide BufferProcessor.InTimes;
      GatherPiece(second, frameCount);
      if framesInTempInputBuffer == framesPerUserBuffer {
        if streamCallbackResult == Continue {
          PresentUserBlock();
        } else {
          DropUserBlock();
        }
      }
    }

    /** Half-duplex input: each full temporary buffer goes to the callback, or nowhere once it has stopped. */
    method AdaptingInputOnlyProcess(second: bool) returns (framesProcessed: nat)
      requires Shape() && LogLine() && InputLine() && FullCalls(log, framesPerUserBuffer) && InputTurn(second)
      requires Aligned(base, framesPerUserBuffer) && framesInTempInputBuffer < framesPerUserBuffer && InTimes()
      modifies this`log, this`streamCallbackResult, this`inputBufferAdcTime, this`outputBufferDacTime,
               this`framesInTempInputBuffer, this`base, this`hostInput0, this`hostInput1, tempInputBuffer
      ensures InTimes() && old(log) <= log
      ensures Shape() && LogLine() && InputLine() && FullCalls(log, framesPerUserBuffer)
      ensures Aligned(base, framesPerUserBuffer) && framesInTempInputBuffer < framesPerUserBuffer
      ensures InputPiece(second) == [] && InputPiece(!second) == old(InputPiece(!second))
      ensures framesProcessed == old(|InputPiece(second)|)
    {
      framesProcessed := 0;
      var framesToGo := |InputPiece(second)|;
      var again := true;
      while again
        invariant Shape() && LogLine() && InputLine() && FullCalls(log, framesPerUserBuffer) && InputTurn(second)
        invariant Aligned(base, framesPerUserBuffer) && framesInTempInputBuffer < framesPerUserBuffer
        invariant InTimes() && old(log) <= log
        invariant framesToGo == |InputPiece(second)| && InputPiece(!second) == old(InputPiece(!second))
        invariant framesProcessed + framesToGo == old(|InputPiece(second)|)
        invariant !again ==> framesToGo == 0
        decreases framesToGo, again
      {
        var frameCount := if framesInTempInputBuffer + framesToGo > framesPerUserBuffer
                          then framesPerUserBuffer - framesInTempInputBuffer else framesToGo;
        FillOnce(second, frameCount);
        framesProcessed := framesProcessed + frameCount;
        framesToGo := framesToGo - frameCount;
        again := framesToGo > 0;
      }
    }

    /** A half-duplex call for a full user block, which has no ADC time. */
    method CallForOutput() returns (answer: seq<T>)
      requires LogLine() && OutTimes() && !HasStopped()
      modifies this`log, this`streamCallbackResult, this`inputBufferAdcTime, this`outputBufferDacTime
      ensures LogLine() && OutTimes() && old(log) <= log && |answer| == framesPerUserBuffer
      ensures Produced(callback, log)
        == old(Produced(callback, log)) + (if streamCallbackResult == Abort then [] else answer)
    {
      hide Presented, Produced, OnlyLastStops, Duration, TimeAt, OutputStamps;
      inputBufferAdcTime := 0.0;
      ghost var call := Call([], framesPerUserBuffer, 0.0, outputBufferDacTime);
      OutputStampAfter(callback, log, call, callsBefore, block, samplePeriod);
      answer := InvokeCallback([], framesPerUserBuffer);
      assert log == old(log) + [call];
      if streamCallbackResult != Abort {
        outputBufferDacTime := outputBufferDacTime + Duration(framesPerUserBuffer, samplePeriod);
      }
    }

    method RefillTempOutputBuffer()
      requires Shape() && LogLine() && OutputLine() && framesInTempOutputBuffer == 0 && !HasStopped() && OutTimes()
      modifies this`log, this`streamCallbackResult, this`inputBufferAdcTime, this`outputBufferDacTime,
               this`framesInTempOutputBuffer, tempOutputBuffer
      ensures Shape() && LogLine() && OutputLine()
      ensures framesInTempOutputBuffer == 0 ==> HasStopped()
      ensures OutTimes() && old(log) <= log
    {
      hide Presented, Produced, OnlyLastStops, BufferProcessor.OutTimes;
      ghost var produced := Produced(callback, log);
      var answer := CallForOutput();
      if streamCallbackResult != Abort {
        forall i | 0 <= i < framesPerUserBuffer {
          tempOutputBuffer[i] := answer[i];
        }
        framesInTempOutputBuffer := framesPerUserBuffer;
        assert Pending() == answer;
      }
      AddAnswer(playedBefore, Written(), Zeros(zero, initialFramesInTempOutputBuffer), produced, Pending());
    }

    /** Half-duplex output: the temporary buffer is refilled by the callback whenever it runs empty. */
    method AdaptingOutputOnlyProcess(second: bool) returns (framesProcessed: nat)
      requires Shape() && LogLine() && OutputLine() && OutputTurn(second) && OutTimes()
      modifies this`log, this`streamCallbackResult, this`inputBufferAdcTime, this`outputBufferDacTime,
               this`framesInTempOutputBuffer, this`silence, this`hostOutput0, this`hostOutput1,
               this`hostOutputFrameCount0, this`hostOutputFrameCount1, tempOutputBuffer
      ensures Shape() && LogLine() && OutputLine() && OutputTurn(second) && OutTimes() && old(log) <= log
      ensures OutputPieceRoom(second) == 0 && OutputPieceRoom(!second) == old(OutputPieceRoom(!second))
      ensures framesProcessed == old(OutputPieceRoom(second))
      ensures OutputSizes() == old(OutputSizes())
    {
      hide OutputLine, OnlyLastStops, BufferProcessor.OutTimes;
      framesProcessed := 0;
      var framesToGo := OutputPieceRoom(second);
      var again := true;
      while again
        invariant Shape() && LogLine() && OutputLine() && OutputTurn(second) && OutTimes() && old(log) <= log
        invariant framesToGo == OutputPieceRoom(second) && OutputPieceRoom(!second) == old(OutputPieceRoom(!second))
        invariant framesProcessed + framesToGo == old(OutputPieceRoom(second))
        invariant !again ==> framesToGo == 0
        invariant OutputSizes() == old(OutputSizes())
        decreases framesToGo, again
      {
        if framesInTempOutputBuffer == 0 && streamCallbackResult == Continue {
          RefillTempOutputBuffer();
        }
        var frameCount;
        if framesInTempOutputBuffer > 0 {
          frameCount := Min(framesInTempOutputBuffer, framesToGo);
          DrainTempOutputBuffer(second, frameCount);
        } else {
          frameCount := framesToGo;
          ZeroOutputPiece(second, frameCount);
        }
        framesProcessed := framesProcessed + frameCount;
        framesToGo := framesToGo - frameCount;
        again := framesToGo > 0;
      }
    }

    /** The stamps are right, and the times will be once they have advanced by this many frames. */
    ghost predicate TimesAfter(frames: nat)
      reads this`log, this`streamCallbackResult, this`block, this`callsBefore,
            this`inputBufferAdcTime, this`outputBufferDacTime
    {
      && (useNonAdaptingProcess ==> Together())
      && (hasInput ==>
            && callsBefore <= |log| && InputStamps(log, callsBefore, block, samplePeriod)
            && inputBufferAdcTime + Duration(frames, samplePeriod)
               == TimeAt(block.adc, block.inputStart, |Presented(log)|, samplePeriod))
      && (hasOutput ==>
            && callsBefore <= |log| && OutputStamps(callback, log, callsBefore, block, samplePeriod)
            && (streamCallbackResult != Abort ==>
                  outputBufferDacTime + Duration(frames, samplePeriod)
                  == TimeAt(block.dac, block.outputStart, |Produced(callback, log)|, samplePeriod)))
    }

    ghost predicate InputReady(second: bool, frames: nat) reads this, tempInputBuffer {
      hasInput ==> InputLine() && InputTurn(second) && frames <= |InputPiece(second)|
    }

    ghost predicate OutputReady(second: bool, frames: nat) reads this, tempOutputBuffer {
      hasOutput ==> OutputLine() && OutputTurn(second) && frames <= OutputPieceRoom(second)
    }

    /** The calls from `from` on are chunks of at most a temporary buffer, or of exactly one. */
    ghost predicate ChunkCalls(from: nat, exact: bool) reads this`log {
      forall j :: from <= j < |log| ==>
        && log[j].frames <= framesPerTempBuffer && |log[j].input| == (if hasInput then log[j].frames else 0)
        && (exact ==> log[j].frames == framesPerTempBuffer)
    }

    ghost predicate OutputSplit(produced: seq<T>) reads this`playedBefore, this`hostOutput0, this`hostOutput1 {
      playedBefore + (Written() + []) == Zeros(zero, initialFramesInTempOutputBuffer) + produced
    }

    lemma CloseOutputLine(produced: seq<T>, answer: seq<T>)
      requires framesInTempOutputBuffer == 0 && silence == 0
      requires |Written()| >= |answer| && Written()[|Written()| - |answer|..] == answer
      requires playedBefore + Written()[..|Written()| - |answer|]
        == Zeros(zero, initialFramesInTempOutputBuffer) + produced
      requires Produced(callback, log) == produced + answer
      ensures OutputLine()
    {
      hide Produced, OnlyLastStops;
      var before := Written()[..|Written()| - |answer|];
      assert Written() == before + answer;
      AddAnswer(playedBefore, before, Zeros(zero, initialFramesInTempOutputBuffer), produced, answer);
    }

    /** The callback's output goes to the host unless it aborted. */
    method DeliverChunk(secondOut: bool, answer: seq<T>, ghost produced: seq<T>)
      requires Unbuffered() && TimesAfter(|answer|)
      requires Produced(callback, log) == produced + (if streamCallbackResult == Abort then [] else answer)
      requires hasOutput ==> OutputSplit(produced) && silence == 0
      requires hasOutput ==> OutputTurn(secondOut) && |answer| <= OutputPieceRoom(secondOut)
      modifies this`inputBufferAdcTime, this`outputBufferDacTime, this`hostOutput0, this`hostOutput1,
               this`hostOutputFrameCount0, this`hostOutputFrameCount1
      ensures NonAdapting() && OutputReady(secondOut, 0)
      ensures hasOutput ==>
        OutputPieceRoom(secondOut)
          == old(OutputPieceRoom(secondOut)) - (if streamCallbackResult == Abort then 0 else |answer|)
      ensures OutputPieceRoom(!secondOut) == old(OutputPieceRoom(!secondOut))
      ensures OutputSizes() == old(OutputSizes())
    {
      hide Produced, Presented, OnlyLastStops, Duration, OutputLine, OutputSizes, TimeAt, InputStamps, OutputStamps;
      if streamCallbackResult != Abort {
        inputBufferAdcTime := inputBufferAdcTime + Duration(|answer|, samplePeriod);
        outputBufferDacTime := outputBufferDacTime + Duration(|answer|, samplePeriod);
        if hasOutput {
          PutOutput(secondOut, answer);
        }
      }
      if hasOutput {
        CloseOutputLine(produced, if streamCallbackResult == Abort then [] else answer);
      }
    }

    /** All of the input stream up to `taken` was presented, and the host still holds the rest. */
    ghost predicate InputSplit(presented: seq<T>, taken: seq<T>)
      reads this`stream, this`base, this`hostInput0, this`hostInput1
    {
      base <= |stream| && stream[base..] == taken + HostInput() && presented == stream[..base]
    }

    lemma OpenInputLine()
      requires InputLine() && framesInTempInputBuffer == 0 && !HasStopped()
      ensures InputSplit(Presented(log), [])
    {
    }

    ghost method AdvanceBase(presented: seq<T>, input: seq<T>)
      requires framesInTempInputBuffer == 0 && InputSplit(presented, input) && Presented(log) == presented + input
      modifies this`base
      ensures InputLine()
    {
      hide Presented, OnlyLastStops;
      SplitAt(stream, base, input, HostInput());
      base := base + |input|;
    }

    /** A call with the times of its first frames, before those times advance. */
    method CallWithStamps(input: seq<T>, frameCount: nat) returns (answer: seq<T>)
      requires LogLine() && Times() && !HasStopped() && |input| == (if hasInput then frameCount else 0)
      modifies this`log, this`streamCallbackResult
      ensures LogLine() && TimesAfter(frameCount) && |answer| == frameCount
      ensures |log| == |old(log)| + 1 && old(log) <= log
      ensures log[|old(log)|] == Call(input, frameCount, inputBufferAdcTime, outputBufferDacTime)
      ensures Presented(log) == old(Presented(log)) + input
      ensures Produced(callback, log)
        == old(Produced(callback, log)) + (if streamCallbackResult == Abort then [] else answer)
    {
      hide Presented, Produced, OnlyLastStops, TimeAt, Duration, InputStamps, OutputStamps;
      ghost var call := Call(input, frameCount, inputBufferAdcTime, outputBufferDacTime);
      if hasInput { InputStampAfter(callback, log, call, callsBefore, block, samplePeriod); }
      if hasOutput { OutputStampAfter(callback, log, call, callsBefore, block, samplePeriod); }
      answer := InvokeCallback(input, frameCount);
      assert log == old(log) + [call];
    }

    /** The next frames of host input go to the user callback. */
    method PresentChunk(secondIn: bool, frameCount: nat, ghost from: nat, ghost exact: bool) returns (answer: seq<T>)
      requires NonAdapting() && !HasStopped() && InputReady(secondIn, frameCount)
      requires from <= |log| && ChunkCalls(from, exact) && frameCount <= framesPerTempBuffer
      requires exact ==> frameCount == framesPerTempBuffer
      modifies this`log, this`streamCallbackResult, this`base, this`hostInput0, this`hostInput1
      ensures Unbuffered() && TimesAfter(frameCount) && InputReady(secondIn, 0) && |answer| == frameCount
      ensures old(log) <= log && ChunkCalls(from, exact)
      ensures |log| == |old(log)| + 1 && log[|old(log)|].frames == frameCount
      ensures Produced(callback, log)
        == old(Produced(callback, log)) + (if streamCallbackResult == Abort then [] else answer)
      ensures hasInput ==> |InputPiece(secondIn)| == old(|InputPiece(secondIn)|) - frameCount
      ensures InputPiece(!secondIn) == old(InputPiece(!secondIn))
    {
      hide Presented, Produced, OnlyLastStops, InputLine, BufferProcessor.TimesAfter, InTimes, OutTimes;
      ghost var presented := Presented(log);
      var input := [];
      if hasInput {
        OpenInputLine();
        input := TakeInput(secondIn, frameCount);
      }
      answer := CallWithStamps(input, frameCount);
      if hasInput {
        AdvanceBase(presented, input);
      }
    }

    lemma OpenOutputLine()
      requires OutputLine() && framesInTempOutputBuffer == 0 && !HasStopped()
      ensures OutputSplit(Produced(callback, log)) && silence == 0
    {
    }

    /** One call of the user callback in NonAdaptingProcess. */
    method CallChunk(secondIn: bool, secondOut: bool, frameCount: nat, ghost from: nat, ghost exact: bool)
      requires NonAdapting() && !HasStopped()
      requires from <= |log| && ChunkCalls(from, exact) && frameCount <= framesPerTempBuffer
      requires exact ==> frameCount == framesPerTempBuffer
      requires InputReady(secondIn, frameCount) && OutputReady(secondOut, frameCount)
      modifies this`log, this`streamCallbackResult, this`inputBufferAdcTime, this`outputBufferDacTime, this`base,
               this`hostInput0, this`hostInput1, this`hostOutput0, this`hostOutput1,
               this`hostOutputFrameCount0, this`hostOutputFrameCount1
      ensures NonAdapting() && InputReady(secondIn, 0) && OutputReady(secondOut, 0)
      ensures old(log) <= log && ChunkCalls(from, exact)
      ensures |log| == |old(log)| + 1 && log[|old(log)|].frames == frameCount
      ensures hasInput ==> |InputPiece(secondIn)| == old(|InputPiece(secondIn)|) - frameCount
      ensures InputPiece(!secondIn) == old(InputPiece(!secondIn))
      ensures hasOutput ==>
        OutputPieceRoom(secondOut)
          == old(OutputPieceRoom(secondOut)) - (if streamCallbackResult == Abort then 0 else frameCount)
      ensures OutputPieceRoom(!secondOut) == old(OutputPieceRoom(!secondOut))
      ensures OutputSizes() == old(OutputSizes())
    {
      hide Presented, Produced, OnlyLastStops, Duration, InputLine, OutputLine, ChunkCalls, OutputSizes;
      ghost var produced := Produced(callback, log);
      if hasOutput { OpenOutputLine(); }
      var answer := PresentChunk(secondIn, frameCount, from, exact);
      DeliverChunk(secondOut, answer, produced);
    }

    /**
     NonAdaptingProcess with `framesToGo` frames to go: what its host pieces hold is
     known exactly while the loop goes on, and on the input side at least until it ends.
     */
    ghost predicate InHand(secondIn: bool, secondOut: bool, inputLeft: nat, outputLeft: nat, framesToGo: nat,
                           again: bool)
      reads this, tempInputBuffer, tempOutputBuffer
    {
      && NonAdapting() && InputReady(secondIn, 0) && OutputReady(secondOut, 0)
      && (if again then !HasStopped() else framesToGo == 0 || HasStopped())
      && (hasInput ==>
            || |InputPiece(secondIn)| == inputLeft + framesToGo
            || (!again && HasStopped() && |InputPiece(secondIn)| >= inputLeft))
      && (hasOutput ==> OutputPieceRoom(secondOut) == outputLeft + framesToGo)
    }

    /** One pass of the loop in NonAdaptingProcess: how many frames it completes, and whether to go on. */
    method ChunkPass(secondIn: bool, secondOut: bool, ghost inputLeft: nat, ghost outputLeft: nat, framesToGo: nat,
                     ghost from: nat, ghost exact: bool, ghost total: nat) returns (done: nat, again: bool)
      requires InHand(secondIn, secondOut, inputLeft, outputLeft, framesToGo, true)
      requires from <= |log| && ChunkCalls(from, exact) && (exact ==> Whole(framesToGo, framesPerTempBuffer))
      requires Chunked(log, from, framesPerTempBuffer, total) && framesToGo == total - FramesAsked(log, from)
      modifies this`log, this`streamCallbackResult, this`inputBufferAdcTime, this`outputBufferDacTime, this`base,
               this`hostInput0, this`hostInput1, this`hostOutput0, this`hostOutput1,
               this`hostOutputFrameCount0, this`hostOutputFrameCount1
      ensures done <= framesToGo && (again ==> done > 0)
      ensures InHand(secondIn, secondOut, inputLeft, outputLeft, framesToGo - done, again)
      ensures old(log) <= log && ChunkCalls(from, exact)
      ensures Chunked(log, from, framesPerTempBuffer, total)
      ensures again ==> framesToGo - done == total - FramesAsked(log, from)
      ensures again && exact ==> Whole(framesToGo - done, framesPerTempBuffer)
      ensures InputPiece(!secondIn) == old(InputPiece(!secondIn))
      ensures OutputPieceRoom(!secondOut) == old(OutputPieceRoom(!secondOut))
      ensures OutputSizes() == old(OutputSizes())
    {
      hide InputLine, OutputLine, OnlyLastStops, ChunkCalls, OutputSizes, Whole, Chunked, FramesAsked;
      ghost var before := log;
      var frameCount := Min(framesPerTempBuffer, framesToGo);
      if exact { WholeChunk(framesToGo, framesPerTempBuffer); }
      CallChunk(secondIn, secondOut, frameCount, from, exact);
      assert log == before + [log[|before|]];
      OneMoreChunk(before, log[|before|], from, framesPerTempBuffer, total);
      done := if streamCallbackResult == Abort then 0 else frameCount;
      again := framesToGo - done > 0 && streamCallbackResult == Continue;
    }

    /** Host input that the callback will not see is passed over. */
    method SkipInput(second: bool, frames: nat)
      requires InputLine() && InputTurn(second) && frames <= |InputPiece(second)| && framesInTempInputBuffer == 0
      requires HasStopped() || frames == 0
      modifies this`base, this`hostInput0, this`hostInput1
      ensures InputLine() && InputTurn(second)
      ensures |InputPiece(second)| == old(|InputPiece(second)|) - frames
      ensures InputPiece(!second) == old(InputPiece(!second))
    {
      hide Presented, OnlyLastStops;
      var input := TakeInput(second, frames);
      SplitAt(stream, base, input, HostInput());
      base := base + frames;
    }

    /** The end of NonAdaptingProcess: silence for the frames the callback did not make. */
    method FinishNonAdapting(secondIn: bool, secondOut: bool, inputLeft: nat, ghost outputLeft: nat, framesToGo: nat)
      requires InHand(secondIn, secondOut, inputLeft, outputLeft, framesToGo, false)
      modifies this`base, this`silence, this`hostInput0, this`hostInput1, this`hostOutput0, this`hostOutput1,
               this`hostOutputFrameCount0, this`hostOutputFrameCount1
      ensures NonAdapting() && InputReady(secondIn, 0) && OutputReady(secondOut, 0)
      ensures hasInput ==> |InputPiece(secondIn)| == inputLeft
      ensures hasOutput ==> OutputPieceRoom(secondOut) == outputLeft
      ensures InputPiece(!secondIn) == old(InputPiece(!secondIn))
      ensures OutputPieceRoom(!secondOut) == old(OutputPieceRoom(!secondOut))
      ensures OutputSizes() == old(OutputSizes())
    {
      hide InputLine, OutputLine, OnlyLastStops, OutputSizes;
      if hasInput {
        SkipInput(secondIn, |InputPiece(secondIn)| - inputLeft);
      }
      if framesToGo > 0 && hasOutput {
        ZeroOutputPiece(secondOut, framesToGo);
      }
    }

    lemma EnoughInHand(secondIn: bool, secondOut: bool, frames: nat)
      requires NonAdapting() && InputReady(secondIn, frames) && OutputReady(secondOut, frames)
      ensures framesPerTempBuffer > 0
      ensures hasInput ==> frames <= |InputPiece(secondIn)|
      ensures hasOutput ==> frames <= OutputPieceRoom(secondOut)
    {
    }

    lemma StartsInHand(secondIn: bool, secondOut: bool, inputLeft: nat, outputLeft: nat, frames: nat, exact: bool)
      requires NonAdapting() && InputReady(secondIn, frames) && OutputReady(secondOut, frames)
      requires hasInput ==> |InputPiece(secondIn)| == inputLeft + frames
      requires hasOutput ==> OutputPieceRoom(secondOut) == outputLeft + frames
      ensures InHand(secondIn, secondOut, inputLeft, outputLeft, frames, streamCallbackResult == Continue)
      ensures ChunkCalls(|log|, exact) && Chunked(log, |log|, framesPerTempBuffer, frames)
      ensures FramesAsked(log, |log|) == 0
    {
      hide InputLine, OutputLine, OnlyLastStops;
    }

    /**
     Simple copying without adaptation. Input goes to the callback in order, in
     chunks; what the callback no longer delivers is silence. All frames are used up,
     which the source leaves to its caller's counts.
     */
    method NonAdaptingProcess(secondIn: bool, secondOut: bool, framesToProcess: nat) returns (framesProcessed: nat)
      requires NonAdapting() && InputReady(secondIn, framesToProcess) && OutputReady(secondOut, framesToProcess)
      modifies this`log, this`streamCallbackResult, this`inputBufferAdcTime, this`outputBufferDacTime, this`base,
               this`silence, this`hostInput0, this`hostInput1, this`hostOutput0, this`hostOutput1,
               this`hostOutputFrameCount0, this`hostOutputFrameCount1
      ensures NonAdapting() && InputReady(secondIn, 0) && OutputReady(secondOut, 0)
      ensures framesProcessed == framesToProcess && old(log) <= log
      ensures ChunkCalls(|old(log)|, Whole(framesToProcess, framesPerTempBuffer))
      ensures Chunked(log, |old(log)|, framesPerTempBuffer, framesToProcess)
      ensures hasInput ==> |InputPiece(secondIn)| == old(|InputPiece(secondIn)|) - framesToProcess
      ensures hasOutput ==> OutputPieceRoom(secondOut) == old(OutputPieceRoom(secondOut)) - framesToProcess
      ensures InputPiece(!secondIn) == old(InputPiece(!secondIn))
      ensures OutputPieceRoom(!secondOut) == old(OutputPieceRoom(!secondOut))
      ensures OutputSizes() == old(OutputSizes())
    {
      hide *;
      EnoughInHand(secondIn, secondOut, framesToProcess);
      ghost var exact := Whole(framesToProcess, framesPerTempBuffer);
      var inputLeft := if hasInput then |InputPiece(secondIn)| - framesToProcess else 0;
      ghost var outputLeft := if hasOutput then OutputPieceRoom(secondOut) - framesToProcess else 0;
      var framesToGo: nat := framesToProcess;
      framesProcessed := 0;
      var again := streamCallbackResult == Continue;
      StartsInHand(secondIn, secondOut, inputLeft, outputLeft, framesToGo, exact);
      while again
        invariant InHand(secondIn, secondOut, inputLeft, outputLeft, framesToGo, again)
        invariant old(log) <= log && ChunkCalls(|old(log)|, exact)
        invariant framesProcessed + framesToGo == framesToProcess
        invariant Chunked(log, |old(log)|, framesPerTempBuffer, framesToProcess)
        invariant again ==> framesToGo == framesToProcess - FramesAsked(log, |old(log)|)
        invariant again && exact ==> Whole(framesToGo, framesPerTempBuffer)
        invariant InputPiece(!secondIn) == old(InputPiece(!secondIn))
        invariant OutputPieceRoom(!secondOut) == old(OutputPieceRoom(!secondOut))
        invariant OutputSizes() == old(OutputSizes())
        decreases framesToGo, again
      {
        var frameCount;
        frameCount, again := ChunkPass(secondIn, secondOut, inputLeft, outputLeft, framesToGo, |old(log)|, exact,
                                       framesToProcess);
        framesProcessed := framesProcessed + frameCount;
        framesToGo := framesToGo - frameCount;
      }
      FinishNonAdapting(secondIn, secondOut, inputLeft, outputLeft, framesToGo);
      framesProcessed := framesProcessed + framesToGo;
    }

    /**
     Full-duplex processing without adaptation, for any split of equal, non-empty
     totals: the loop takes the shorter of the two current pieces each time.
     */
    method SpliceNonAdapting() returns (framesProcessed: nat)
      requires NonAdapting() && hasInput && hasOutput && InputLine() && OutputLine()
      requires |HostInput()| == Room() > 0 && hostOutput1 == []
      modifies this`log, this`streamCallbackResult, this`inputBufferAdcTime, this`outputBufferDacTime, this`base,
               this`silence, this`hostInput0, this`hostInput1, this`hostOutput0, this`hostOutput1,
               this`hostOutputFrameCount0, this`hostOutputFrameCount1
      ensures NonAdapting() && InputLine() && OutputLine() && old(log) <= log
      ensures HostInput() == [] && Room() == 0 && framesProcessed == old(Room())
      ensures ChunkCalls(|old(log)|, false)
      ensures OutputSizes() == old(OutputSizes())
    {
      hide Presented, Produced, OnlyLastStops, InputLine, OutputLine;
      framesProcessed := 0;
      var framesToGo := hostOutputFrameCount0 + hostOutputFrameCount1;
      var again := true;
      while again
        invariant NonAdapting() && InputLine() && OutputLine() && old(log) <= log && ChunkCalls(|old(log)|, false)
        invariant framesToGo == |HostInput()| == Room() && framesProcessed + framesToGo == old(Room())
        invariant again <==> framesToGo > 0
        invariant hostOutputFrameCount0 > 0 ==> hostOutput1 == []
        invariant OutputSizes() == old(OutputSizes())
        decreases framesToGo
      {
        var secondIn, secondOut := |hostInput0| == 0, hostOutputFrameCount0 == 0;
        var framesToProcess := Min(|InputPiece(secondIn)|, OutputPieceRoom(secondOut));
        assert framesToProcess != 0;
        var processed := NonAdaptingProcess(secondIn, secondOut, framesToProcess);
        framesProcessed := framesProcessed + processed;
        framesToGo := framesToGo - processed;
        again := framesToGo > 0;
      }
    }

    /** What each mode needs when PaUtil_EndBufferProcessing is called. */
    ghost predicate Ready() reads this, tempInputBuffer, tempOutputBuffer {
      && (hasInput || hasOutput) && hostOutput1 == []
      && (hasInput && hasOutput ==> |HostInput()| == Room() && (useNonAdaptingProcess ==> Room() > 0))
      && Between()
      && (Duplex() ==>
            && TimeLine() && callsBefore == |log|
            && framesInTempInputBuffer + framesInTempOutputBuffer <= framesPerUserBuffer)
    }

    /** Half-duplex with adaptation: the first piece, then the second if there is one. */
    method HalfDuplexAdapting() returns (framesProcessed: nat)
      requires Between() && !useNonAdaptingProcess && hasInput != hasOutput && hostOutput1 == []
      modifies this`log, this`streamCallbackResult, this`inputBufferAdcTime, this`outputBufferDacTime,
               this`framesInTempInputBuffer, this`framesInTempOutputBuffer, this`base, this`silence,
               this`hostInput0, this`hostInput1, this`hostOutput0, this`hostOutput1,
               this`hostOutputFrameCount0, this`hostOutputFrameCount1, tempInputBuffer, tempOutputBuffer
      ensures Between() && old(log) <= log
      ensures hasInput ==> HostInput() == [] && framesProcessed == old(|HostInput()|)
      ensures hasOutput ==> framesProcessed == old(Room()) && Room() == 0 && OutputSizes() == old(OutputSizes())
    {
      hide InputLine, OutputLine, OnlyLastStops, FullCalls, OutputSizes;
      if hasInput {
        framesProcessed := AdaptingInputOnlyProcess(false);
        if |hostInput1| > 0 {
          var more := AdaptingInputOnlyProcess(true);
          framesProcessed := framesProcessed + more;
        }
      } else {
        framesProcessed := AdaptingOutputOnlyProcess(false);
        if hostOutputFrameCount1 > 0 {
          var more := AdaptingOutputOnlyProcess(true);
          framesProcessed := framesProcessed + more;
        }
      }
    }

    /** Half-duplex without adaptation: the first piece, then the second if there is one. */
    method HalfDuplexNonAdapting() returns (framesProcessed: nat)
      requires Between() && useNonAdaptingProcess && hasInput != hasOutput && hostOutput1 == []
      modifies this`log, this`streamCallbackResult, this`inputBufferAdcTime, this`outputBufferDacTime, this`base,
               this`silence, this`hostInput0, this`hostInput1, this`hostOutput0, this`hostOutput1,
               this`hostOutputFrameCount0, this`hostOutputFrameCount1
      ensures Between() && old(log) <= log
      ensures hasInput ==> HostInput() == [] && framesProcessed == old(|HostInput()|)
      ensures hasOutput ==> framesProcessed == old(Room()) && Room() == 0
      ensures OutputSizes() == old(OutputSizes())
    {
      hide InputLine, OutputLine, OnlyLastStops, ChunkCalls, OutputSizes, Whole;
      var framesToProcess := if hasInput then |hostInput0| else hostOutputFrameCount0;
      framesProcessed := NonAdaptingProcess(false, false, framesToProcess);
      framesToProcess := if hasInput then |hostInput1| else hostOutputFrameCount1;
      if framesToProcess > 0 {
        var more := NonAdaptingProcess(true, true, framesToProcess);
        framesProcessed := framesProcessed + more;
      }
    }

    /**
     PaUtil_EndBufferProcessing: the mode decides how the host's buffers are
     processed. All input is consumed, and all output is filled except for what
     Unfilled says of a full-duplex adapting stream.
     */
    method EndBufferProcessing() returns (framesProcessed: nat)
      requires Ready()
      modifies this`log, this`streamCallbackResult, this`inputBufferAdcTime, this`outputBufferDacTime,
               this`framesInTempInputBuffer, this`framesInTempOutputBuffer, this`base, this`silence,
               this`hostInput0, this`hostInput1, this`hostOutput0, this`hostOutput1,
               this`hostOutputFrameCount0, this`hostOutputFrameCount1, tempInputBuffer, tempOutputBuffer
      ensures Between()
      ensures hasInput ==> HostInput() == [] && framesProcessed == old(|HostInput()|)
      ensures hasOutput ==> framesProcessed == old(Room()) && OutputSizes() == old(OutputSizes())
      ensures hasOutput && !Duplex() ==> Room() == 0
      ensures old(log) <= log && (Duplex() ==> TimeLine() && (framesInTempOutputBuffer == 0 || Room() == 0))
      ensures Duplex() ==> Room() == Unfilled(old(framesInTempInputBuffer + framesInTempOutputBuffer))
      ensures Duplex() && AbortedOnLastFrame() ==>
        Aligned(old(framesInTempInputBuffer + |HostInput()|), framesPerUserBuffer)
      ensures Duplex() && (!HasStopped() || framesInTempOutputBuffer > 0) ==>
        framesInTempInputBuffer + framesInTempOutputBuffer - Room()
          == old(framesInTempInputBuffer + framesInTempOutputBuffer)
    {
      hide InputLine, OutputLine, OnlyLastStops, TimeLine, FullCalls, ChunkCalls;
      if useNonAdaptingProcess {
        if hasInput && hasOutput {
          framesProcessed := SpliceNonAdapting();
        } else {
          framesProcessed := HalfDuplexNonAdapting();
        }
      } else if hasInput && hasOutput {
        framesProcessed := AdaptingProcess();
      } else {
        framesProcessed := HalfDuplexAdapting();
      }
    }

    ghost predicate Acceptable(frames: nat) {
      hostBufferSizeMode == FixedSize ==> frames == framesPerHostBuffer
    }

    /** The history of the earlier blocks is closed when a block begins. */
    ghost method BeginHistory(adc: real, dac: real, input: seq<T>)
      modifies this`stream, this`playedBefore, this`gap, this`block, this`callsBefore
      ensures stream == old(stream) + input && playedBefore == old(Played()) && gap == old(Missing())
      ensures block == Block(adc, dac, |old(stream)|, |old(Played())|) && callsBefore == |log|
    {
      block, callsBefore := Block(adc, dac, |stream|, |Played()|), |log|;
      stream, playedBefore, gap := stream + input, Played(), Missing();
    }

    /** The times of the first frames that are still to be read and made. */
    method SetTimes(adc: real, dac: real)
      modifies this`inputBufferAdcTime, this`outputBufferDacTime
      ensures inputBufferAdcTime == adc - Duration(framesInTempInputBuffer, samplePeriod)
      ensures outputBufferDacTime == dac + Duration(framesInTempOutputBuffer, samplePeriod)
      ensures inputBufferAdcTime == adc - framesInTempInputBuffer as real * samplePeriod
      ensures outputBufferDacTime == dac + framesInTempOutputBuffer as real * samplePeriod
    {
      inputBufferAdcTime := adc - Duration(framesInTempInputBuffer, samplePeriod);
      outputBufferDacTime := dac + Duration(framesInTempOutputBuffer, samplePeriod);
    }

    /**
     PaUtil_BeginBufferProcessing and the calls that tell the processor about the
     host's buffers: `adc` and `dac` are the times of their first frames.
     */
    method BeginBufferProcessing(adc: real, dac: real, input0: seq<T>, input1: seq<T>, frames0: nat, frames1: nat)
      requires hasInput ==> HostInput() == []
      modifies this`inputBufferAdcTime, this`outputBufferDacTime, this`hostInput0, this`hostInput1,
               this`hostOutput0, this`hostOutput1, this`hostOutputFrameCount0, this`hostOutputFrameCount1,
               this`stream, this`playedBefore, this`gap, this`block, this`callsBefore
      ensures inputBufferAdcTime == adc - Duration(framesInTempInputBuffer, samplePeriod)
      ensures outputBufferDacTime == dac + Duration(framesInTempOutputBuffer, samplePeriod)
      ensures inputBufferAdcTime == adc - framesInTempInputBuffer as real * samplePeriod
      ensures outputBufferDacTime == dac + framesInTempOutputBuffer as real * samplePeriod
      ensures hostInput0 == input0 && hostInput1 == input1 && hostOutput0 == hostOutput1 == []
      ensures hostOutputFrameCount0 == frames0 && hostOutputFrameCount1 == frames1
      ensures stream == old(stream) + (input0 + input1) && playedBefore == old(Played()) && gap == old(Missing())
      ensures block == Block(adc, dac, |old(stream)|, |old(Played())|) && callsBefore == |log|
    {
      SetTimes(adc, dac);
      hide Duration;
      BeginHistory(adc, dac, input0 + input1);
      hostInput0, hostInput1 := input0, input1;
      hostOutput0, hostOutput1 := [], [];
      hostOutputFrameCount0, hostOutputFrameCount1 := frames0, frames1;
    }

    lemma StreamingIsAdapting()
      requires Streaming()
      ensures Adapting() && Duplex() && Enough() && framesInTempInputBuffer < framesPerUserBuffer
      ensures initialFramesInTempInputBuffer <= |stream| && |stream| % CommonUnit() == 0
      ensures stream[..initialFramesInTempInputBuffer] == Zeros(zero, initialFramesInTempInputBuffer)
      ensures |Played()| + Missing() == |stream| - initialFramesInTempInputBuffer
      ensures !HasStopped() || framesInTempOutputBuffer > 0 ==>
        framesInTempInputBuffer + framesInTempOutputBuffer == Prefill() && Missing() == 0
      ensures Missing() > 0 ==>
        Missing() == framesPerUserBuffer - Prefill() && LastResult(callback, log) == Abort
      ensures framesInTempInputBuffer + framesInTempOutputBuffer <= framesPerUserBuffer
    {
    }

    /** The input line of a stream between blocks, which has this history. */
    ghost predicate InputOpen(was: seq<T>) reads this`framesInTempInputBuffer, this`log, this`base, tempInputBuffer {
      && framesInTempInputBuffer <= tempInputBuffer.Length
      && base <= |was| && was[base..] == Gathered()
      && |Presented(log)| <= base && Presented(log) == was[..|Presented(log)|]
      && (!HasStopped() ==> |Presented(log)| == base)
    }

    /** The output line of a stream between blocks, of which this was played. */
    ghost predicate OutputOpen(played: seq<T>)
      reads this`framesInTempOutputBuffer, this`log, this`silence, tempOutputBuffer
    {
      && framesInTempOutputBuffer <= tempOutputBuffer.Length
      && played + Pending() == Line(log) + Zeros(zero, silence)
      && (silence > 0 ==> framesInTempOutputBuffer == 0 && HasStopped())
    }

    lemma OpenInput()
      requires InputLine() && HostInput() == []
      ensures InputOpen(stream)
      ensures !HasStopped() ==> |Presented(log)| == |stream| - framesInTempInputBuffer
    {
      hide Presented, OnlyLastStops;
      assert Gathered() + [] == Gathered();
    }

    lemma OpenOutput()
      requires OutputLine()
      ensures OutputOpen(Played())
      ensures |Played()| + framesInTempOutputBuffer == |Line(log)| + silence
    {
      hide Produced, OnlyLastStops;
      Regroup(playedBefore, Written(), Pending());
    }

    lemma BaseOf(was: seq<T>)
      requires InputOpen(was)
      ensures base == |was| - framesInTempInputBuffer
    {
      hide Presented, OnlyLastStops;
    }

    lemma InputLineAgain(was: seq<T>)
      requires InputOpen(was) && stream == was + HostInput()
      ensures InputLine()
    {
      hide Presented, OnlyLastStops;
    }

    lemma OutputLineAgain()
      requires OutputOpen(playedBefore) && Written() == []
      ensures OutputLine()
    {
      hide Produced, OnlyLastStops;
      assert [] + Pending() == Pending();
    }

    /** A block that has just begun: nothing is read or written yet. */
    lemma SizesAtStart()
      requires hostOutput0 == hostOutput1 == []
      ensures Written() == [] && HostInput() == hostInput0 + hostInput1
      ensures Room() == hostOutputFrameCount0 + hostOutputFrameCount1
      ensures OutputSizes() == (hostOutputFrameCount0, hostOutputFrameCount1)
    {
    }

    /** A stream between blocks is ready for AdaptingProcess once a block has begun. */
    method BeginDuplexBlock(adc: real, dac: real, input0: seq<T>, input1: seq<T>, frames0: nat, frames1: nat)
      requires Adapting()
      modifies this`inputBufferAdcTime, this`outputBufferDacTime, this`hostInput0, this`hostInput1,
               this`hostOutput0, this`hostOutput1, this`hostOutputFrameCount0, this`hostOutputFrameCount1,
               this`stream, this`playedBefore, this`gap, this`block, this`callsBefore
      ensures Shape() && Lines() && callsBefore == |log|
      ensures framesInTempInputBuffer + framesInTempOutputBuffer <= framesPerUserBuffer
      ensures hostInput0 == input0 && hostInput1 == input1 && Written() == []
      ensures hostOutputFrameCount0 == frames0 && hostOutputFrameCount1 == frames1
      ensures stream == old(stream) + (input0 + input1) && playedBefore == old(Played()) && gap == old(Missing())
      ensures block == Block(adc, dac, |old(stream)|, |old(Played())|)
      ensures |playedBefore| + framesInTempOutputBuffer == |Line(log)| + silence && (silence > 0 ==> HasStopped())
    {
      hide OnlyLastStops, Presented, Produced, FullCalls, TimeAt, Duration;
      ghost var was := stream;
      OpenInput();
      OpenOutput();
      hide InputLine, OutputLine, InputOpen, OutputOpen;
      BeginBufferProcessing(adc, dac, input0, input1, frames0, frames1);
      InputLineAgain(was);
      OutputLineAgain();
      assert StampsOk(callback, log, callsBefore, block, initialFramesInTempOutputBuffer, samplePeriod);
      if !HasStopped() {
        StartTimes(adc, |was|, framesInTempInputBuffer, dac, |playedBefore|, framesInTempOutputBuffer, samplePeriod);
        assert base == |was| - framesInTempInputBuffer by { BaseOf(was); }
      }
    }

    /**
     The times of one call of the block in seconds, counted in frames from the times
     that the host gave for the first frames of the block, and the delay between them.
     */
    ghost predicate TimesRight(j: nat)
      requires j < |log|
      reads this`log, this`block
    {
      && log[j].dac - log[j].adc == block.dac - block.adc + Prefill() as real * samplePeriod
      && log[j].adc == block.adc + (j * framesPerUserBuffer - block.inputStart) as real * samplePeriod
      && log[j].dac == block.dac
           + (initialFramesInTempOutputBuffer + j * framesPerUserBuffer - block.outputStart) as real * samplePeriod
    }

    lemma TimesOfCall(j: nat)
      requires j < |log| && FullCalls(log, framesPerUserBuffer) && OnlyLastStops(callback, log)
      requires StampOk(callback, log, j, block, initialFramesInTempOutputBuffer, samplePeriod)
      requires initialFramesInTempOutputBuffer + block.inputStart - block.outputStart == Prefill()
      ensures TimesRight(j)
    {
      StampTimes(callback, log, j, framesPerUserBuffer, block, initialFramesInTempOutputBuffer, samplePeriod);
      DelayIsPrefill(callback, log, j, framesPerUserBuffer, block, initialFramesInTempOutputBuffer, samplePeriod);
      hide FullCalls, OnlyLastStops, StampOk;
    }

    /** The calls of a block are all delayed by the total prefill. */
    lemma NewCallsDelay(from: nat)
      requires Streaming() && StampsOk(callback, log, from, block, initialFramesInTempOutputBuffer, samplePeriod)
      requires from < |log| ==> block.inputStart - block.outputStart == initialFramesInTempInputBuffer
      ensures forall j :: from <= j < |log| ==> TimesRight(j)
    {
      assert FullCalls(log, framesPerUserBuffer) && OnlyLastStops(callback, log);
      assert from < |log| ==> initialFramesInTempOutputBuffer + block.inputStart - block.outputStart == Prefill();
      hide Streaming, FullCalls, OnlyLastStops, StampOk, Duration, Prefill, TimesRight;
      forall j | from <= j < |log| ensures TimesRight(j) {
        assert StampOk(callback, log, j, block, initialFramesInTempOutputBuffer, samplePeriod);
        TimesOfCall(j);
      }
    }

    /** The times of one call and the next differ by one user block. */
    lemma NextCallTimes(j: nat)
      requires j + 1 < |log| && TimesRight(j) && TimesRight(j + 1)
      ensures log[j + 1].adc - log[j].adc == framesPerUserBuffer as real * samplePeriod
      ensures log[j + 1].dac - log[j].dac == framesPerUserBuffer as real * samplePeriod
    {
      var n := framesPerUserBuffer;
      Distribute(j, 1, n);
      LaterBy(j * n - block.inputStart, n, samplePeriod);
      LaterBy(initialFramesInTempOutputBuffer + j * n - block.outputStart, n, samplePeriod);
    }

    lemma UnfoldTimes(from: nat)
      requires forall j :: from <= j < |log| ==> TimesRight(j)
      ensures forall j :: from <= j < |log| ==>
        log[j].dac - log[j].adc == block.dac - block.adc + Prefill() as real * samplePeriod
    {
      hide Prefill;
      forall j | from <= j < |log|
        ensures log[j].dac - log[j].adc == block.dac - block.adc + Prefill() as real * samplePeriod
      {
        assert TimesRight(j);
      }
    }

    /**
     A block of this many frames has begun after a history with these input frames,
     calls, unfilled frames, fills of the two temporary buffers and frames of silence.
     Processing the block changes nothing of this.
     */
    ghost predicate Opened(was: seq<T>, calls: seq<Call<T>>, missed: nat, input: nat, output: nat, silent: nat,
                           frames: nat)
      reads this`stream, this`playedBefore, this`gap, this`block, this`callsBefore
    {
      && Duplex() && Enough() && Acceptable(frames)
      && initialFramesInTempInputBuffer <= |was| && was <= stream && |stream| == |was| + frames
      && was[..initialFramesInTempInputBuffer] == Zeros(zero, initialFramesInTempInputBuffer)
      && |was| % CommonUnit() == 0 && input + output <= framesPerUserBuffer
      && gap == missed && |playedBefore| + missed == |was| - initialFramesInTempInputBuffer
      && (!Stopped(callback, calls) || output > 0 ==> input + output == Prefill() && missed == 0)
      && |playedBefore| + output == |Line(calls)| + silent && (silent > 0 ==> Stopped(callback, calls))
      && (missed > 0 ==> missed == framesPerUserBuffer - Prefill() && LastResult(callback, calls) == Abort)
      && callsBefore == |calls| && block.inputStart == |was| && block.outputStart == |playedBefore|
    }

    /** BeginDuplexBlock in a stream that satisfies its invariant. */
    method OpenDuplexBlock(adc: real, dac: real, input0: seq<T>, input1: seq<T>, frames0: nat, frames1: nat)
      requires Streaming()
      requires |input0| + |input1| == frames0 + frames1 && Acceptable(frames0 + frames1)
      modifies this`inputBufferAdcTime, this`outputBufferDacTime, this`hostInput0, this`hostInput1,
               this`hostOutput0, this`hostOutput1, this`hostOutputFrameCount0, this`hostOutputFrameCount1,
               this`stream, this`playedBefore, this`gap, this`block, this`callsBefore
      ensures Shape() && Lines() && Duplex() && framesInTempInputBuffer < framesPerUserBuffer
      ensures framesInTempInputBuffer + framesInTempOutputBuffer <= framesPerUserBuffer
      ensures |HostInput()| == frames0 + frames1 && Written() == []
      ensures hostOutputFrameCount0 == frames0 && hostOutputFrameCount1 == frames1
      ensures stream == old(stream) + (input0 + input1) && playedBefore == old(Played())
      ensures block == Block(adc, dac, |old(stream)|, |old(Played())|) && callsBefore == |log|
      ensures Opened(old(stream), log, old(Missing()), framesInTempInputBuffer, framesInTempOutputBuffer, silence,
                     frames0 + frames1)
    {
      hide OnlyLastStops, InputLine, OutputLine, TimeLine, FullCalls, Presented, Produced, Aligned, Granule, Zeros;
      StreamingIsAdapting();
      hide Streaming, BufferProcessor.Adapting;
      BeginDuplexBlock(adc, dac, input0, input1, frames0, frames1);
    }

    /** What AdaptingProcess leaves is the invariant again. */
    lemma FinishDuplexBlock(was: seq<T>, calls: seq<Call<T>>, missed: nat, input: nat, output: nat, silent: nat,
                            frames: nat)
      requires Opened(was, calls, missed, input, output, silent, frames)
      requires Shape() && HostInput() == [] && Lines() && framesInTempInputBuffer < framesPerUserBuffer && calls <= log
      requires framesInTempOutputBuffer == 0 || Room() == 0
      requires |Written()| + Room() == frames && Room() == Unfilled(input + output)
      requires !HasStopped() || framesInTempOutputBuffer > 0 ==>
        framesInTempInputBuffer + framesInTempOutputBuffer - Room() == input + output
      ensures Streaming()
      ensures Room() == if AbortedOnLastFrame() then framesPerUserBuffer - Prefill() else 0
      ensures hostBufferSizeMode != FixedSize ==> Room() == 0
      ensures Stopped(callback, calls) ==> log == calls
      ensures StampsOk(callback, log, |calls|, block, initialFramesInTempOutputBuffer, samplePeriod)
      ensures |calls| < |log| ==> block.inputStart - block.outputStart == initialFramesInTempInputBuffer
    {
      hide Presented, Produced, TimeAt, Duration;
      assert log[..|calls|] == calls;
      if |log| == |calls| { assert log == calls; }
      assert Stopped(callback, calls) ==> log == calls;
      GranuleDivides(hostBufferSizeMode == FixedSize, framesPerHostBuffer, framesPerUserBuffer);
      MultiplesAdd(|was|, frames, CommonUnit());
      FillFits(|stream|, framesPerUserBuffer, CommonUnit());
      FillIsResidue(base, framesInTempInputBuffer, framesPerUserBuffer);
      assert stream[..initialFramesInTempInputBuffer] == was[..initialFramesInTempInputBuffer];
    }

    /** EndBufferProcessing in full-duplex adaptation, after a block with these two output pieces has begun. */
    method EndDuplexBlock(frames0: nat, frames1: nat) returns (framesProcessed: nat)
      requires Duplex() && Shape() && Lines() && callsBefore == |log| && framesInTempInputBuffer < framesPerUserBuffer
      requires framesInTempInputBuffer + framesInTempOutputBuffer <= framesPerUserBuffer
      requires |HostInput()| == frames0 + frames1 && Written() == []
      requires hostOutputFrameCount0 == frames0 && hostOutputFrameCount1 == frames1
      modifies this`log, this`streamCallbackResult, this`inputBufferAdcTime, this`outputBufferDacTime,
               this`framesInTempInputBuffer, this`framesInTempOutputBuffer, this`base, this`silence,
               this`hostInput0, this`hostInput1, this`hostOutput0, this`hostOutput1,
               this`hostOutputFrameCount0, this`hostOutputFrameCount1, tempInputBuffer, tempOutputBuffer
      ensures Shape() && Lines() && framesInTempInputBuffer < framesPerUserBuffer && old(log) <= log
      ensures HostInput() == [] && framesProcessed == frames0 + frames1
      ensures OutputSizes() == (frames0, frames1) && |Written()| + Room() == frames0 + frames1
      ensures framesInTempOutputBuffer == 0 || Room() == 0
      ensures Room() == Unfilled(old(framesInTempInputBuffer + framesInTempOutputBuffer))
      ensures AbortedOnLastFrame() ==> Aligned(old(framesInTempInputBuffer) + frames0 + frames1, framesPerUserBuffer)
      ensures !HasStopped() || framesInTempOutputBuffer > 0 ==>
        framesInTempInputBuffer + framesInTempOutputBuffer - Room()
          == old(framesInTempInputBuffer + framesInTempOutputBuffer)
    {
      hide OnlyLastStops, InputLine, OutputLine, TimeLine, FullCalls, Presented, Aligned;
      hide BufferProcessor.Unfilled, BufferProcessor.AbortedOnLastFrame;
      framesProcessed := EndBufferProcessing();
    }

    lemma UnfoldLine()
      ensures Line(log) == Zeros(zero, initialFramesInTempOutputBuffer) + Produced(callback, log)
      ensures HasStopped() == Stopped(callback, log)
      ensures Prefill() == initialFramesInTempInputBuffer + initialFramesInTempOutputBuffer
    {
    }

    /**
     One host block of a full-duplex adapting stream, for any split of its input and
     of its output in two pieces and any callback. All input is consumed, and all
     output is filled unless the callback aborts on the last frame of the block.
     */
    method ProcessDuplexBlock(adc: real, dac: real, input0: seq<T>, input1: seq<T>, frames0: nat, frames1: nat)
        returns (framesProcessed: nat)
      requires Streaming()
      requires |input0| + |input1| == frames0 + frames1 && Acceptable(frames0 + frames1)
      modifies this, tempInputBuffer, tempOutputBuffer
      ensures Streaming() && framesProcessed == frames0 + frames1
      ensures stream == old(stream) + (input0 + input1) && playedBefore == old(Played())
      ensures Room() == if AbortedOnLastFrame() then framesPerUserBuffer - Prefill() else 0
      ensures AbortedOnLastFrame() ==> Aligned(old(framesInTempInputBuffer) + frames0 + frames1, framesPerUserBuffer)
      ensures hostBufferSizeMode != FixedSize ==> Room() == 0
      ensures OutputSizes() == (frames0, frames1)
      ensures old(log) <= log && callsBefore == |old(log)| && (old(HasStopped()) ==> log == old(log))
      ensures block == Block(adc, dac, |old(stream)|, |old(Played())|)
      ensures StampsOk(callback, log, |old(log)|, block, initialFramesInTempOutputBuffer, samplePeriod)
      ensures forall j :: |old(log)| <= j < |log| ==>
        log[j].dac - log[j].adc == dac - adc + Prefill() as real * samplePeriod
      ensures forall j :: |old(log)| <= j < |log| ==> TimesRight(j)
    {
      hide *;
      UnfoldLine();
      ghost var was, calls, missed, silent := stream, log, Missing(), silence;
      ghost var input, output := framesInTempInputBuffer, framesInTempOutputBuffer;
      OpenDuplexBlock(adc, dac, input0, input1, frames0, frames1);
      framesProcessed := EndDuplexBlock(frames0, frames1);
      FinishDuplexBlock(was, calls, missed, input, output, silent, frames0 + frames1);
      NewCallsDelay(|old(log)|);
      UnfoldTimes(|old(log)|);
    }

    lemma OneDirection()
      requires OtherMode()
      ensures !Duplex() && (hasInput || hasOutput)
    {
    }

    lemma FinishOtherBlock(frames0: nat, frames1: nat)
      requires OtherMode() && Between() && (hasInput ==> HostInput() == [])
      requires hasOutput ==> Room() == 0 && OutputSizes() == (frames0, frames1)
      requires hasInput && hasOutput ==> |playedBefore| + frames0 + frames1 == |stream|
      ensures Running()
    {
      hide InputLine, OutputLine, OnlyLastStops, FullCalls, TimeAt, InputStamps, OutputStamps;
    }

    /** The other times of the calls of a block. */
    lemma OtherTimes()
      requires OtherMode() && Between()
      ensures hasInput ==> InputStamps(log, callsBefore, block, samplePeriod)
      ensures hasOutput ==> OutputStamps(callback, log, callsBefore, block, samplePeriod)
      ensures !useNonAdaptingProcess && !hasOutput ==> forall j :: callsBefore <= j < |log| ==> log[j].dac == 0.0
      ensures !useNonAdaptingProcess && !hasInput ==> forall j :: callsBefore <= j < |log| ==>
        log[j].adc == 0.0 && log[j].frames == framesPerUserBuffer && log[j].input == []
      ensures useNonAdaptingProcess ==> forall j :: callsBefore <= j < |log| ==>
        log[j].dac - log[j].adc == block.dac - block.adc
    {
      hide InputLine, OutputLine, OnlyLastStops, FullCalls, TimeAt, InputStamps, OutputStamps;
    }

    /** The times at the start of a block are those of the first frames still to be read and made. */
    lemma TimesAtStart()
      requires OtherMode() && callsBefore == |log|
      requires inputBufferAdcTime == block.adc - Duration(framesInTempInputBuffer, samplePeriod)
      requires outputBufferDacTime == block.dac + Duration(framesInTempOutputBuffer, samplePeriod)
      requires useNonAdaptingProcess ==> framesInTempInputBuffer == framesInTempOutputBuffer == 0
      requires hasInput && !HasStopped() ==> |Presented(log)| == block.inputStart - framesInTempInputBuffer
      requires hasOutput && !HasStopped() ==> |Line(log)| == block.outputStart + framesInTempOutputBuffer
      ensures Times()
    {
      hide Presented, Produced, Stopped;
      StartTimes(block.adc, block.inputStart, framesInTempInputBuffer,
                 block.dac, block.outputStart, framesInTempOutputBuffer, samplePeriod);
      DurationIs(0, samplePeriod);
      hide Duration, TimeAt;
    }

    /** What Between says of the fields that no block start touches. */
    ghost predicate OtherState()
      reads this`framesInTempInputBuffer, this`framesInTempOutputBuffer, this`log, this`streamCallbackResult, this`base
    {
      && LogLine() && (useNonAdaptingProcess ==> Unbuffered())
      && (!useNonAdaptingProcess ==>
            && framesPerUserBuffer > 0 && tempInputBuffer != tempOutputBuffer
            && tempInputBuffer.Length == tempOutputBuffer.Length == framesPerUserBuffer
            && framesInTempInputBuffer <= framesPerUserBuffer && framesInTempOutputBuffer <= framesPerUserBuffer)
      && (!useNonAdaptingProcess && hasInput ==>
            && FullCalls(log, framesPerUserBuffer)
            && Aligned(base, framesPerUserBuffer) && framesInTempInputBuffer < framesPerUserBuffer)
    }

    /** What another stream keeps while a block begins. */
    lemma BeforeOtherBlock()
      requires Running()
      ensures OtherMode() && OtherState() && (hasInput ==> HostInput() == [])
      ensures hasInput ==> InputOpen(stream)
      ensures hasOutput ==> OutputOpen(Played())
      ensures hasInput && hasOutput ==> |Played()| == |stream|
      ensures useNonAdaptingProcess ==> framesInTempInputBuffer == framesInTempOutputBuffer == 0
      ensures hasInput && !HasStopped() ==> |Presented(log)| == |stream| - framesInTempInputBuffer
      ensures hasOutput && !HasStopped() ==> |Line(log)| == |Played()| + framesInTempOutputBuffer
    {
      hide OnlyLastStops, Presented, Produced, FullCalls, TimeAt, InTimes, OutTimes;
      if hasInput { OpenInput(); }
      if hasOutput { OpenOutput(); }
    }

    lemma OtherIsReady()
      requires OtherMode() && OtherState() && Times() && hostOutput1 == []
      requires hasInput ==> InputLine()
      requires hasOutput ==> OutputLine()
      requires hasInput && hasOutput ==> |HostInput()| == Room() > 0
      ensures Ready()
    {
      hide LogLine, InputLine, OutputLine, InTimes, OutTimes, FullCalls;
    }

    /** Another stream is ready for EndBufferProcessing once a block has begun. */
    method BeginOtherBlock(adc: real, dac: real, input0: seq<T>, input1: seq<T>, frames0: nat, frames1: nat)
      requires Running()
      requires hasInput && hasOutput ==> |input0| + |input1| == frames0 + frames1 > 0
      modifies this`inputBufferAdcTime, this`outputBufferDacTime, this`hostInput0, this`hostInput1,
               this`hostOutput0, this`hostOutput1, this`hostOutputFrameCount0, this`hostOutputFrameCount1,
               this`stream, this`playedBefore, this`gap, this`block, this`callsBefore
      ensures Ready() && OtherMode()
      ensures HostInput() == input0 + input1 && Room() == frames0 + frames1 && OutputSizes() == (frames0, frames1)
      ensures stream == old(stream) + (input0 + input1) && playedBefore == old(Played())
      ensures hasInput && hasOutput ==> |playedBefore| + frames0 + frames1 == |stream|
      ensures block == Block(adc, dac, |old(stream)|, |old(Played())|) && callsBefore == |log|
    {
      hide *;
      BeforeOtherBlock();
      ghost var was, input, output := stream, framesInTempInputBuffer, framesInTempOutputBuffer;
      BeginBufferProcessing(adc, dac, input0, input1, frames0, frames1);
      SizesAtStart();
      if hasInput { InputLineAgain(was); }
      if hasOutput { OutputLineAgain(); }
      TimesAtStart();
      OtherIsReady();
    }

    /** One host block of a half-duplex stream, or of a full-duplex stream without adaptation. */
    method ProcessOtherBlock(adc: real, dac: real, input0: seq<T>, input1: seq<T>, frames0: nat, frames1: nat)
        returns (framesProcessed: nat)
      requires Running()
      requires hasInput && hasOutput ==> |input0| + |input1| == frames0 + frames1 > 0
      modifies this, tempInputBuffer, tempOutputBuffer
      ensures Running() && old(log) <= log
      ensures framesProcessed == if hasInput then |input0| + |input1| else frames0 + frames1
      ensures stream == old(stream) + (input0 + input1) && playedBefore == old(Played())
      ensures hasOutput ==> OutputSizes() == (frames0, frames1)
      ensures block == Block(adc, dac, |old(stream)|, |old(Played())|)
      ensures hasInput ==> forall j :: |old(log)| <= j < |log| ==>
        log[j].adc == adc + (|Presented(log[..j])| - |old(stream)|) as real * samplePeriod
      ensures hasOutput ==> forall j :: |old(log)| <= j < |log| ==>
        log[j].dac == dac + (|Produced(callback, log[..j])| - |old(Played())|) as real * samplePeriod
      ensures !useNonAdaptingProcess && !hasOutput ==> forall j :: |old(log)| <= j < |log| ==> log[j].dac == 0.0
      ensures !useNonAdaptingProcess && !hasInput ==> forall j :: |old(log)| <= j < |log| ==>
        log[j].adc == 0.0 && log[j].frames == framesPerUserBuffer && log[j].input == []
      ensures useNonAdaptingProcess ==> forall j :: |old(log)| <= j < |log| ==>
        log[j].dac - log[j].adc == dac - adc
    {
      hide *;
      BeginOtherBlock(adc, dac, input0, input1, frames0, frames1);
      OneDirection();
      framesProcessed := EndBufferProcessing();
      FinishOtherBlock(frames0, frames1);
      OtherTimes();
      if hasInput { InputSeconds(log, callsBefore, block, samplePeriod); }
      if hasOutput { OutputSeconds(callback, log, callsBefore, block, samplePeriod); }
    }

    /**
     Without full-duplex adaptation nothing is delayed: user input is the host's input
     in order, short of an unfinished user block; host output is the user's output in
     order, followed by silence once the callback has stopped.
     */
    lemma NoDelay()
      requires Running()
      ensures hasInput ==> Presented(log) <= stream
      ensures hasInput && !HasStopped() ==> |stream| == |Presented(log)| + framesInTempInputBuffer
      ensures hasInput && !useNonAdaptingProcess ==> |Presented(log)| == |log| * framesPerUserBuffer
      ensures hasInput && !HasStopped() && !useNonAdaptingProcess ==> framesInTempInputBuffer < framesPerUserBuffer
      ensures hasInput && !HasStopped() && useNonAdaptingProcess ==> Presented(log) == stream
      ensures hasOutput ==> Played() <= Produced(callback, log) + Zeros(zero, silence) && (silence > 0 ==> HasStopped())
      ensures hasOutput && !HasStopped() ==> |Produced(callback, log)| == |Played()| + framesInTempOutputBuffer
    {
      if hasInput && !useNonAdaptingProcess { PresentedLength(log, framesPerUserBuffer); }
      if hasOutput {
        assert Zeros(zero, 0) + Produced(callback, log) == Produced(callback, log);
        Regroup(playedBefore, Written(), Pending());
      }
    }

    /**
     Adaptation only delays: user input is the input prefill and the host's input in
     order, cut in user blocks; host output is the output prefill and the user's
     output in order, followed by silence once the callback has stopped.
     */
    lemma PureDelay()
      requires Streaming()
      ensures Presented(log) <= stream && |Presented(log)| == |log| * framesPerUserBuffer
      ensures Played() <= Line(log) + Zeros(zero, silence) && (silence > 0 ==> HasStopped())
      ensures !HasStopped() ==> Played() <= Line(log) && |Played()| == |stream| - initialFramesInTempInputBuffer
      ensures !HasStopped() ==>
        |log| == |stream| / framesPerUserBuffer && framesInTempInputBuffer == |stream| % framesPerUserBuffer
    {
      PresentedLength(log, framesPerUserBuffer);
      Regroup(playedBefore, Written(), Pending());
      if !HasStopped() {
        assert Line(log) + Zeros(zero, silence) == Line(log);
        RemainderUnique(|stream|, framesPerUserBuffer, |log|, framesInTempInputBuffer);
      }
    }

    lemma StreamStart()
      requires Streaming()
      ensures initialFramesInTempInputBuffer <= |stream| && FullCalls(log, framesPerUserBuffer)
      ensures stream[..initialFramesInTempInputBuffer] == Zeros(zero, initialFramesInTempInputBuffer)
    {
    }

    /** A callback that echoes its input delays the host's input by exactly the total prefill. */
    lemma EchoDelay()
      requires Streaming() && Echoes(callback)
      ensures var host := stream[initialFramesInTempInputBuffer..];
        Played() <= Zeros(zero, Prefill()) + host && |Played()| == |host|
    {
      hide *;
      StreamStart();
      PureDelay();
      EchoProducesInput(callback, log, framesPerUserBuffer);
      UnfoldLine();
      EchoShift(zero, initialFramesInTempInputBuffer, initialFramesInTempOutputBuffer,
                stream, Presented(log), Played());
    }
  }
}
