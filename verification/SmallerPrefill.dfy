/**
 What happens to the adapting loop itself with less prefill than the source
 chooses: runs of a buffer processor that end with unfilled host output.
 */
module SmallerPrefill {
  import opened Calls
  import opened FrameShift
  import opened Adaptation
  import opened BufferProcessing

  /** A callback that goes on for ever. */
  ghost predicate NeverStops<T(!new)>(cb: Callback<T>) {
    forall log: seq<Call<T>> :: log != [] ==> cb(log).result == Continue
  }

  /** A callback that aborts whenever it is called. */
  ghost predicate AlwaysAborts<T(!new)>(cb: Callback<T>) {
    forall log: seq<Call<T>> :: log != [] ==> cb(log).result == Abort
  }

  /** One host block of silence, for a stream with any prefill. */
  method RunBlock<T(==,!new)>(bp: BufferProcessor<T>, frames: nat)
    requires bp.Adapting()
    modifies bp, bp.tempInputBuffer, bp.tempOutputBuffer
    ensures bp.Room() == 0 ==> bp.Adapting()
    ensures old(bp.log) <= bp.log && bp.LogLine() && FullCalls(bp.log, bp.framesPerUserBuffer) && bp.InputLine()
    ensures |bp.stream| == old(|bp.stream|) + frames && bp.HostInput() == []
    ensures bp.callsBefore == |old(bp.log)|
    ensures bp.Room() == bp.Unfilled(old(bp.framesInTempInputBuffer + bp.framesInTempOutputBuffer))
    ensures !bp.HasStopped() ==>
      var before := old(Fill(bp.framesInTempInputBuffer, bp.framesInTempOutputBuffer));
      && Fill(bp.framesInTempInputBuffer, bp.framesInTempOutputBuffer)
         == AfterBlock(before, frames, bp.framesPerUserBuffer)
      && bp.Room() == Lack(before, frames, bp.framesPerUserBuffer)
  {
    hide BufferProcessor.LogLine, BufferProcessor.InputLine, BufferProcessor.OutputLine, BufferProcessor.TimeLine;
    hide FullCalls, Aligned, OnlyLastStops, BufferProcessor.Unfilled, AfterBlock, Lack;
    bp.BeginDuplexBlock(0.0, 0.0, Zeros(bp.zero, frames), [], frames, 0);
    var _ := bp.AdaptingProcess();
  }

  lemma GoesOn<T(!new)>(bp: BufferProcessor<T>)
    requires NeverStops(bp.callback)
    ensures !bp.HasStopped()
  {
  }

  /**
   A total prefill below N - gcd(M, N), however divided: a run of host blocks of M
   frames, with a callback that never stops, ends with host output unfilled.
   */
  method StarveFixedBlocks<T(==,!new)>(bp: BufferProcessor<T>)
    requires bp.Adapting() && NeverStops(bp.callback) && bp.framesPerHostBuffer > 0
    requires bp.framesInTempInputBuffer + bp.framesInTempOutputBuffer
          < bp.framesPerUserBuffer - Gcd(bp.framesPerHostBuffer, bp.framesPerUserBuffer)
    modifies bp, bp.tempInputBuffer, bp.tempOutputBuffer
    ensures bp.Room() > 0
  {
    ghost var m, n := bp.framesPerHostBuffer, bp.framesPerUserBuffer;
    ghost var count := TooLittlePrefill(Fill(bp.framesInTempInputBuffer, bp.framesInTempOutputBuffer), m, n);
    hide BufferProcessor.Adapting, NeverStops, AfterBlock, Lack, BufferProcessor.Unfilled, FullCalls;
    var starved := false;
    while !starved
      invariant starved ==> bp.Room() > 0
      invariant !starved ==> bp.Adapting()
      invariant !starved ==>
        Starves(Fill(bp.framesInTempInputBuffer, bp.framesInTempOutputBuffer), Repeat(m, count), n)
      decreases !starved, count
    {
      assert count > 0 && Repeat(m, count)[1..] == Repeat(m, count - 1);
      GoesOn(bp);
      RunBlock(bp, bp.framesPerHostBuffer);
      GoesOn(bp);
      starved := bp.Room() > 0;
      count := count - 1;
    }
  }

  function Sum(blocks: seq<nat>): nat {
    if blocks == [] then 0 else Sum(blocks[..|blocks| - 1]) + blocks[|blocks| - 1]
  }

  lemma WholeRun(blocks: seq<nat>)
    ensures blocks[0..] == blocks == blocks[..|blocks|] && Sum(blocks[..0]) == 0 && Repeat(0, 0) == []
  {
  }

  lemma NextBlock(f: Fill, blocks: seq<nat>, i: nat, n: nat)
    requires i < |blocks| && n > 0 && !Starves(f, blocks[i..], n)
    ensures Lack(f, blocks[i], n) == 0 && !Starves(AfterBlock(f, blocks[i], n), blocks[i + 1..], n)
    ensures Sum(blocks[..i + 1]) == Sum(blocks[..i]) + blocks[i] && Repeat(0, i + 1) == Repeat(0, i) + [0]
  {
    assert blocks[i..][0] == blocks[i] && blocks[i..][1..] == blocks[i + 1..];
    assert blocks[..i + 1][..i] == blocks[..i];
  }

  /**
   A total prefill of at least N - g, however divided: no run of host blocks whose
   lengths are multiples of g, with a callback that never stops, has a block that ends
   with host output unfilled. With g = 1 these are all runs.
   */
  method RunBlocks<T(==,!new)>(bp: BufferProcessor<T>, blocks: seq<nat>, ghost g: nat) returns (unfilled: seq<nat>)
    requires bp.Adapting() && NeverStops(bp.callback)
    requires g > 0 && bp.framesPerUserBuffer % g == 0 && bp.framesInTempInputBuffer % g == 0 && AllMultiples(blocks, g)
    requires bp.framesInTempInputBuffer + bp.framesInTempOutputBuffer >= bp.framesPerUserBuffer - g
    modifies bp, bp.tempInputBuffer, bp.tempOutputBuffer
    ensures bp.Adapting() && |bp.stream| == old(|bp.stream|) + Sum(blocks)
    ensures unfilled == Repeat(0, |blocks|)
  {
    ghost var n := bp.framesPerUserBuffer;
    EnoughPrefill(Fill(bp.framesInTempInputBuffer, bp.framesInTempOutputBuffer), blocks, n, g);
    hide *;
    unfilled := [];
    WholeRun(blocks);
    for i := 0 to |blocks|
      invariant bp.Adapting() && |bp.stream| == old(|bp.stream|) + Sum(blocks[..i])
      invariant !Starves(Fill(bp.framesInTempInputBuffer, bp.framesInTempOutputBuffer), blocks[i..], n)
      invariant unfilled == Repeat(0, i)
    {
      GoesOn(bp);
      NextBlock(Fill(bp.framesInTempInputBuffer, bp.framesInTempOutputBuffer), blocks, i, n);
      RunBlock(bp, blocks[i]);
      GoesOn(bp);
      unfilled := unfilled + [bp.Room()];
    }
  }

  /**
   A total prefill below N: a host block whose last frame completes a user block
   ends with N minus the prefill frames unfilled, if the callback then aborts.
   */
  method AbortOnLastFrame<T(==,!new)>(bp: BufferProcessor<T>)
    requires bp.Adapting() && AlwaysAborts(bp.callback) && bp.log == []
    modifies bp, bp.tempInputBuffer, bp.tempOutputBuffer
    ensures bp.Room() == bp.framesPerUserBuffer - old(bp.framesInTempInputBuffer + bp.framesInTempOutputBuffer)
  {
    var frames := bp.framesPerUserBuffer - bp.framesInTempInputBuffer;
    RunBlock(bp, frames);
  }

  /** Every prefill of at least N - 1 can be seen to do for any run of host blocks. */
  method PlayWithPrefill(n: nat, blocks: seq<nat>, inputPrefill: nat, outputPrefill: nat) returns (unfilled: seq<nat>)
    requires inputPrefill < n && n - 1 <= inputPrefill + outputPrefill <= n
    ensures unfilled == Repeat(0, |blocks|)
  {
    var bp := new BufferProcessor<int>.WithPrefill(n, 1, BoundedSize, log => Reply(i => 0, Continue), 0, 1.0,
                                                   inputPrefill, outputPrefill);
    unfilled := RunBlocks(bp, blocks, 1);
  }

  /** Every prefill below N - gcd(M, N) can be seen to starve. */
  method StarveWithPrefill(n: nat, m: nat, inputPrefill: nat, outputPrefill: nat) returns (unfilled: nat)
    requires n > 0 && m > 0 && inputPrefill + outputPrefill < n - Gcd(m, n)
    ensures unfilled > 0
  {
    var bp := new BufferProcessor<int>.WithPrefill(n, m, FixedSize, log => Reply(i => 0, Continue), 0, 1.0,
                                                   inputPrefill, outputPrefill);
    StarveFixedBlocks(bp);
    unfilled := bp.Room();
  }

  /** Every prefill below N can be seen to leave a gap when the callback aborts. */
  method GapWithPrefill(n: nat, inputPrefill: nat, outputPrefill: nat) returns (unfilled: nat)
    requires inputPrefill + outputPrefill < n
    ensures unfilled == n - (inputPrefill + outputPrefill)
  {
    var bp := new BufferProcessor<int>.WithPrefill(n, 1, BoundedSize, log => Reply(i => 0, Abort), 0, 1.0,
                                                   inputPrefill, outputPrefill);
    AbortOnLastFrame(bp);
    unfilled := bp.Room();
  }
}
