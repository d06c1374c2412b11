/** A run that shows that output can stay unfilled when the callback aborts. */
module AbortedBlock {
  import opened Calls
  import opened FrameShift
  import opened BufferProcessing

  /** A callback that makes silence and aborts in its second call. */
  const ABORTS_IN_SECOND_CALL: Callback<int> :=
    (log: seq<Call<int>>) => Reply((i: nat) => 0, if |log| >= 2 then Abort else Continue)

  lemma CallsMade(bp: BufferProcessor<int>)
    requires bp.Streaming() && bp.callback == ABORTS_IN_SECOND_CALL && bp.framesPerUserBuffer == 3
    requires |bp.stream| <= 6
    ensures |bp.log| == |bp.stream| / 3 && |Presented(bp.log)| == 3 * |bp.log|
    ensures bp.streamCallbackResult == if |bp.log| < 2 then Continue else Abort
  {
    bp.PureDelay();
  }

  /**
   Host blocks of 2 frames for user blocks of 3: the second call takes the last
   frame of the second host block, and its abort leaves a frame of that block unfilled.
   */
  method SecondBlockUnfilled() returns (unfilled: nat)
    ensures unfilled == 1
  {
    var bp := new BufferProcessor<int>(true, true, 3, 2, FixedSize, ABORTS_IN_SECOND_CALL, 0, 1.0, 0x1_0000_0000);
    assert Gcd(2, 3) == Gcd(3, 2) == Gcd(2, 1) == 1;
    assert bp.Prefill() == 2 && |bp.stream| == 2;
    hide BufferProcessor.Streaming, Presented;
    var _ := bp.ProcessDuplexBlock(0.0, 0.0, [1, 2], [], 2, 0);
    CallsMade(bp);
    var _ := bp.ProcessDuplexBlock(0.0, 0.0, [3, 4], [], 2, 0);
    CallsMade(bp);
    unfilled := bp.Room();
  }
}
