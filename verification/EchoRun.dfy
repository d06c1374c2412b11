/** A run with a callback that echoes its input. */
module EchoRun {
  import opened Calls
  import opened FrameShift
  import opened BufferProcessing

  lemma FirstFour(played: seq<int>, zeros: seq<int>, stream: seq<int>, a: int, b: int, c: int, d: int)
    requires zeros == [0, 0] && stream == [0, 0] + ([a, b] + []) + ([c, d] + [])
    requires played <= zeros + stream[2..] && |played| == |stream[2..]|
    ensures played == [0, 0, a, b]
  {
    assert stream[2..] == [a, b, c, d];
  }

  lemma PlayedSoFar(bp: BufferProcessor<int>, a: int, b: int, c: int, d: int)
    requires bp.Streaming() && Echoes(bp.callback) && bp.zero == 0
    requires bp.Prefill() == bp.initialFramesInTempInputBuffer == 2
    requires bp.stream == [0, 0] + ([a, b] + []) + ([c, d] + [])
    ensures bp.Played() == [0, 0, a, b]
  {
    hide *;
    bp.EchoDelay();
    FirstFour(bp.Played(), Zeros(bp.zero, 2), bp.stream, a, b, c, d);
  }

  /** Host blocks of 2 frames for user blocks of 3: the host hears its input two frames later. */
  method TwoBlocksEchoed(a: int, b: int, c: int, d: int) returns (played: seq<int>)
    ensures played == [0, 0, a, b]
  {
    var bp := new BufferProcessor<int>(true, true, 3, 2, FixedSize, EchoCallback(0), 0, 1.0, 0x1_0000_0000);
    assert Gcd(2, 3) == Gcd(3, 2) == Gcd(2, 1) == 1;
    assert bp.Prefill() == bp.initialFramesInTempInputBuffer == 2 && bp.stream == [0, 0] && bp.Acceptable(2);
    EchoExists(0);
    assert bp.Played() == [];
    hide BufferProcessor.Streaming, Echoes, Gcd, EchoCallback, IsChoice, BufferProcessor.Prefill, Zeros;
    hide BufferProcessor.AbortedOnLastFrame, StampsOk, BufferProcessor.OutputSizes, Aligned, Duration, Stopped;
    var _ := bp.ProcessDuplexBlock(0.0, 0.0, [a, b], [], 2, 0);
    played := bp.hostOutput0 + bp.hostOutput1;
    assert bp.Played() == played;
    var _ := bp.ProcessDuplexBlock(0.0, 0.0, [c, d], [], 2, 0);
    played := played + (bp.hostOutput0 + bp.hostOutput1);
    assert bp.Played() == played;
    PlayedSoFar(bp, a, b, c, d);
  }
}
