/**
 * The frame-rate fields of MainActivity (frameCount, lastFpsTime,
 * currentFps) and updateFps, which processFrame calls once per processed
 * frame. The clock reading System.currentTimeMillis() is a parameter.
 */
module Activity {
  import opened Throughput

  /** currentFps for a closed window: frameCount * 1000f / elapsed, as an exact ratio. */
  function FpsOf(s: Sample): (fps: real)
    requires s.elapsed >= WindowMs
    ensures 0.0 <= fps <= s.frames as real
    ensures fps * s.elapsed as real == s.frames as real * 1000.0
  {
    (s.frames as real * 1000.0) / s.elapsed as real
  }

  class MainActivity {
    var frameCount: nat
    var lastFpsTime: int
    var currentFps: real
    /** The values handed to runOnUiThread for fpsTextView, oldest first. */
    var fpsTexts: seq<real>

    ghost predicate Valid()
      reads this
    {
      currentFps >= 0.0 && forall k :: 0 <= k < |fpsTexts| ==> fpsTexts[k] >= 0.0
    }

    /** The open window these fields describe. */
    function OpenWindow(): Window
      reads this
    {
      Window(frameCount, lastFpsTime)
    }

    /** The fields as initialised when the activity is created at `startTime`. */
    constructor (startTime: int)
      ensures Valid()
      ensures frameCount == 0 && lastFpsTime == startTime && currentFps == 0.0 && fpsTexts == []
    {
      frameCount := 0;
      lastFpsTime := startTime;
      currentFps := 0.0;
      fpsTexts := [];
    }

    /** updateFps at time `now`: one Advance of the window; a closed window
        sets currentFps and posts it to the FPS label, otherwise nothing but
        the count changes. */
    method UpdateFps(now: int)
      requires Valid()
      modifies this
      ensures Valid()
      ensures var step := Advance(old(OpenWindow()), now);
              OpenWindow() == step.next &&
              (step.closed.Some? ==> currentFps == FpsOf(step.closed.value) && fpsTexts == old(fpsTexts) + [currentFps]) &&
              (step.closed.None? ==> currentFps == old(currentFps) && fpsTexts == old(fpsTexts))
      ensures now - old(lastFpsTime) >= WindowMs ==> currentFps <= (old(frameCount) + 1) as real
    {
      frameCount := frameCount + 1;
      var elapsed := now - lastFpsTime;
      if elapsed >= WindowMs {
        currentFps := (frameCount as real * 1000.0) / elapsed as real;
        assert currentFps == FpsOf(Sample(frameCount, elapsed));
        frameCount := 0;
        lastFpsTime := now;
        fpsTexts := fpsTexts + [currentFps];
      }
    }
  }

  /** Thirty frames in one second read 30.0: the updates close one window of
      30 frames over 1000 ms, whose rate is exactly 30. */
  lemma ThirtyUpdatesReadThirty(start: int, times: seq<int>)
    requires |times| == 30 && times[29] == start + WindowMs
    requires forall k :: 0 <= k < 29 ==> times[k] - start < WindowMs
    ensures var samples := Run(Window(0, start), times).1;
            |samples| == 1 && samples[0].elapsed >= WindowMs && FpsOf(samples[0]) == 30.0
  {
    ThirtyFramesInOneSecond(start, times);
  }
}
