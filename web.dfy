/**
 * The frame-rate state of the web viewer (web/src/main.ts): the module
 * variables lastTime, frameCount and currentFPS, and tick, which the
 * animation-frame callback runs once per displayed frame. The clock reading
 * performance.now() is a parameter.
 */
module Web {
  import opened Bytes
  import opened Arith
  import opened Throughput

  /** Math.round(p / q): the nearest integer, halves rounded up. */
  function RoundRatio(p: int, q: int): (r: int)
    requires q > 0
    ensures -q < 2 * (r * q - p) <= q
  {
    (2 * p + q) / (2 * q)
  }

  /** currentFPS for a closed window: Math.round(frameCount * 1000 / elapsed). */
  function RoundedFps(s: Sample): (fps: int)
    requires s.elapsed >= WindowMs
    ensures 0 <= fps <= s.frames
  {
    RoundedAtMostFrames(s.frames, s.elapsed);
    RoundRatio(s.frames * 1000, s.elapsed)
  }

  /** A window of at least 1000 ms never rounds to more frames than it counted. */
  lemma RoundedAtMostFrames(frames: nat, elapsed: int)
    requires elapsed >= WindowMs
    ensures 0 <= RoundRatio(frames * 1000, elapsed) <= frames
  {
    var r := RoundRatio(frames * 1000, elapsed);
    if r > frames {
      MulLeft(frames + 1, r, elapsed);
      assert false;
    }
    if r < 0 {
      MulLeft(r, -1, elapsed);
      assert false;
    }
  }


  class Viewer {
    var lastTime: int
    var frameCount: nat
    var currentFPS: int
    /** The number shown in the fps element; None until the first window closes. */
    var fpsText: Option<int>

    ghost predicate Valid()
      reads this
    {
      currentFPS >= 0 && (fpsText.Some? ==> fpsText.value == currentFPS)
    }

    /** The open window these variables describe. */
    function OpenWindow(): Window
      reads this
    {
      Window(frameCount, lastTime)
    }

    /** The module state when the script loads at `loadTime`. */
    constructor (loadTime: int)
      ensures Valid()
      ensures lastTime == loadTime && frameCount == 0 && currentFPS == 0 && fpsText == None
    {
      lastTime := loadTime;
      frameCount := 0;
      currentFPS := 0;
      fpsText := None;
    }

    /** tick at time `now`: one Advance of the window; a closed window sets
        currentFPS and the fps element, otherwise both are left alone. */
    method Tick(now: int)
      requires Valid()
      modifies this
      ensures Valid()
      ensures var step := Advance(old(OpenWindow()), now);
              OpenWindow() == step.next &&
              (step.closed.Some? ==> currentFPS == RoundedFps(step.closed.value) && fpsText == Some(currentFPS)) &&
              (step.closed.None? ==> currentFPS == old(currentFPS) && fpsText == old(fpsText))
    {
      frameCount := frameCount + 1;
      var elapsed := now - lastTime;
      if elapsed >= WindowMs {
        currentFPS := RoundRatio(frameCount * 1000, elapsed);
        assert currentFPS == RoundedFps(Sample(frameCount, elapsed));
        fpsText := Some(currentFPS);
        frameCount := 0;
        lastTime := now;
      }
    }
  }

  /** Thirty ticks in one second show 30: the ticks close one window of 30
      frames over 1000 ms, and the rate of that window rounds to 30. */
  lemma ThirtyTicksShowThirty(start: int, times: seq<int>)
    requires |times| == 30 && times[29] == start + WindowMs
    requires forall k :: 0 <= k < 29 ==> times[k] - start < WindowMs
    ensures var samples := Run(Window(0, start), times).1;
            |samples| == 1 && samples[0].elapsed >= WindowMs && RoundedFps(samples[0]) == 30
  {
    ThirtyFramesInOneSecond(start, times);
  }
}
