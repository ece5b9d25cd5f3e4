/**
 * The rolling one-second frame counter shared by MainActivity.updateFps and
 * the web viewer's tick: every call counts one frame; once at least 1000 ms
 * have passed since the window opened, the window closes with its count and
 * its length, and a new window opens at the current time.
 */
module Throughput {
  import opened Bytes

  /** Length of a measurement window in milliseconds. */
  const WindowMs: int := 1000

  /** An open window: frames counted so far and the time it opened. */
  datatype Window = Window(frames: nat, start: int)

  /** A closed window: the frames it counted and its length in ms. */
  datatype Sample = Sample(frames: nat, elapsed: int)

  /** The outcome of one call: the window afterwards and the window it closed, if any. */
  datatype Step = Step(next: Window, closed: Option<Sample>)

  /** One call at time `now`: increment, then close the window if it is 1000 ms old. */
  function Advance(w: Window, now: int): (st: Step)
    ensures st.closed.Some? <==> now - w.start >= WindowMs
    ensures st.next.frames + (if st.closed.Some? then st.closed.value.frames else 0) == w.frames + 1
    ensures st.closed.Some? ==> st.next.start == now && st.closed.value.elapsed == now - w.start
    ensures st.closed.None? ==> st.next.start == w.start
  {
    var frames := w.frames + 1;
    var elapsed := now - w.start;
    if elapsed >= WindowMs then Step(Window(0, now), Some(Sample(frames, elapsed)))
    else Step(Window(frames, w.start), None)
  }

  /** The calls at `times`, in order: the final window and the windows closed on the way. */
  function Run(w: Window, times: seq<int>): (r: (Window, seq<Sample>))
    ensures |r.1| <= |times|
    ensures times == [] ==> r == (w, [])
    decreases |times|
  {
    if times == [] then (w, [])
    else
      var step := Advance(w, times[0]);
      var rest := Run(step.next, times[1..]);
      (rest.0, (if step.closed.Some? then [step.closed.value] else []) + rest.1)
  }

  /** Frames counted by a sequence of closed windows. */
  function TotalFrames(samples: seq<Sample>): nat
  {
    if samples == [] then 0 else samples[0].frames + TotalFrames(samples[1..])
  }

  lemma {:induction false} TotalFramesAppend(a: seq<Sample>, b: seq<Sample>)
    ensures TotalFrames(a + b) == TotalFrames(a) + TotalFrames(b)
  {
    if a == [] {
      assert a + b == b;
    } else {
      assert (a + b)[1..] == a[1..] + b;
      TotalFramesAppend(a[1..], b);
    }
  }

  /** No frame is lost or counted twice: the closed windows and the open one
      together hold every call. */
  lemma {:induction false} FramesConserved(w: Window, times: seq<int>)
    ensures TotalFrames(Run(w, times).1) + Run(w, times).0.frames == w.frames + |times|
    decreases |times|
  {
    if times != [] {
      var step := Advance(w, times[0]);
      FramesConserved(step.next, times[1..]);
      var head := if step.closed.Some? then [step.closed.value] else [];
      TotalFramesAppend(head, Run(step.next, times[1..]).1);
    }
  }

  /** Every closed window counted at least one frame over at least 1000 ms. */
  lemma {:induction false} SamplesSpanAWindow(w: Window, times: seq<int>)
    ensures forall s :: s in Run(w, times).1 ==> s.frames >= 1 && s.elapsed >= WindowMs
    decreases |times|
  {
    if times != [] {
      SamplesSpanAWindow(Advance(w, times[0]).next, times[1..]);
    }
  }

  /** While less than 1000 ms have passed, nothing closes: the count grows by
      one per call and the window keeps its start. */
  lemma {:induction false} QuietWindow(w: Window, times: seq<int>)
    requires forall k :: 0 <= k < |times| ==> times[k] - w.start < WindowMs
    ensures Run(w, times) == (Window(w.frames + |times|, w.start), [])
    decreases |times|
  {
    if times != [] {
      var next := Window(w.frames + 1, w.start);
      assert Advance(w, times[0]) == Step(next, None);
      QuietWindow(next, times[1..]);
      var rest := Run(next, times[1..]);
      assert rest.0 == Window(w.frames + |times|, w.start);
      assert rest.1 == [];
      assert Run(w, times) == (rest.0, [] + rest.1);
      assert [] + rest.1 == [];
    }
  }

  /** Thirty calls on a fresh window, the thirtieth exactly 1000 ms after it
      opened, close one window of 30 frames over 1000 ms. */
  lemma ThirtyFramesInOneSecond(start: int, times: seq<int>)
    requires |times| == 30 && times[29] == start + WindowMs
    requires forall k :: 0 <= k < 29 ==> times[k] - start < WindowMs
    ensures Run(Window(0, start), times) == (Window(0, start + WindowMs), [Sample(30, WindowMs)])
  {
    var first := times[..29];
    QuietWindow(Window(0, start), first);
    RunSplit(Window(0, start), first, [times[29]]);
    assert first + [times[29]] == times;
    var w29 := Window(0 + |first|, start);
    assert Run(Window(0, start), first) == (w29, []);
    var closing := Advance(w29, times[29]);
    assert closing == Step(Window(0, start + WindowMs), Some(Sample(30, WindowMs)));
    assert [times[29]][1..] == [];
    assert Run(closing.next, []) == (closing.next, []);
    var last := Run(w29, [times[29]]);
    assert last == (Window(0, start + WindowMs), [Sample(30, WindowMs)] + []);
    assert [] + last.1 == [Sample(30, WindowMs)];
  }

  /** Running two stretches of calls one after the other. */
  lemma {:induction false} RunSplit(w: Window, a: seq<int>, b: seq<int>)
    ensures Run(w, a + b) == (Run(Run(w, a).0, b).0, Run(w, a).1 + Run(Run(w, a).0, b).1)
    decreases |a|
  {
    if a == [] {
      assert a + b == b;
      assert Run(w, a) == (w, []);
      assert [] + Run(w, b).1 == Run(w, b).1;
    } else {
      var step := Advance(w, a[0]);
      var head := if step.closed.Some? then [step.closed.value] else [];
      assert (a + b)[0] == a[0] && (a + b)[1..] == a[1..] + b;
      RunSplit(step.next, a[1..], b);
      var mid := Run(step.next, a[1..]);
      assert Run(w, a) == (mid.0, head + mid.1);
      assert head + (mid.1 + Run(mid.0, b).1) == (head + mid.1) + Run(mid.0, b).1;
    }
  }
}
