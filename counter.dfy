/**
  The animated counters: each frame shows the floor of the value eased from
  `start` towards `end`, and the chain of frames stops at the first frame
  whose progress has reached 1, which shows `end` exactly.

  Frame timestamps are taken as given: `elapsed` is the frame's timestamp
  minus the start time. Arithmetic is over exact reals.
*/
module Counter {

  function Cube(x: real): real {
    x * x * x
  }

  /** The cubic ease-out curve `1 - (1 - t)^3`. */
  function EaseOutCubic(t: real): (e: real)
    ensures t == 0.0 ==> e == 0.0
    ensures t == 1.0 ==> e == 1.0
  {
    1.0 - Cube(1.0 - t)
  }

  /** Elapsed time as a share of the duration, capped at 1. */
  function Progress(elapsed: real, duration: real): (p: real)
    requires duration > 0.0
    ensures p <= 1.0
    ensures p == 1.0 <==> elapsed >= duration
    ensures elapsed >= 0.0 ==> p >= 0.0
    ensures elapsed < duration ==> p * duration == elapsed
  {
    if elapsed / duration <= 1.0 then elapsed / duration else 1.0
  }

  /** The value `start + (end - start) * easeOutCubic(progress)` before flooring. */
  function Interpolate(start: int, end: int, progress: real): (v: real)
    ensures progress == 0.0 ==> v == start as real
    ensures progress == 1.0 ==> v == end as real
  {
    start as real + (end - start) as real * EaseOutCubic(progress)
  }

  /** What one frame does: the number it leaves on screen, and whether it asks for another frame. */
  datatype Frame = Frame(shown: int, requestNext: bool)

  /**
    The termination rule: a frame asks for another one exactly while the
    elapsed time is below the duration; the frame that reaches it shows `end`
    itself, every earlier frame the floor of the eased value.
  */
  function RenderFrame(start: int, end: int, duration: real, elapsed: real): (f: Frame)
    requires duration > 0.0
    ensures f.requestNext <==> elapsed < duration
    ensures elapsed >= duration ==> f.shown == end
    ensures elapsed < duration ==> f.shown == Interpolate(start, end, elapsed / duration).Floor
  {
    var progress := Progress(elapsed, duration);
    var value := Interpolate(start, end, progress).Floor;
    if progress < 1.0 then Frame(value, true) else Frame(end, false)
  }

  lemma CubeMonotone(a: real, b: real)
    requires 0.0 <= a <= b
    ensures Cube(a) <= Cube(b)
  {
    assert a * a <= b * b by {
      assert a * a <= a * b;
      assert a * b <= b * b;
    }
    assert a * a * a <= b * b * a;
    assert b * b * a <= b * b * b;
  }

  /** On 0..1 the curve stays in 0..1. */
  lemma EaseInUnitInterval(t: real)
    requires 0.0 <= t <= 1.0
    ensures 0.0 <= EaseOutCubic(t) <= 1.0
  {
    CubeMonotone(0.0, 1.0 - t);
    CubeMonotone(1.0 - t, 1.0);
  }

  /** On 0..1 the curve is non-decreasing. */
  lemma EaseNonDecreasing(s: real, t: real)
    requires 0.0 <= s <= t <= 1.0
    ensures EaseOutCubic(s) <= EaseOutCubic(t)
  {
    CubeMonotone(1.0 - t, 1.0 - s);
  }

  /** Progress never decreases as time goes on. */
  lemma ProgressNonDecreasing(e1: real, e2: real, duration: real)
    requires duration > 0.0
    requires e1 <= e2
    ensures Progress(e1, duration) <= Progress(e2, duration)
  {
    assert e1 / duration <= e2 / duration by {
      assert e2 / duration - e1 / duration == (e2 - e1) / duration;
    }
  }

  /** Scaling by a non-negative factor keeps the order. */
  lemma ScaleMonotone(c: real, x: real, y: real)
    requires c >= 0.0 && x <= y
    ensures c * x <= c * y
  {
    assert c * y - c * x == c * (y - x);
  }

  /** Counting up, every frame shows a number between `start` and `end`. */
  lemma FrameWithinRange(start: int, end: int, duration: real, elapsed: real)
    requires duration > 0.0
    requires start <= end
    requires elapsed >= 0.0
    ensures start <= RenderFrame(start, end, duration, elapsed).shown <= end
  {
    if elapsed < duration {
      var p := elapsed / duration;
      assert 0.0 <= p <= 1.0;
      EaseInUnitInterval(p);
      var e, c := EaseOutCubic(p), (end - start) as real;
      ScaleMonotone(c, 0.0, e);
      ScaleMonotone(c, e, 1.0);
      assert start as real <= Interpolate(start, end, p) <= end as real;
    }
  }

  /** Counting down (a negative day count is animated from 0), every frame shows a number between `end` and `start`. */
  lemma FrameWithinRangeCountingDown(start: int, end: int, duration: real, elapsed: real)
    requires duration > 0.0
    requires end <= start
    requires elapsed >= 0.0
    ensures end <= RenderFrame(start, end, duration, elapsed).shown <= start
  {
    if elapsed < duration {
      var p := elapsed / duration;
      assert 0.0 <= p <= 1.0;
      EaseInUnitInterval(p);
      var e, c := EaseOutCubic(p), (start - end) as real;
      ScaleMonotone(c, 0.0, e);
      ScaleMonotone(c, e, 1.0);
      var v := Interpolate(start, end, p);
      assert v == start as real - c * e;
      assert end as real <= v <= start as real;
    }
  }

  /**
    A first frame whose timestamp precedes the start time has negative
    progress, and shows a number below `start`.
  */
  lemma EarlyFrameUndershoots()
    ensures RenderFrame(0, 10, 900.0, -90.0) == Frame(-4, true)
  {
    assert Progress(-90.0, 900.0) == -0.1;
    assert EaseOutCubic(-0.1) == -0.331;
  }

  /** Counting up, the eased value grows with the progress. */
  lemma InterpolateNonDecreasing(start: int, end: int, p1: real, p2: real)
    requires start <= end
    requires 0.0 <= p1 <= p2 <= 1.0
    ensures Interpolate(start, end, p1) <= Interpolate(start, end, p2)
  {
    EaseNonDecreasing(p1, p2);
    ScaleMonotone((end - start) as real, EaseOutCubic(p1), EaseOutCubic(p2));
  }

  /** Counting up, a later frame never shows a smaller number. */
  lemma FramesNonDecreasing(start: int, end: int, duration: real, e1: real, e2: real)
    requires duration > 0.0
    requires start <= end
    requires 0.0 <= e1 <= e2
    ensures RenderFrame(start, end, duration, e1).shown <= RenderFrame(start, end, duration, e2).shown
  {
    if e2 >= duration {
      FrameWithinRange(start, end, duration, e1);
    } else {
      ProgressNonDecreasing(e1, e2, duration);
      InterpolateNonDecreasing(start, end, Progress(e1, duration), Progress(e2, duration));
    }
  }

  /**
    The frame chain of `animateCount`, driven by the elapsed times at which
    the host runs the frames: each frame renders, and the chain goes on
    only while a frame asks for another.
  */
  method RunCounter(start: int, end: int, duration: real, elapsedTimes: seq<real>)
    returns (shown: seq<int>, finished: bool)
    requires duration > 0.0
    ensures |shown| <= |elapsedTimes|
    ensures forall i :: 0 <= i < |shown| ==>
              shown[i] == RenderFrame(start, end, duration, elapsedTimes[i]).shown
    ensures forall i :: 0 <= i < |shown| - 1 ==> elapsedTimes[i] < duration
    ensures finished <==> 0 < |shown| && elapsedTimes[|shown| - 1] >= duration
    ensures finished ==> shown[|shown| - 1] == end
    ensures !finished ==> |shown| == |elapsedTimes|
  {
    shown, finished := [], false;
    var i := 0;
    while i < |elapsedTimes| && !finished
      invariant 0 <= i <= |elapsedTimes|
      invariant |shown| == i
      invariant forall k :: 0 <= k < i ==>
                  shown[k] == RenderFrame(start, end, duration, elapsedTimes[k]).shown
      invariant forall k :: 0 <= k < i - 1 ==> elapsedTimes[k] < duration
      invariant finished <==> 0 < i && elapsedTimes[i - 1] >= duration
      invariant finished ==> shown[i - 1] == end
    {
      var f := RenderFrame(start, end, duration, elapsedTimes[i]);
      shown := shown + [f.shown];
      finished := !f.requestNext;
      i := i + 1;
    }
  }
}
