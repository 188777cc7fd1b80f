/** The frame sampler of the hazard analyzer: it reads the decoded frames in
    file order with a counter `frame_count` and keeps a frame whenever
    `frame_count % frame_interval == 0`, where `frame_interval = int(fps)`. */
module Sampling {
  import opened Py
  import opened Media

  /** `ceil(n / d)` for a positive `d`. */
  function CeilDiv(n: nat, d: nat): nat
    requires 0 < d
  {
    (n + d - 1) / d
  }

  /** What the sampling loop yields after reading the frames `decoded`: the
      kept frames in order, or the exception raised by the modulo. */
  function Sampled(decoded: seq<Frame>, interval: int): (r: Result<seq<Frame>>)
    ensures r.Ok? ==> |r.value| <= |decoded|
    ensures r.Err? ==> interval == 0 && decoded != [] && r.error == ZeroDivisionError
    decreases |decoded|
  {
    if decoded == [] then Ok([])
    else
      var n := |decoded| - 1;
      match Sampled(decoded[..n], interval)
      case Err(e) => Err(e)
      case Ok(kept) =>
        if interval == 0 then Err(ZeroDivisionError)
        else if Mod(n, interval) == 0 then Ok(kept + [decoded[n]])
        else Ok(kept)
  }

  lemma MulAtLeast(a: int, d: nat)
    requires 1 <= a
    ensures a * d >= d
  {
  }

  lemma DivOfMulAdd(q: nat, r: nat, d: nat)
    requires r < d
    ensures (q * d + r) / d == q
  {
    var n := q * d + r;
    var q', r' := n / d, n % d;
    assert n == q' * d + r';
    assert 0 <= r' < d;
    if q' < q {
      MulAtLeast(q - q', d);
      assert false;
    } else if q < q' {
      MulAtLeast(q' - q, d);
      assert false;
    }
  }

  lemma MulSucc(q: nat, d: nat)
    ensures (q + 1) * d == q * d + d
  {
  }

  /** `CeilDivStep` for the frame index written as `q * d + r`. */
  lemma CeilDivStepAt(q: nat, r: nat, d: nat)
    requires r < d
    ensures r == 0 ==> CeilDiv(q * d + r + 1, d) == CeilDiv(q * d + r, d) + 1 && CeilDiv(q * d + r, d) * d == q * d + r
    ensures r != 0 ==> CeilDiv(q * d + r + 1, d) == CeilDiv(q * d + r, d)
  {
    MulSucc(q, d);
    if r == 0 {
      DivOfMulAdd(q, d - 1, d);
      DivOfMulAdd(q + 1, 0, d);
    } else {
      DivOfMulAdd(q + 1, r - 1, d);
      DivOfMulAdd(q + 1, r, d);
    }
  }

  /** Reading one more frame adds one to the count of kept frames exactly when
      the new frame's index is a multiple of `d`. */
  lemma CeilDivStep(n: nat, d: nat)
    requires 0 < d
    ensures n % d == 0 ==> CeilDiv(n + 1, d) == CeilDiv(n, d) + 1 && CeilDiv(n, d) * d == n
    ensures n % d != 0 ==> CeilDiv(n + 1, d) == CeilDiv(n, d)
  {
    var q, r := n / d, n % d;
    assert n == q * d + r;
    CeilDivStepAt(q, r, d);
  }

  /** Reading at least one frame keeps at least one: the first. */
  lemma CeilDivPositive(n: nat, d: nat)
    requires 0 < n && 0 < d
    ensures 0 < CeilDiv(n, d)
  {
    var m := n + d - 1;
    assert m == (m / d) * d + m % d;
  }

  /** With `frame_interval == 0` the first frame read raises
      ZeroDivisionError; a video with no frames raises nothing here. */
  lemma {:induction false} SampledWithoutInterval(decoded: seq<Frame>)
    ensures Sampled(decoded, 0) == if decoded == [] then Ok([]) else Err(ZeroDivisionError)
    decreases |decoded|
  {
    if decoded != [] {
      SampledWithoutInterval(decoded[..|decoded| - 1]);
    }
  }

  /** With a non-zero `frame_interval` the sampler never raises, and it keeps
      exactly the frames at indices `0, d, 2d, ...` below the frame count, in
      file order: `ceil(N / d)` frames, where `d` is the interval's magnitude. */
  lemma {:induction false} SampledKeepsMultiples(decoded: seq<Frame>, interval: int)
    requires interval != 0
    ensures Sampled(decoded, interval).Ok?
    ensures |Sampled(decoded, interval).value| == CeilDiv(|decoded|, Abs(interval))
    ensures forall j :: 0 <= j < |Sampled(decoded, interval).value| ==>
      j * Abs(interval) < |decoded| && Sampled(decoded, interval).value[j] == decoded[j * Abs(interval)]
    decreases |decoded|
  {
    var d := Abs(interval);
    if decoded != [] {
      var n := |decoded| - 1;
      var front := decoded[..n];
      SampledKeepsMultiples(front, interval);
      CeilDivStep(n, d);
      var kept := Sampled(front, interval).value;
      assert forall j :: 0 <= j < |kept| ==> j * d < n && kept[j] == decoded[j * d];
    }
  }

  /** The sampling loop of `main`, reading the decoded frames in order. */
  method SampleFrames(decoded: seq<Frame>, frameInterval: int) returns (r: Result<seq<Frame>>)
    ensures r == Sampled(decoded, frameInterval)
    ensures frameInterval == 0 ==> (r.Err? <==> decoded != []) && (r.Err? ==> r.error == ZeroDivisionError)
    ensures frameInterval != 0 ==> r.Ok? && |r.value| == CeilDiv(|decoded|, Abs(frameInterval))
    ensures frameInterval != 0 ==> forall j :: 0 <= j < |r.value| ==>
      j * Abs(frameInterval) < |decoded| && r.value[j] == decoded[j * Abs(frameInterval)]
  {
    var frames: seq<Frame> := [];
    var frameCount := 0;
    while frameCount < |decoded|
      invariant 0 <= frameCount <= |decoded|
      invariant Sampled(decoded[..frameCount], frameInterval) == Ok(frames)
    {
      var frame := decoded[frameCount];
      assert decoded[..frameCount + 1][..frameCount] == decoded[..frameCount];
      if frameInterval == 0 {
        SampledWithoutInterval(decoded);
        return Err(ZeroDivisionError);
      }
      if Mod(frameCount, frameInterval) == 0 {
        frames := frames + [frame];
      }
      frameCount := frameCount + 1;
    }
    assert decoded[..frameCount] == decoded;
    r := Ok(frames);
    if frameInterval == 0 {
      SampledWithoutInterval(decoded);
    } else {
      SampledKeepsMultiples(decoded, frameInterval);
    }
  }
}
