/** The video branch of `main` in the hazard analyzer: read the frame rate,
    sample one frame per `int(fps)` decoded frames, annotate every sampled
    frame, and write the annotated frames to a one-frame-per-second video.
    The decoded stream is given as the sequence of frames `cap.read()` returns
    before it first fails, the frame rate as the value `cap.get(CAP_PROP_FPS)`
    reports, the model as `reply` and `json.loads` as `parse`. */
module Pipeline {
  import opened Py
  import opened Media
  import opened JsonExtraction
  import opened Sampling
  import opened Annotation
  import opened Encoding

  /** How a run ends: the frame-rate error message, an exception that escapes
      `main`, or the written video. */
  datatype RunOutcome = FpsUnavailable | Raised(error: Exception) | Produced(video: Video)

  /** What one run yields. */
  function Run(decoded: seq<Frame>, fps: real, reply: Frame -> string, parse: string -> Loaded): (r: RunOutcome)
    ensures r == FpsUnavailable <==> fps == 0.0
    ensures r.Produced? ==> r.video.fps == OutputFps && r.video.fourcc == FourCC && |r.video.frames| <= |decoded|
  {
    if fps == 0.0 then FpsUnavailable
    else
      match Sampled(decoded, Int(fps))
      case Err(e) => Raised(e)
      case Ok(frames) =>
        match Annotated(frames, reply, parse)
        case Err(e) => Raised(e)
        case Ok(pictures) =>
          match Encoded(pictures)
          case Err(e) => Raised(e)
          case Ok(video) => Produced(video)
  }

  /** The video branch of `main`, stage by stage. */
  method RunVideo(decoded: seq<Frame>, fps: real, reply: Frame -> string, parse: string -> Loaded)
    returns (outcome: RunOutcome)
    ensures outcome == Run(decoded, fps, reply, parse)
    ensures outcome == FpsUnavailable <==> fps == 0.0
  {
    if fps == 0.0 {
      return FpsUnavailable;
    }
    var frameInterval := Int(fps);
    var sampled := SampleFrames(decoded, frameInterval);
    if sampled.Err? {
      return Raised(sampled.error);
    }
    var annotated := AnnotateFrames(sampled.value, reply, parse);
    if annotated.Err? {
      return Raised(annotated.error);
    }
    var video := EncodeVideo(annotated.value);
    if video.Err? {
      return Raised(video.error);
    }
    return Produced(video.value);
  }

  /** A frame rate strictly between -1 and 1, other than 0, passes the
      `fps == 0` guard but makes `frame_interval` zero: the first frame read
      raises ZeroDivisionError, and a video with no frames fails later at
      `annotated_frames[0]`. */
  lemma SubUnitFpsRaises(decoded: seq<Frame>, fps: real, reply: Frame -> string, parse: string -> Loaded)
    requires fps != 0.0 && -1.0 < fps < 1.0
    ensures Run(decoded, fps, reply, parse) == Raised(if decoded == [] then IndexError else ZeroDivisionError)
  {
    SampledWithoutInterval(decoded);
  }

  /** A video from which no frame can be read fails at `annotated_frames[0]`
      whatever its frame rate, unless the frame rate is unavailable. */
  lemma EmptyVideoRaises(fps: real, reply: Frame -> string, parse: string -> Loaded)
    requires fps != 0.0
    ensures Run([], fps, reply, parse) == Raised(IndexError)
  {
  }

  /** Chaining the sampler's choice of frames with the annotation loop's
      pairing: picture `j` is the `j * d`-th decoded frame, drawn. */
  lemma PicturesOfKeptFrames(decoded: seq<Frame>, d: nat, frames: seq<Frame>, pictures: seq<Picture>,
                             reply: Frame -> string, parse: string -> Loaded)
    requires |pictures| == |frames|
    requires forall j :: 0 <= j < |frames| ==> j * d < |decoded| && frames[j] == decoded[j * d]
    requires forall k :: 0 <= k < |frames| ==>
      FrameResult(frames[k], reply, parse).Ok? && pictures[k] == Overlaid(frames[k], FrameResult(frames[k], reply, parse).value)
    ensures forall j :: 0 <= j < |pictures| ==>
      && j * d < |decoded|
      && FrameResult(decoded[j * d], reply, parse).Ok?
      && pictures[j] == Overlaid(decoded[j * d], FrameResult(decoded[j * d], reply, parse).value)
  {
    forall j | 0 <= j < |pictures|
      ensures j * d < |decoded|
      ensures FrameResult(decoded[j * d], reply, parse).Ok?
      ensures pictures[j] == Overlaid(decoded[j * d], FrameResult(decoded[j * d], reply, parse).value)
    {
      assert frames[j] == decoded[j * d];
    }
  }

  /** The written video for a non-zero frame interval `interval`, when no
      stage raises: one picture per kept frame `decoded[j * |interval|]`, in
      file order, sized from the first kept frame turned a quarter. */
  lemma EncodedSampledFrames(decoded: seq<Frame>, interval: int, reply: Frame -> string, parse: string -> Loaded)
    requires interval != 0
    requires Sampled(decoded, interval).Ok?
    requires Annotated(Sampled(decoded, interval).value, reply, parse).Ok?
    requires Encoded(Annotated(Sampled(decoded, interval).value, reply, parse).value).Ok?
    ensures decoded != []
    ensures var v := Encoded(Annotated(Sampled(decoded, interval).value, reply, parse).value).value;
      && v.fps == OutputFps
      && v.width == decoded[0].height && v.height == decoded[0].width
      && |v.frames| == CeilDiv(|decoded|, Abs(interval))
      && forall j :: 0 <= j < |v.frames| ==>
           && j * Abs(interval) < |decoded|
           && FrameResult(decoded[j * Abs(interval)], reply, parse).Ok?
           && v.frames[j] == Overlaid(decoded[j * Abs(interval)], FrameResult(decoded[j * Abs(interval)], reply, parse).value)
  {
    var d := Abs(interval);
    SampledKeepsMultiples(decoded, interval);
    var frames := Sampled(decoded, interval).value;
    AnnotatedPairsFrames(frames, reply, parse);
    var pictures := Annotated(frames, reply, parse).value;
    PicturesOfKeptFrames(decoded, d, frames, pictures, reply, parse);
    assert pictures != [];
    assert pictures[0] == Overlaid(decoded[0 * d], FrameResult(decoded[0 * d], reply, parse).value);
  }

  /** A produced video holds, at one frame per second, exactly one annotated
      frame for each sampled frame `decoded[j * d]` (with `d = |int(fps)|`),
      in file order, each drawn with its own reply's boxes; its size is that
      of the first sampled frame turned a quarter. */
  lemma ProducedVideoFrames(decoded: seq<Frame>, fps: real, reply: Frame -> string, parse: string -> Loaded)
    requires Run(decoded, fps, reply, parse).Produced?
    ensures Int(fps) != 0 && decoded != []
    ensures var v := Run(decoded, fps, reply, parse).video;
      && v.fps == OutputFps
      && v.width == decoded[0].height && v.height == decoded[0].width
      && |v.frames| == CeilDiv(|decoded|, Abs(Int(fps)))
      && forall j :: 0 <= j < |v.frames| ==>
           && j * Abs(Int(fps)) < |decoded|
           && FrameResult(decoded[j * Abs(Int(fps))], reply, parse).Ok?
           && v.frames[j] == Overlaid(decoded[j * Abs(Int(fps))], FrameResult(decoded[j * Abs(Int(fps))], reply, parse).value)
  {
    var interval := Int(fps);
    if interval == 0 {
      SampledWithoutInterval(decoded);
    }
    EncodedSampledFrames(decoded, interval, reply, parse);
  }

  /** A run produces a video exactly when the frame rate is at least one in
      magnitude, some frame was read, and no sampled frame's drawing raises. */
  lemma ProducedIff(decoded: seq<Frame>, fps: real, reply: Frame -> string, parse: string -> Loaded)
    ensures Run(decoded, fps, reply, parse).Produced? <==>
      && Int(fps) != 0 && decoded != []
      && forall j :: 0 <= j < CeilDiv(|decoded|, Abs(Int(fps))) ==>
           j * Abs(Int(fps)) < |decoded| && FrameResult(decoded[j * Abs(Int(fps))], reply, parse).Ok?
  {
    if fps == 0.0 {
      assert Int(fps) == 0;
    } else if Int(fps) == 0 {
      SampledWithoutInterval(decoded);
    } else {
      SampledKeepsMultiples(decoded, Int(fps));
      var frames := Sampled(decoded, Int(fps)).value;
      AnnotatedPairsFrames(frames, reply, parse);
      if decoded != [] {
        CeilDivPositive(|decoded|, Abs(Int(fps)));
      }
    }
  }

  /** When every reply holds neither `{` nor `[`, a video with frames at a
      frame rate of at least one is written with every sampled frame turned
      and otherwise untouched. */
  lemma PlainRepliesProduceUntouchedFrames(decoded: seq<Frame>, fps: real, reply: Frame -> string, parse: string -> Loaded)
    requires 1.0 <= fps && decoded != []
    requires forall f: Frame, k :: 0 <= k < |reply(f)| ==> !IsOpener(reply(f)[k])
    ensures Run(decoded, fps, reply, parse).Produced?
    ensures var v := Run(decoded, fps, reply, parse).video;
      && |v.frames| == CeilDiv(|decoded|, Int(fps))
      && forall j :: 0 <= j < |v.frames| ==> j * Int(fps) < |decoded| && v.frames[j] == Overlaid(decoded[j * Int(fps)], [])
  {
    var d := Int(fps);
    assert 1 <= d && Abs(d) == d;
    forall f: Frame
      ensures FrameResult(f, reply, parse) == Ok([])
    {
      PlainReplyDrawsNothing(f, reply, parse);
    }
    SampledKeepsMultiples(decoded, d);
    CeilDivPositive(|decoded|, d);
    ProducedIff(decoded, fps, reply, parse);
    ProducedVideoFrames(decoded, fps, reply, parse);
  }

  /** A ten-second, 30 frames per second video whose replies are all plain
      text becomes a ten-frame video at one frame per second. */
  lemma TenSecondsAtThirtyFps(decoded: seq<Frame>, reply: Frame -> string, parse: string -> Loaded)
    requires |decoded| == 300
    requires forall f: Frame, k :: 0 <= k < |reply(f)| ==> !IsOpener(reply(f)[k])
    ensures Run(decoded, 30.0, reply, parse).Produced?
    ensures |Run(decoded, 30.0, reply, parse).video.frames| == 10
    ensures Run(decoded, 30.0, reply, parse).video.fps == 1
  {
    PlainRepliesProduceUntouchedFrames(decoded, 30.0, reply, parse);
    ProducedVideoFrames(decoded, 30.0, reply, parse);
  }

  /** Pictures each made from some frame of a one-size video all have the
      turned size of its first frame. */
  lemma SameSizePictures(decoded: seq<Frame>, d: nat, v: Video, reply: Frame -> string, parse: string -> Loaded)
    requires decoded != []
    requires forall k :: 0 <= k < |decoded| ==> decoded[k].width == decoded[0].width && decoded[k].height == decoded[0].height
    requires v.width == decoded[0].height && v.height == decoded[0].width
    requires forall j :: 0 <= j < |v.frames| ==>
      && j * d < |decoded|
      && FrameResult(decoded[j * d], reply, parse).Ok?
      && v.frames[j] == Overlaid(decoded[j * d], FrameResult(decoded[j * d], reply, parse).value)
    ensures forall j :: 0 <= j < |v.frames| ==> v.frames[j].width == v.width && v.frames[j].height == v.height
  {
    forall j | 0 <= j < |v.frames|
      ensures v.frames[j].width == v.width && v.frames[j].height == v.height
    {
      var f := decoded[j * d];
      assert f.width == decoded[0].width && f.height == decoded[0].height;
    }
  }

  /** When all decoded frames have one size, every written frame has the size
      the writer was opened with. */
  lemma WrittenFramesMatchWriterSize(decoded: seq<Frame>, fps: real, reply: Frame -> string, parse: string -> Loaded)
    requires forall k :: 0 <= k < |decoded| ==> decoded[k].width == decoded[0].width && decoded[k].height == decoded[0].height
    requires Run(decoded, fps, reply, parse).Produced?
    ensures var v := Run(decoded, fps, reply, parse).video;
      forall j :: 0 <= j < |v.frames| ==> v.frames[j].width == v.width && v.frames[j].height == v.height
  {
    ProducedVideoFrames(decoded, fps, reply, parse);
    SameSizePictures(decoded, Abs(Int(fps)), Run(decoded, fps, reply, parse).video, reply, parse);
  }
}
