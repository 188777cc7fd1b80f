/** The annotation loop of `main`: for every sampled frame, in order, ask the
    model for boxes, turn the frame a quarter clockwise, draw that frame's own
    boxes on it and append the result to `annotated_frames`. */
module Annotation {
  import opened Py
  import opened Media
  import opened JsonExtraction
  import opened Overlay

  /** `get_bounding_boxes_from_gemini(frame)`. `reply(frame)` stands for
      `analyze_image(frame, prompt)` with the fixed hazard prompt; that call
      returns an error text rather than raising, and the `except Exception`
      around the extraction turns any exception `json.loads` raises into `[]`,
      so the result is always a value: the parse of the reply's span when it
      parses, and `[]` otherwise. */
  function BoundingBoxes(frame: Frame, reply: Frame -> string, parse: string -> Loaded): (boxes: Json)
    ensures (forall i, j :: !IsMatch(reply(frame), i, j)) ==> boxes == JArr([])
    ensures Search(reply(frame)).Some? ==>
      var loaded := parse(reply(frame)[Search(reply(frame)).value.start..Search(reply(frame)).value.end]);
      boxes == if loaded.Parsed? then loaded.value else JArr([])
  {
    match ExtractJson(reply(frame), parse)
    case Some(v) => v
    case None => JArr([])
  }

  /** The drawing calls the loop makes on frame `f`, or what they raise. */
  function FrameResult(f: Frame, reply: Frame -> string, parse: string -> Loaded): Result<seq<Draw>> {
    FrameDraws(BoundingBoxes(f, reply, parse))
  }

  /** What the annotation loop yields for the sampled frames `frames`. */
  function Annotated(frames: seq<Frame>, reply: Frame -> string, parse: string -> Loaded): (r: Result<seq<Picture>>)
    ensures r.Ok? ==> |r.value| == |frames|
    decreases |frames|
  {
    if frames == [] then Ok([])
    else
      var n := |frames| - 1;
      match Annotated(frames[..n], reply, parse)
      case Err(e) => Err(e)
      case Ok(pictures) =>
        match FrameResult(frames[n], reply, parse)
        case Err(e) => Err(e)
        case Ok(draws) => Ok(pictures + [Overlaid(frames[n], draws)])
  }

  /** One annotated frame per sampled frame, in the same order, each drawn
      only with the boxes of its own reply; the loop completes exactly when
      the drawing for every frame completes. */
  lemma {:induction false} AnnotatedPairsFrames(frames: seq<Frame>, reply: Frame -> string, parse: string -> Loaded)
    ensures Annotated(frames, reply, parse).Ok? <==>
      forall k :: 0 <= k < |frames| ==> FrameResult(frames[k], reply, parse).Ok?
    ensures Annotated(frames, reply, parse).Ok? ==>
      && |Annotated(frames, reply, parse).value| == |frames|
      && forall k :: 0 <= k < |frames| ==>
           FrameResult(frames[k], reply, parse).Ok? &&
           Annotated(frames, reply, parse).value[k] == Overlaid(frames[k], FrameResult(frames[k], reply, parse).value)
    decreases |frames|
  {
    if frames != [] {
      var n := |frames| - 1;
      var front := frames[..n];
      AnnotatedPairsFrames(front, reply, parse);
      assert forall k :: 0 <= k < n ==> front[k] == frames[k];
      var before := Annotated(front, reply, parse);
      var last := FrameResult(frames[n], reply, parse);
      if before.Ok? && last.Ok? {
        var pictures := before.value + [Overlaid(frames[n], last.value)];
        assert Annotated(frames, reply, parse) == Ok(pictures);
        assert forall k :: 0 <= k < n ==> pictures[k] == before.value[k];
      }
    }
  }

  /** When the loop raises, it raises the exception of the first frame whose
      drawing raises. */
  lemma {:induction false} AnnotatedFirstError(frames: seq<Frame>, reply: Frame -> string, parse: string -> Loaded)
    requires Annotated(frames, reply, parse).Err?
    ensures exists k :: 0 <= k < |frames| && FrameResult(frames[k], reply, parse) == Err(Annotated(frames, reply, parse).error)
                        && forall k' :: 0 <= k' < k ==> FrameResult(frames[k'], reply, parse).Ok?
    decreases |frames|
  {
    var n := |frames| - 1;
    var front := frames[..n];
    assert forall k :: 0 <= k < n ==> front[k] == frames[k];
    var before := Annotated(front, reply, parse);
    if before.Err? {
      AnnotatedFirstError(front, reply, parse);
      assert Annotated(frames, reply, parse) == before;
      var k :| 0 <= k < n && FrameResult(front[k], reply, parse) == Err(before.error)
               && forall k' :: 0 <= k' < k ==> FrameResult(front[k'], reply, parse).Ok?;
      assert FrameResult(frames[k], reply, parse) == Err(Annotated(frames, reply, parse).error);
    } else {
      AnnotatedPairsFrames(front, reply, parse);
      assert forall k' :: 0 <= k' < n ==> FrameResult(frames[k'], reply, parse).Ok?;
    }
  }

  /** Once a prefix of the frames raises, every longer prefix raises the same. */
  lemma {:induction false} AnnotatedSticky(frames: seq<Frame>, i: nat, reply: Frame -> string, parse: string -> Loaded)
    requires i <= |frames|
    requires Annotated(frames[..i], reply, parse).Err?
    ensures Annotated(frames, reply, parse) == Annotated(frames[..i], reply, parse)
    decreases |frames| - i
  {
    if i < |frames| {
      assert frames[..i + 1][..i] == frames[..i];
      AnnotatedSticky(frames, i + 1, reply, parse);
    } else {
      assert frames[..i] == frames;
    }
  }

  /** A frame whose reply holds neither `{` nor `[` comes out turned and
      otherwise untouched. */
  lemma PlainReplyDrawsNothing(f: Frame, reply: Frame -> string, parse: string -> Loaded)
    requires forall k :: 0 <= k < |reply(f)| ==> !IsOpener(reply(f)[k])
    ensures FrameResult(f, reply, parse) == Ok([])
  {
    NoBracketYieldsEmpty(reply(f), parse);
    assert BoundingBoxes(f, reply, parse) == JArr([]);
    assert ItemsDraws([]) == Ok([]);
  }

  /** The annotation loop over the sampled frames. */
  method AnnotateFrames(frames: seq<Frame>, reply: Frame -> string, parse: string -> Loaded)
    returns (r: Result<seq<Picture>>)
    ensures r == Annotated(frames, reply, parse)
    ensures r.Ok? ==> |r.value| == |frames|
    ensures r.Ok? ==> forall k :: 0 <= k < |frames| ==>
      FrameResult(frames[k], reply, parse).Ok? &&
      r.value[k] == Overlaid(frames[k], FrameResult(frames[k], reply, parse).value)
  {
    var annotated: seq<Picture> := [];
    for idx := 0 to |frames|
      invariant Annotated(frames[..idx], reply, parse) == Ok(annotated)
    {
      var frame := frames[idx];
      var boxes := BoundingBoxes(frame, reply, parse);
      var canvas := new Canvas.RotatedClockwise(frame);
      var err := DrawBoxes(canvas, boxes);
      assert frames[..idx + 1][..idx] == frames[..idx];
      if err.Some? {
        AnnotatedSticky(frames, idx + 1, reply, parse);
        return Err(err.value);
      }
      assert canvas.draws == FrameResult(frame, reply, parse).value;
      assert frames[..idx + 1][idx] == frame;
      annotated := annotated + [canvas.Snapshot()];
    }
    assert frames[..|frames|] == frames;
    r := Ok(annotated);
    AnnotatedPairsFrames(frames, reply, parse);
  }
}
