/** The output stage of `main`: a `cv2.VideoWriter` sized from the first
    annotated frame, at one frame per second, receiving every annotated frame
    once and in order. */
module Encoding {
  import opened Py
  import opened Media

  /** `output_fps = 1`: one annotated frame per second of output. */
  const OutputFps := 1
  const FourCC := "mp4v"

  /** The finished output container. */
  datatype Video = Video(fourcc: string, fps: int, width: nat, height: nat, frames: seq<Picture>)

  /** `cv2.VideoWriter(path, fourcc, fps, (width, height))`, recording the
      frames it is given. */
  class VideoWriter {
    const fourcc: string
    const fps: int
    const width: nat
    const height: nat
    var written: seq<Picture>
    var released: bool

    constructor (fourcc: string, fps: int, width: nat, height: nat)
      ensures this.fourcc == fourcc && this.fps == fps && this.width == width && this.height == height
      ensures written == [] && !released
    {
      this.fourcc, this.fps, this.width, this.height := fourcc, fps, width, height;
      written, released := [], false;
    }

    /** `video_writer.write(frame)`. */
    method Write(p: Picture)
      modifies this
      ensures written == old(written) + [p] && released == old(released)
    {
      written := written + [p];
    }

    /** `video_writer.release()`: closes the container. */
    method Release()
      modifies this
      ensures released && written == old(written)
    {
      released := true;
    }

    function Output(): Video
      reads this
    {
      Video(fourcc, fps, width, height, written)
    }
  }

  /** `for frame in annotated_frames: video_writer.write(...)`. */
  method WriteFrames(writer: VideoWriter, frames: seq<Picture>)
    modifies writer
    ensures writer.written == old(writer.written) + frames
    ensures writer.released == old(writer.released)
  {
    for i := 0 to |frames|
      invariant writer.written == old(writer.written) + frames[..i]
      invariant writer.released == old(writer.released)
    {
      writer.Write(frames[i]);
      assert frames[..i + 1] == frames[..i] + [frames[i]];
    }
    assert frames[..|frames|] == frames;
  }

  /** What the output stage yields for the annotated frames. */
  function Encoded(annotated: seq<Picture>): (r: Result<Video>)
    ensures r.Err? <==> annotated == []
    ensures r.Err? ==> r.error == IndexError
    ensures r.Ok? ==> r.value.frames == annotated && r.value.fps == OutputFps && r.value.fourcc == FourCC
    ensures r.Ok? ==> r.value.width == annotated[0].width && r.value.height == annotated[0].height
  {
    if annotated == [] then Err(IndexError)
    else Ok(Video(FourCC, OutputFps, annotated[0].width, annotated[0].height, annotated))
  }

  /** The output stage: the writer's size is read from `annotated_frames[0]`,
      which raises IndexError when no frame was annotated. */
  method EncodeVideo(annotated: seq<Picture>) returns (r: Result<Video>)
    ensures r == Encoded(annotated)
    ensures r.Err? <==> annotated == []
    ensures r.Err? ==> r.error == IndexError
    ensures r.Ok? ==> r.value.frames == annotated && r.value.fps == OutputFps
    ensures r.Ok? ==> r.value.width == annotated[0].width && r.value.height == annotated[0].height
  {
    if |annotated| == 0 {
      return Err(IndexError);
    }
    var frameHeight, frameWidth := annotated[0].height, annotated[0].width;
    var writer := new VideoWriter(FourCC, OutputFps, frameWidth, frameHeight);
    WriteFrames(writer, annotated);
    writer.Release();
    assert writer.written == annotated;
    r := Ok(writer.Output());
  }
}
