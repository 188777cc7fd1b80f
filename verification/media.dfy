/** Frames, the OpenCV drawing calls made on them, and the drawing surface.
    Pixels are not modelled: a frame is known by an identifier and its size,
    and a drawing call is recorded rather than rasterised. */
module Media {

  /** A decoded video frame (its pixel content abstracted to `id`). */
  datatype Frame = Frame(id: nat, width: nat, height: nat)

  datatype Point = Point(x: int, y: int)

  datatype Colour = Bgr(blue: int, green: int, red: int)

  /** One OpenCV drawing call: `cv2.rectangle` or `cv2.putText`. */
  datatype Draw =
    | Rect(pt1: Point, pt2: Point, colour: Colour, thickness: int)
    | Text(caption: string, origin: Point, fontScale: real, colour: Colour, thickness: int)

  /** An annotated frame: `source` turned 90 degrees clockwise, with `draws`
      applied to it in order. */
  datatype Picture = Picture(width: nat, height: nat, source: Frame, draws: seq<Draw>)

  /** The annotated frame made from `f` by the calls `draws`. Turning a frame
      a quarter turn swaps its width and height. */
  function Overlaid(f: Frame, draws: seq<Draw>): Picture {
    Picture(f.height, f.width, f, draws)
  }

  /** The OpenCV image `frame_cv` that the drawing calls change in place. */
  class Canvas {
    const source: Frame
    const width: nat
    const height: nat
    var draws: seq<Draw>

    /** `cv2.rotate(frame_cv, cv2.ROTATE_90_CLOCKWISE)` on the frame `f`. */
    constructor RotatedClockwise(f: Frame)
      ensures source == f && width == f.height && height == f.width && draws == []
    {
      source := f;
      width, height := f.height, f.width;
      draws := [];
    }

    /** `cv2.rectangle(frame_cv, pt1, pt2, colour, thickness)`. */
    method Rectangle(pt1: Point, pt2: Point, colour: Colour, thickness: int)
      modifies this
      ensures draws == old(draws) + [Rect(pt1, pt2, colour, thickness)]
    {
      draws := draws + [Rect(pt1, pt2, colour, thickness)];
    }

    /** `cv2.putText(frame_cv, caption, origin, font, fontScale, colour, thickness)`. */
    method PutText(caption: string, origin: Point, fontScale: real, colour: Colour, thickness: int)
      modifies this
      ensures draws == old(draws) + [Text(caption, origin, fontScale, colour, thickness)]
    {
      draws := draws + [Text(caption, origin, fontScale, colour, thickness)];
    }

    /** `Image.fromarray(...)`: a copy of the canvas as it is now. */
    function Snapshot(): (p: Picture)
      reads this
      ensures width == source.height && height == source.width ==> p == Overlaid(source, draws)
      ensures p.draws == draws && p.source == source
    {
      Picture(width, height, source, draws)
    }
  }
}
