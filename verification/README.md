# SafeNest AI video path, modelled in Dafny

This project models the video branch of the SafeNest AI hazard analyzer
(`baby_hazard_analyzer_bot/app.py`) and proves properties of the model. The
branch works as follows:

1. It reads the uploaded video's frame rate. A frame rate of 0 stops the run with an error message.
2. It keeps one decoded frame in every `int(fps)` frames.
3. For each kept frame, it asks the Gemini model for hazard boxes.
4. It pulls a JSON span out of the model's free-text reply.
5. It turns the frame a quarter clockwise and draws every well-formed box and its label.
6. It writes the annotated frames, in order, to a video at one frame per second.

The model has eight modules, one per stage:

- `Py` (py.dfy) holds the Python semantics the code depends on. It gives the values `json.loads` returns (`Json`) and the exceptions that escape `main`. It also defines `int()` on a float, `%` on ints (the remainder takes the divisor's sign), and `in`, `[key]` and `len` on parsed values.
- `JsonExtraction` (json_extraction.dfy) defines `extract_json_from_string`. `Search` reproduces the engine's run of `re.search(r'(\{.*\}|\[.*\])', text, re.DOTALL)`. Its contract states the declarative reading: the match starts as far left as possible and is the longest match from that start.
- `Media` (media.dfy) holds frames and the recorded OpenCV drawing calls. The class `Canvas` is the turned OpenCV image that `cv2.rectangle` and `cv2.putText` change in place.
- `Overlay` (overlay.dfy) covers the loop `for box in boxes:`. `EntryDraws` decides whether each parsed entry is drawn, skipped or raises, and gives the calls a drawn entry makes. The methods `DrawEntry`, `DrawEntries` and `DrawBoxes` run the loop on a `Canvas`.
- `Sampling` (sampling.dfy) covers the `while` loop that counts frames and keeps every `frame_interval`-th one.
- `Annotation` (annotation.dfy) covers `get_bounding_boxes_from_gemini` and the per-frame annotate/draw loop.
- `Encoding` (encoding.dfy) covers the `cv2.VideoWriter`, modelled as a class that records what it is given, and the writer loop.
- `Pipeline` (pipeline.dfy) covers the whole branch (`RunVideo`, specified by `Run`) and the end-to-end properties.

External calls are parameters:

- The decoded stream is a `seq<Frame>`: the frames `cap.read()` returns before its first failure.
- The frame rate is a `real`.
- The model call `analyze_image(frame, prompt)` is a total function `reply: Frame -> string`. It is total because that call catches every exception and returns an error text (`baby_hazard_analyzer_bot/image_analyzer.py:80-82`).
- `json.loads` is a function `parse: string -> Loaded`. Its outcome is one of three: a value (`Parsed`), `json.JSONDecodeError` (`DecodeError`), or any other exception it can raise, such as `RecursionError` on very deep nesting or `ValueError` on an over-long integer literal (`OtherError`). `extract_json_from_string` catches only `JSONDecodeError`, so `ExtractJson` returns `None` on `OtherError`. `get_bounding_boxes_from_gemini` catches every exception and returns `[]`.

What the code does on the edge cases:

- The frame interval is `int(fps)`, which truncates toward zero.
- An entry with a four-integer `box_2d` but no `label` raises `KeyError`. The loop does not skip it.
- A frame rate strictly between 0 and 1 (or between -1 and 0) passes the `fps == 0` guard. Its frame interval is 0, so the first frame read raises `ZeroDivisionError`.
- A run that reads no frame raises `IndexError` at `annotated_frames[0]`.
- Boxes are drawn on the frame after it has been turned a quarter clockwise.
- Nothing checks that all frames have the same size before they are written.

## Model

| member | source | states |
|---|---|---|
| `Py.Int` | baby_hazard_analyzer_bot/app.py:86 | `int(fps)` truncates toward zero. For `fps >= 0` the result is the largest integer not above `fps`, and it is 0 for any `fps` in [0, 1). |
| `Py.Mod` | baby_hazard_analyzer_bot/app.py:94 | Python's `%`: the remainder lies between 0 and the divisor, on the divisor's side. It is 0 exactly when the divisor divides the dividend. |
| `Py.In` | baby_hazard_analyzer_bot/app.py:118 | `'box_2d' in box` succeeds exactly on the values that have a length (lists, strings, dicts), and raises `TypeError` on anything else. It is true on a dict exactly when the key is present. On a list it is true exactly when some element is that string, and on a string exactly when it is a substring. |
| `Py.GetItem` | baby_hazard_analyzer_bot/app.py:118-122 | `box[key]` succeeds exactly on a dict that holds the key, and then returns its value, for a key that `in` reports present. It raises `KeyError(key)` on a dict without the key and `TypeError` on anything else. |
| `Py.Len` | baby_hazard_analyzer_bot/app.py:118 | `len(v)` succeeds exactly on lists, strings and dicts. It gives the element count of a list, the character count of a string and the key count of a dict. Anything else raises `TypeError`. |
| `Py.Chars` | baby_hazard_analyzer_bot/app.py:117 | Iterating a string yields one one-character string per character, in order. |
| `JsonExtraction.LastIndex` | baby_hazard_analyzer_bot/app.py:32 | The greedy `.*` backs off to the last occurrence of the closer in the range. No occurrence follows it, and `None` means there is none. |
| `JsonExtraction.MatchAt` | baby_hazard_analyzer_bot/app.py:32 | The match tried at one start is a real match of `\{.*\}` or `\[.*\]`. No longer match exists from that start, and `None` means no match starts there. |
| `JsonExtraction.SearchFrom` | baby_hazard_analyzer_bot/app.py:32 | Scanning from a position finds the leftmost start of any match and the longest match from it. `None` means no match starts at or after that position. |
| `JsonExtraction.Search` | baby_hazard_analyzer_bot/app.py:32 | `re.search` finds nothing exactly when no `{` has a later `}` and no `[` has a later `]`. Otherwise the span starts at the earliest qualifying opener and is at least two characters long. It ends at the last closer of the matching kind, and no closer of that kind follows it. |
| `JsonExtraction.NoCloserAfterLongestMatch` | baby_hazard_analyzer_bot/app.py:32 | Past the end of a longest match, no closer of that match's kind appears. |
| `JsonExtraction.ExtractJson` | baby_hazard_analyzer_bot/app.py:30-40 | A reply with no match gives `[]`. When the searched span parses, its value is returned. When it is malformed JSON, `[]` is returned. When `json.loads` raises anything else, that exception leaves the function (`None`). |
| `JsonExtraction.ExtractsLeftmostLongest` | baby_hazard_analyzer_bot/app.py:32-35 | The leftmost match that is the longest from its start is exactly the span `re.search` returns and `json.loads` receives. |
| `JsonExtraction.WholeListReplyParsed` | baby_hazard_analyzer_bot/app.py:32-35 | A reply that is itself a bracketed list `[...]` is parsed whole, and its value is returned when it parses. |
| `JsonExtraction.NoBracketYieldsEmpty` | baby_hazard_analyzer_bot/app.py:32-40 | A reply with neither `{` nor `[` gives `[]`, whatever the parser does. |
| `JsonExtraction.UnparsableSpanYieldsEmpty` | baby_hazard_analyzer_bot/app.py:33-40 | A span that `json.loads` rejects with `JSONDecodeError` gives `[]`. |
| `JsonExtraction.WholeStringExample` | baby_hazard_analyzer_bot/app.py:32 | For `{a} [b] {c}` the chosen span is the whole string. |
| `Media.Canvas.RotatedClockwise` | baby_hazard_analyzer_bot/app.py:112-114 | The frame turned 90 degrees clockwise. Width and height swap and nothing is drawn yet. |
| `Media.Canvas.Rectangle` | baby_hazard_analyzer_bot/app.py:120 | `cv2.rectangle` appends one rectangle call to the canvas. |
| `Media.Canvas.PutText` | baby_hazard_analyzer_bot/app.py:132 | `cv2.putText` appends one text call to the canvas. |
| `Media.Canvas.Snapshot` | baby_hazard_analyzer_bot/app.py:135 | The copy `Image.fromarray` makes of a canvas carries the turned frame and exactly the calls drawn so far. |
| `Overlay.EntryDraws` | baby_hazard_analyzer_bot/app.py:117-132 | An entry draws exactly when it is a dict whose `box_2d` is four integers and whose `label` is a string. It then draws a rectangle `(xmin,ymin)`-`(xmax,ymax)` in green, thickness 2. It also draws the label at `(xmin, ymin-10)`, scale 0.6, in black, thickness 2. A dict without `box_2d`, or whose `box_2d` has a length other than 4, is skipped. A `box_2d` without a length (null, number, bool) raises `TypeError`. A four-element `box_2d` that is not four integers is rejected by OpenCV. A four-integer box without `label` raises `KeyError('label')`, and one whose label is not a string is rejected by OpenCV. Lists and strings are skipped unless they contain `"box_2d"`, and then raise `TypeError`. Scalars raise `TypeError`. |
| `Overlay.Corners` | baby_hazard_analyzer_bot/app.py:119-120 | Unpacking `box_2d` and handing the corners to `cv2.rectangle` succeeds exactly on four integers, giving them in order. Anything else is rejected by OpenCV. |
| `Overlay.ItemsDraws` | baby_hazard_analyzer_bot/app.py:117-132 | The loop over a list makes at most two calls per entry, and makes some call only when some entry is drawable. |
| `Overlay.ItemsDrawsEveryDrawable` | baby_hazard_analyzer_bot/app.py:117-132 | When the loop over a list completes, every drawable entry's rectangle and label are among the calls. The loop makes exactly two calls per drawable entry and none for any other entry. |
| `Overlay.FrameDraws` | baby_hazard_analyzer_bot/app.py:117 | Only a list reply can draw. A string reply draws nothing. A dict reply raises `TypeError` exactly when one of its keys contains `"box_2d"`. A number, bool or null raises `TypeError`. |
| `Overlay.ItemsDrawsOutcome` | baby_hazard_analyzer_bot/app.py:117-132 | The loop over the entries raises exactly when some entry raises, with the first such entry's exception. It draws nothing when no entry is drawable. |
| `Overlay.StringEntriesDraws` | baby_hazard_analyzer_bot/app.py:117-118 | Iterating the characters of a string reply, or the keys of a dict reply, draws nothing. It raises `TypeError` exactly when one of them contains `"box_2d"`. |
| `Overlay.DrawEntry` | baby_hazard_analyzer_bot/app.py:118-132 | The loop body raises what `EntryDraws` says. Otherwise it appends exactly that entry's calls to the canvas. |
| `Overlay.DrawEntries` | baby_hazard_analyzer_bot/app.py:117-132 | The loop over a list stops at the first raising entry. Otherwise it appends every entry's calls, in order. |
| `Overlay.KeyOrder` | baby_hazard_analyzer_bot/app.py:117 | Iterating a dict visits every key exactly once, as a string entry, in an order left open. |
| `Overlay.DrawBoxes` | baby_hazard_analyzer_bot/app.py:117-132 | `for box in boxes:` on any parsed value. A list goes entry by entry, and a string or dict goes through its characters or keys. A scalar raises `TypeError`. |
| `Sampling.SampledWithoutInterval` | baby_hazard_analyzer_bot/app.py:86-99 | With `frame_interval == 0`, the first frame read raises `ZeroDivisionError`. A video with no frames passes the loop. |
| `Sampling.SampledKeepsMultiples` | baby_hazard_analyzer_bot/app.py:86-99 | With a non-zero interval `d`, the loop never raises. It keeps exactly `ceil(N / d)` frames, and the `j`-th kept frame is decoded frame `j*d`, in file order. |
| `Sampling.Sampled` | baby_hazard_analyzer_bot/app.py:88-99 | The sampler keeps no more frames than it reads. It raises only `ZeroDivisionError`, and only when the interval is 0 and some frame is read. |
| `Sampling.CeilDivStep` | baby_hazard_analyzer_bot/app.py:94-99 | Reading one more frame adds one kept frame exactly when its index is a multiple of the interval. |
| `Sampling.CeilDivPositive` | baby_hazard_analyzer_bot/app.py:94 | A video with at least one frame keeps at least one: frame 0. |
| `Sampling.SampleFrames` | baby_hazard_analyzer_bot/app.py:88-99 | The sampling loop yields what `Sampled` specifies. A zero interval raises exactly when some frame is read. A non-zero interval keeps `ceil(N/d)` frames, frame `j*d` at position `j`. |
| `Annotation.BoundingBoxes` | baby_hazard_analyzer_bot/app.py:49-62 | `get_bounding_boxes_from_gemini` never raises. A reply with no bracketed span gives `[]`. Otherwise the result is the parse of the reply's searched span when that parse succeeds, and `[]` when `json.loads` raises anything. |
| `Annotation.AnnotatedPairsFrames` | baby_hazard_analyzer_bot/app.py:104-137 | The loop completes exactly when every frame's drawing completes. It then appends one annotated frame per sampled frame, in order, and frame `k` is drawn only with the boxes of frame `k`'s own reply. |
| `Annotation.AnnotatedFirstError` | baby_hazard_analyzer_bot/app.py:104-137 | When the loop raises, it raises the exception of the first frame whose drawing raises. |
| `Annotation.Annotated` | baby_hazard_analyzer_bot/app.py:104-137 | When the loop completes, it has made one annotated frame per sampled frame. |
| `Annotation.AnnotatedSticky` | baby_hazard_analyzer_bot/app.py:104-137 | An exception in the loop ends it: later frames change nothing. |
| `Annotation.PlainReplyDrawsNothing` | baby_hazard_analyzer_bot/app.py:54-62 | A plain-text reply leaves its frame turned and otherwise unchanged. |
| `Annotation.AnnotateFrames` | baby_hazard_analyzer_bot/app.py:104-137 | The annotation loop yields what `Annotated` specifies. On success it yields one picture per sampled frame, the `k`-th being frame `k` turned and drawn with its own reply's boxes. |
| `Encoding.VideoWriter.constructor` | baby_hazard_analyzer_bot/app.py:148-149 | The writer opens with codec `mp4v`, the given rate and size, and no frames written. |
| `Encoding.VideoWriter.Write` | baby_hazard_analyzer_bot/app.py:154 | Writing appends one frame. |
| `Encoding.VideoWriter.Release` | baby_hazard_analyzer_bot/app.py:156 | Releasing closes the writer and keeps its frames. |
| `Encoding.WriteFrames` | baby_hazard_analyzer_bot/app.py:152-154 | The writer receives every annotated frame exactly once, in order. |
| `Encoding.Encoded` | baby_hazard_analyzer_bot/app.py:140-156 | An empty frame list raises `IndexError`. Otherwise the video holds exactly the annotated frames, with codec `mp4v`, at 1 fps, sized from the first frame. |
| `Encoding.EncodeVideo` | baby_hazard_analyzer_bot/app.py:140-156 | An empty frame list raises `IndexError` at `annotated_frames[0]`. Otherwise the video holds exactly the annotated frames, in order, at 1 fps, sized from the first one. |
| `Pipeline.RunVideo` | baby_hazard_analyzer_bot/app.py:81-156 | The branch yields what `Run` specifies. It reports the frame-rate error, and does no sampling, annotation or encoding, exactly when `fps == 0`. |
| `Pipeline.Run` | baby_hazard_analyzer_bot/app.py:81-156 | The frame-rate error is reported exactly when `fps == 0`. A produced video is `mp4v` at 1 fps and has no more frames than were read. |
| `Pipeline.SubUnitFpsRaises` | baby_hazard_analyzer_bot/app.py:83-94 | A frame rate in (-1, 1) other than 0 raises `ZeroDivisionError`, or `IndexError` when no frame is read. |
| `Pipeline.EmptyVideoRaises` | baby_hazard_analyzer_bot/app.py:140 | With a non-zero frame rate, a video with no readable frame raises `IndexError`. |
| `Pipeline.ProducedVideoFrames` | baby_hazard_analyzer_bot/app.py:86-154 | A produced video runs at 1 fps and is sized from the first sampled frame after the turn. It holds `ceil(N/d)` frames, the `j`-th being decoded frame `j*d` drawn with its own reply's boxes. |
| `Pipeline.EncodedSampledFrames` | baby_hazard_analyzer_bot/app.py:86-154 | For a non-zero frame interval with no stage raising, the video's `j`-th frame is decoded frame `j*d`, drawn. It is sized from the first decoded frame, turned. |
| `Pipeline.ProducedIff` | baby_hazard_analyzer_bot/app.py:83-156 | A video is produced exactly when `int(fps) != 0`, some frame was read, and no sampled frame's drawing raises. |
| `Pipeline.PlainRepliesProduceUntouchedFrames` | baby_hazard_analyzer_bot/app.py:86-154 | If every reply is plain text, a video with frames at `fps >= 1` is produced. It holds the `ceil(N/int(fps))` sampled frames, each turned and undrawn. |
| `Pipeline.TenSecondsAtThirtyFps` | baby_hazard_analyzer_bot/app.py:86-154 | 300 frames at 30 fps with plain-text replies give a 10-frame video at 1 fps. |
| `Pipeline.WrittenFramesMatchWriterSize` | baby_hazard_analyzer_bot/app.py:140-154 | If all decoded frames share one size, every written frame has the size the writer was opened with. |

## Left out

- The Streamlit interface is not modelled: page setup, the uploader, `st.video`, `st.success`/`st.error` messages and the `stqdm` progress bar. The `fps == 0` message appears only as the outcome `FpsUnavailable`.
- Temporary files and the `ffmpeg` re-encode through `os.system` (`baby_hazard_analyzer_bot/app.py:73-75, 144-145, 158`) are file and process I/O. The model ends at the released writer.
- The Gemini client is a parameter. That covers the prompt text, the client setup from `GEMINI_API_KEY`, the request and its configuration. Any failure in that call comes back as reply text.
- `json.loads` internals are a parameter. A JSON float is kept only as its text, and a dict's duplicate keys are assumed resolved by the parser.
- Pixel operations are not modelled: colour conversions, pixel rasterisation, and `cv2.getTextSize`, whose result is unused. `ImageOps.exif_transpose` is treated as the identity, since an image built from an array carries no EXIF orientation.
- `cv2.VideoCapture` is not modelled. A container that cannot be opened is assumed to report frame rate 0, and a read error ends the decoded sequence.
- The frame rate is an exact `real`. IEEE float rounding is not modelled.
- OpenCV's argument parsing is approximated. Only JSON integers are accepted as coordinates, and only strings as labels. Anything else raises `OpenCvError`. OpenCV's handling of booleans and of integers outside 32 bits is not modelled.
- `cv2.VideoWriter` silently drops a frame whose size differs from its own, and that is not modelled. `Pipeline.WrittenFramesMatchWriterSize` shows this does not arise when the decoded frames share one size.
- The order in which a dict's keys are visited is left open (`Overlay.KeyOrder`). The outcome of the drawing loop does not depend on it.
- The model call is taken as deterministic in the frame: `reply` is a function, so equal frames get equal replies. The real request samples at temperature 0.5 (`baby_hazard_analyzer_bot/image_analyzer.py:62`), so two identical frames may get different boxes. No proved property relies on equal frames getting equal replies.
- `print` calls are logging and are not modelled.
- The image-only app variants (`app.py`, `image_analyzer.py`) are not part of this model. They send one image and display the reply text as it is.
- `baby_hazard_analyzer_bot/video_analyzer.py` is not part of this model. It uploads a whole video and waits on the upload.
