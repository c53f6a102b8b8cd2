# auto-video-editor: a Dafny model of the editing core

auto-video-editor turns a raw video into an edited cut. An LLM analyses
sampled frames and a transcription and returns a plan. The plan names the
segments to keep, the captions to overlay and the moments that need a
generated graphic. The editor then assembles the cut from that plan. This
project models three parts of that pipeline, with their service calls
(the image API, the video and image files) abstracted as inputs, and proves
properties about them.

- **Timeline composition** (`Editor.edit`), in modules `Plan`, `SegmentSort`
  and `Editor`:
  - An empty segment list stands for the whole video.
  - The segment list is sorted in place by start time, with a stable sort.
  - Each segment is clamped to the video, and degenerate ones are dropped.
  - Each surviving segment becomes one render unit: the bare subclip, or a
    composite of the subclip with every graphic that *starts* inside it and
    whose image exists, and every captioned text that *starts* inside it.
  - A graphic's duration is cut to fit the segment. A caption is kept only
    when it lasts more than 0.5 s.
  - The units are concatenated and written out, and the output path is
    returned.
- **Image generation** (`Generator`), in module `Generator`:
  - The `Authorization: Bearer <token>` header map.
  - The retry loop of `generate`. It makes at most five POSTs. A 503 sleeps
    for `estimated_time`, or 20 s when that is absent, and tries again; a
    negative `estimated_time` makes `time.sleep` raise. A 200 saves the
    image. Any other status gives up at once.
  - The file name `<prefix>_<timestamp>_<safe prompt>.png`. The safe prompt
    is the prompt's first 20 characters, with every non-alphanumeric
    character replaced by `_`. The name is joined to the output directory as
    `os.path.join` does on POSIX systems.
- **Analysis** (`Analyzer`), in modules `PyText` and `Analyzer`:
  - The frame sampling of `_extract_frames`. The interval is
    `max(1, total // num)` with Python floor division. Frames are read at
    `range(0, total, interval)` until `num` frames are collected. Frames
    larger than 512 px are flagged for downscaling.
  - The fallback parsing of the model's reply in `analyze`. When the whole
    text is not JSON, the text from the first "```json" up to the next
    "```json" (or the end) is cut at its first "```", and that payload is
    tried.

The editing and sampling loops are methods with loop invariants. Each is
proved equal to a specification function, and the lemmas state the
properties of those functions.

- The segment sort is an insertion sort on the plan's `array`, because
  Python's `list.sort` works in place on the caller's list.
- `Generator` is a class whose constructor sets `api_url`, `headers` and `output_dir`.
- Everything else is pure functions on datatypes.

Where the code and the repository's tests disagree, the model follows the
code. Four of the tests expect behaviour the code does not have:

- The overlap tests (`tests/test_overlaps.py`, `tests/test_editor_overlap.py`)
  expect a graphic or caption that overlaps a segment to be placed in it.
  The code places an overlay only in the segment where it *starts*
  (`src/editor.py:71`, `:103`). `Editor.StartOnlyPlacement` states the
  test's own scenario as the code computes it.
- `tests/test_generator_retry.py` and `tests/test_bugs.py` expect retries
  after a request exception and after HTTP 500. In the code, an exception
  from `requests.post` escapes the call, and a 500 returns None at once
  (`src/generator.py:22`, `:42-44`).
- `tests/test_bugs.py:102-118` expects a 503 whose body is not JSON to end
  in None after the retries. In the code, `response.json()` raises on the
  first such reply (`src/generator.py:40`); the model gives
  `Raised(BodyNotJson)`.
- `tests/test_analyzer_json.py` expects JSON embedded in plain text, without
  a "```json" fence, to be recovered. In the code it is not
  (`src/analyzer.py:106-111`).

## Model

| member | source | states |
|---|---|---|
| Plan.Min | src/editor.py:56 | `min` of two timestamps: a lower bound that equals one of its arguments |
| Plan.Max | src/editor.py:55 | `max` of two timestamps: an upper bound that equals one of its arguments |
| SegmentSort.Insert | src/editor.py:45 | one step of the stable sort: the segment goes after every element whose start is not greater; no contract of its own, `InsertLength`, `InsertSorted`, `InsertWithStart` and `InsertSplit` state it |
| SegmentSort.StableSort | src/editor.py:45 | `sorted(segments, key=start)` as a function; no contract of its own, `StableSortCorrect` states that it is sorted, a permutation and stable |
| SegmentSort.InsertSorted | src/editor.py:45 | inserting into a list sorted by start keeps it sorted and adds only the new segment |
| SegmentSort.InsertWithStart | src/editor.py:45 | an insertion appends the new segment after the existing segments with the same start |
| SegmentSort.StableSortCorrect | src/editor.py:45 | the stable sort keeps the length, is sorted by start, is a permutation (same multiset), and keeps segments with equal start in input order |
| SegmentSort.InsertSplit | src/editor.py:45 | insertion puts the segment right after the last element whose start is not greater |
| SegmentSort.InsertAt | src/editor.py:45 | one in-place pass moves `a[i]` into place: the prefix becomes the insertion of `a[i]` into the old prefix, and the rest is untouched |
| SegmentSort.SortByStart | src/editor.py:45 | after the in-place sort the array holds the stable sort of its old contents |
| Editor.EffectiveSegments | src/editor.py:37-40 | a non-empty segment list is used as given; an empty one becomes exactly the list holding the single segment from 0 to the video's duration |
| Editor.Clamp | src/editor.py:51-56 | the clamped start is `max(0, start)`: not negative, equal to 0 or to the start, and the start itself when that is not negative; the clamped end is `min(duration, end)` ("end" defaults to the duration): at most both, and equal to one of them |
| Editor.Kept | src/editor.py:58-59 | a clamped segment is kept iff its start is below its end; no contract of its own, `KeptIndicesSpec` and `NoClipsIffAllDegenerate` state what it selects |
| Editor.UnitFor | src/editor.py:62-64 | the unit covers its segment, and a composite has at least one layer above the subclip |
| Editor.Compose | src/editor.py:50-129 | at most one unit per segment (`ComposeOrder` gives the exact correspondence) |
| Editor.HasAsset | src/editor.py:72-73 | `img_path and os.path.exists(img_path)`: the path for graphic `i` is present, non-empty and exists; no contract of its own, `PlaceGraphic` and `GraphicLayers` state what it decides |
| Editor.GraphicEligible | src/editor.py:71-73 | a graphic is placed iff its timestamp (default 0) is in `[start, end)` and `HasAsset` holds; no contract of its own, `PlaceGraphic`, `GraphicLayers` and `UnitShape` state what it decides |
| Editor.CaptionEligible | src/editor.py:94-110 | a caption is placed iff its text is non-empty, its start (default 0) is in `[start, end)` and, with its end capped at the segment end, it lasts more than 0.5 s; no contract of its own, `PlaceCaption`, `CaptionLayers` and `UnitShape` state what it decides |
| Editor.PlaceGraphic | src/editor.py:67-79 | a graphic is placed iff its timestamp (default 0) is in `[start, end)` and its path is non-empty and exists; it then starts at `timestamp - start`, lasts `min(duration or 3.0, remaining length)`, and lies inside the segment |
| Editor.GraphicOptions | src/editor.py:67-72 | one placement decision per graphic request, numbered by its position in the plan |
| Editor.PlaceCaption | src/editor.py:94-110 | a caption is placed iff its text is non-empty, its start is in the segment and, with its end capped at the segment end, it lasts more than 0.5 s; it then lies inside the segment |
| Editor.CaptionOptions | src/editor.py:94-104 | one placement decision per caption request, numbered by its position in the plan |
| Editor.Somes | src/editor.py:89-119 | the layers list built by the `append`s: the present placements in order; no contract of its own, `SomesPrefix`, `SomesSpec` and `SomesEmpty` state what it collects |
| Editor.SomesPrefix | src/editor.py:89-119 | one more request adds its placement, when there is one, at the end of the layers, as each loop `append` does |
| Editor.SomesSpec | src/editor.py:89 | collected layers come out in plan order, each is the placement of its own request, and every placed request appears |
| Editor.SomesEmpty | src/editor.py:125-129 | no layer is collected exactly when no request is placed |
| Editor.GraphicLayers | src/editor.py:66-91 | the graphic layers of a segment are exactly the eligible graphics, in plan order, each as placed |
| Editor.CaptionLayers | src/editor.py:93-123 | the caption layers of a segment are exactly the eligible captions, in plan order, each lasting more than 0.5 s |
| Editor.UnitShape | src/editor.py:62-129 | a unit covers its segment; it is a composite iff some graphic or caption is eligible; graphics come before captions; every layer lies inside the segment |
| Editor.KeptIndicesSpec | src/editor.py:50-59 | the surviving segment positions are increasing and are exactly the segments that are not degenerate after clamping |
| Editor.ComposeOrder | src/editor.py:50-129 | unit `j` is the unit of the `j`-th surviving segment, so the number of units equals the number of surviving segments |
| Editor.ClipsWithinVideo | src/editor.py:51-59 | every unit satisfies `0 <= start < end <= duration` |
| Editor.ClipStartsOrdered | src/editor.py:44-59 | over segments sorted by start, the starts of the units never decrease |
| Editor.NoClipsIffAllDegenerate | src/editor.py:50-59 | there are no units exactly when every segment is degenerate after clamping; there is no fallback at that point |
| Editor.WholeVideoDefault | src/editor.py:37-40 | an empty segment list gives one unit covering `[0, duration]`, or none when the duration is not positive |
| Editor.RenderOrder | src/editor.py:37-59 | for any segment list, the rendered units lie inside the video, with non-decreasing starts |
| Editor.StartOnlyPlacement | src/editor.py:70-79 | a graphic at 4 s lasting 3 s over the segments [0,5] and [5,10] is placed once, in the first segment, with 1 s; the second segment gets nothing |
| Editor.PlaceOneGraphic | src/editor.py:67-91 | one pass of the graphics loop body decides exactly the placement `PlaceGraphic` gives |
| Editor.PlaceOneCaption | src/editor.py:94-123 | one pass of the captions loop body decides exactly the placement `PlaceCaption` gives |
| Editor.CollectGraphics | src/editor.py:67-91 | the graphics loop returns the collected placements of all graphic requests |
| Editor.CollectCaptions | src/editor.py:94-123 | the captions loop returns the collected placements of all caption requests |
| Editor.BuildClips | src/editor.py:50-129 | the segment loop returns `Compose` of the segments |
| Editor.Edit | src/editor.py:17-145 | a load failure returns None with no units and the list untouched; otherwise the list is sorted in place (stably), the units are those of the defaulted and sorted segments, and the output path is returned iff there is a unit and the write succeeds; `output_path` defaults to "output.mp4" (`DefaultOutputPath`) |
| Generator.AuthHeaders | src/generator.py:10 | the header map has the single key "Authorization", whose value is "Bearer " followed by the token |
| Generator.Generator.constructor | src/generator.py:8-11 | the object keeps the API URL, the bearer headers and the output directory, "generated_images" by default |
| Generator.SafePrompt | src/generator.py:30 | the length is `min(20, len(prompt))`; alphanumerics are kept, everything else becomes `_` |
| Generator.SafePromptIdempotent | src/generator.py:30 | sanitising an already sanitised prompt changes nothing |
| Generator.Decimal | src/generator.py:29-31 | the timestamp in the name is a non-empty string of digits, with no leading zero unless it is 0 |
| Generator.DecimalRoundTrip | src/generator.py:29-31 | the timestamp's digits read back as the timestamp |
| Generator.JoinPath | src/generator.py:31 | `os.path.join`: an absolute name replaces the directory; otherwise the path starts with the directory and ends with the name, with at most one character between them |
| Generator.FileName | src/generator.py:31 | the name starts with the prefix and '_', ends with ".png", and its length is that of the prefix, the timestamp's digits and the safe prompt plus the six fixed characters |
| Generator.FilePath | src/generator.py:31 | the saved path, `os.path.join(output_dir, name)`; no contract of its own, `FilePathShape` and `DefaultFilePath` state its shape |
| Generator.JoinRelative | src/generator.py:31 | joining a relative name onto a non-empty directory gives the directory, one separator (none when the directory ends with '/') and the name |
| Generator.FilePathShape | src/generator.py:31 | unless the prefix is absolute, the path starts with the output directory and ends with the safe prompt followed by ".png" |
| Generator.DefaultFilePath | src/generator.py:8-31 | with the default directory and prefix the path is "generated_images/" followed by a name starting with "img_" |
| Generator.Retries | src/generator.py:38-41 | the replies the loop sleeps on: a 503 whose body is a JSON object with an absent or non-negative "estimated_time"; no contract of its own, `StopIndex` and `Generate` state what follows from it |
| Generator.Wait | src/generator.py:41 | the sleep of a retried 503 is its estimated time or 20 s, never negative |
| Generator.StopIndex | src/generator.py:20-44 | the loop stops at the first of five replies that is not a retried 503 (a 503 with a JSON object body and a non-negative or absent estimated time), or after all five |
| Generator.Waits | src/generator.py:38-41 | one sleep per retried 503, lasting its estimated time or 20 s |
| Generator.Generator.Generate | src/generator.py:15-46 | the number of POSTs, the sleeps, and the outcome of the reply that stops the loop: a request exception raises; 200 returns the path (None when saving fails); a 503 whose body is not a JSON object raises, and so does one whose estimated time is negative (`time.sleep` raises); any other status returns None; five retried 503s return None; the prefix defaults to "img" |
| PyText.FindFrom | src/analyzer.py:106 | the first occurrence of the pattern at or after a position |
| PyText.Find | src/analyzer.py:106 | the first occurrence of the pattern, or None when it does not occur |
| PyText.Contains | src/analyzer.py:106 | `pat in s`: the pattern occurs at some position (defined through `Find`, whose contract states the first occurrence) |
| PyText.Split | src/analyzer.py:108 | `str.split` returns at least one piece |
| PyText.SplitJoin | src/analyzer.py:108 | joining the pieces of a split with the separator gives back the string |
| PyText.SplitPieces | src/analyzer.py:106-108 | no piece contains the separator, and there are at least two pieces iff the separator occurs (so `split("```json")[1]` exists after the `in` test) |
| Analyzer.FloorDiv | src/analyzer.py:27 | Python `//`: the quotient rounded toward negative infinity, for either sign of the divisor |
| Analyzer.Interval | src/analyzer.py:27 | `max(1, total // num)`: at least 1 and at least `total // num`, and equal to one of them |
| Analyzer.Range | src/analyzer.py:32 | `range(start, stop, step)` is empty exactly when `start >= stop`, and otherwise starts at `start` |
| Analyzer.RangeElements | src/analyzer.py:32 | element `j` of `range(start, stop, step)` is `start + j*step`, below `stop`; the next candidate is not below `stop`, so no position is missing; the elements increase |
| Analyzer.Successes | src/analyzer.py:32-48 | the encoded frames of the successful reads at the given positions, in order; no contract of its own, `SuccessesSpec` and `SuccessesComplete` state its properties |
| Analyzer.SuccessesSpec | src/analyzer.py:32-48 | every frame kept was read at a sampled position, is the frame read there and is flagged for downscaling iff a side exceeds 512; frames keep position order; with no failed read there is one frame per position |
| Analyzer.Encode | src/analyzer.py:41-48 | a successful read at position `i` yields that position and frame, marked for downscaling iff its width or its height exceeds 512 |
| Analyzer.SuccessesComplete | src/analyzer.py:37-48 | every position whose read succeeds contributes its encoded frame, whatever the other reads give |
| Analyzer.Take | src/analyzer.py:33-34 | stopping at `num` frames keeps the first `min(num, count)` frames, none when `num` is not positive |
| Analyzer.SampleFrames | src/analyzer.py:32-48 | the sampling loop returns the first `num` successful reads over `range(0, total, interval)` |
| Analyzer.ExtractFrames | src/analyzer.py:13-51 | a missing file raises FileNotFoundError; zero frames gives []; `num == 0` raises ZeroDivisionError; otherwise the result is the sampled frames; `num` defaults to 10 |
| Analyzer.SampledPositions | src/analyzer.py:27-32 | the sampled positions are `j * interval`, increasing, inside `[0, total)` |
| Analyzer.ShortVideoInterval | src/analyzer.py:27 | with fewer frames than wanted the interval is 1 |
| Analyzer.LongVideoInterval | src/analyzer.py:27 | with at least `num` frames the interval is `total // num`, and the `num`-th position is still inside the video |
| Analyzer.AllReadsSucceed | src/analyzer.py:27-48 | when every read succeeds, exactly `min(num, total)` frames come back |
| Analyzer.FencedPayload | src/analyzer.py:108 | `result_text.split("```json")[1].split("```")[0]`; no contract of its own, `FencedPayloadExact` and `FencedPayloadShape` state what it is |
| Analyzer.FirstPiece | src/analyzer.py:108 | the first piece of `split(sep)` is the text up to the first occurrence of `sep`, or all of it |
| Analyzer.PieceInText | src/analyzer.py:108 | the piece after a "```json" is the text up to the next "```json", or to the end |
| Analyzer.FencedPayloadExact | src/analyzer.py:106-108 | the payload is fixed by the text: it is the part, before its first "```", of the text between the first "```json" and the next "```json" (or the end) |
| Analyzer.FenceRunsIntoNextJsonFence | src/analyzer.py:108 | for "```json" + "x``" + "```json" the payload is "x``", although a "```" starts inside it: a "```" that runs into the next "```json" does not cut the payload |
| Analyzer.FencedPayloadShape | src/analyzer.py:106-108 | the fallback payload directly follows the first "```json", contains no "```", and is followed by "```" or by the end of the text |
| Analyzer.ParseReply | src/analyzer.py:99-111 | text that parses is returned as parsed; otherwise the fenced payload is parsed when there is a "```json" fence; otherwise None, so unfenced JSON in plain text is not recovered |

## Left out

- Loading the video (`VideoFileClip`) is only its outcome: a duration, or None when loading fails.
- The moviepy calls are not modelled: subclipping, `ImageClip`/`TextClip`, positioning, resizing to 80 % of the height, `CompositeVideoClip`, `concatenate_videoclips` and writing the file. Units are abstract records. Whether concatenation and writing succeed is an input (`writeOk`).
- Editor.PlaceGraphic, Editor.PlaceCaption: an exception while building an `ImageClip` or `TextClip` is caught and the layer skipped (`src/editor.py:90-91`, `:120-123`). The model assumes construction always succeeds.
- Editor.Edit: a segment without "start" makes the sort raise `KeyError`; the model gives every segment a start.
- Editor.Edit: `float()` of a value that is not a number raises, including a key present with the value None. Absent keys are modelled; conversions of other JSON values are not. Nor is a plan whose "graphics" or "captions" value is JSON null: `get` then returns None and the loops raise `TypeError` (`src/editor.py:47-48`, `:67`, `:94`); the plan's lists are sequences, which cannot be null.
- Times are `real`, so floating-point rounding is not modelled: in the clamping (`src/editor.py:55-56`), in the graphic and caption durations (`src/editor.py:76-79`, `:104-108`), and in the bound `relStart + dur <= segment length`, which holds exactly only over the reals.
- `os.path.exists` is a parameter (`existing`), and `print` output is not modelled.
- Generator.Generator.constructor: creating the output directory (`os.makedirs`) is not modelled; `api_url` is kept but never sent anywhere, since the network is a script of replies.
- Generator.Generator.Generate: the HTTP exchange is a script of replies, one per possible attempt (hence `|replies| >= 5`). The sleeps are returned rather than performed. The clock reading is the input `now`. Decoding and saving the image is the flag `imageOk`.
- Generator.Generator.Generate: an "estimated_time" that is not a number, including JSON null (so `time.sleep` raises `TypeError`), is not modelled; a negative one is (`NegativeSleep`).
- Generator.JoinPath: models `posixpath.join` only. On Windows, `ntpath.join` also treats drive letters and '\\' as separators, and that is not modelled.
- Generator.IsAlnum: ASCII letters and digits only. Python's `str.isalnum` also accepts other Unicode letters and digits.
- Analyzer.ExtractFrames: `cv2.VideoCapture` is a map from frame position to the frame read there (a missing position is a failed read). Only the decision to downscale is modelled, not the scaled size, the JPEG encoding or the base64 text.
- Analyzer.ParseReply: `json.loads` is a parameter that answers None when it raises. A `None` message content, for which `json.loads` raises `TypeError` rather than a decode error, is not modelled.
- The LLM request in `analyze` (building the prompt and the message list) and the rest of the repository (transcription, `main.py`) are not part of this model.
