/** The two computations of `Analyzer` that do not talk to a service: the
    choice of frames in `_extract_frames` (the capture is a map from frame
    number to the frame a read returns; a missing number is a failed read)
    and the reading of the model's reply in `analyze`, where `json.loads`
    is a parameter: a partial parser that answers None when it raises. */
module Analyzer {
  import opened Wrappers
  import opened PyText

  const DefaultNumFrames: int := 10
  /** Frames wider or taller than this are scaled down before encoding. */
  const MaxDim: int := 512
  const JsonFence: string := "```json"
  const Fence: string := "```"

  datatype Frame = Frame(width: int, height: int)

  /** A frame that was read and encoded; `downscaled` records whether it
      was resized first. The pixels and the JPEG/base64 text are abstract. */
  datatype Encoded = Encoded(index: int, frame: Frame, downscaled: bool)

  datatype ExtractError = FileNotFound | ZeroDivision

  datatype ExtractResult = Frames(frames: seq<Encoded>) | Failed(error: ExtractError)

  // ------------------------------------------------------------ arithmetic

  /** Python's `a // b`, which rounds toward negative infinity. */
  function FloorDiv(a: int, b: int): (q: int)
    requires b != 0
    ensures b > 0 ==> q * b <= a < q * b + b
    ensures b < 0 ==> q * b + b < a <= q * b
  {
    if b > 0 then a / b else (-a) / (-b)
  }

  /** `max(1, total_frames // num_frames)`. */
  function Interval(total: int, num: int): (r: int)
    requires num != 0
    ensures r >= 1 && r >= FloorDiv(total, num)
    ensures r == 1 || r == FloorDiv(total, num)
  {
    var q := FloorDiv(total, num);
    if q > 1 then q else 1
  }

  /** `range(start, stop, step)` for a positive step. */
  function Range(start: int, stop: int, step: int): (r: seq<int>)
    requires step > 0
    ensures r == [] <==> start >= stop
    ensures r != [] ==> r[0] == start
    decreases stop - start
  {
    if start >= stop then [] else [start] + Range(start + step, stop, step)
  }

  predicate Increasing(s: seq<int>) {
    forall i, j :: 0 <= i < j < |s| ==> s[i] < s[j]
  }

  /** The `j`-th element of a range is `start + j * step`, below `stop`,
      and the next candidate after the last element is not below `stop`. */
  lemma {:induction false} RangeElements(start: int, stop: int, step: int)
    requires step > 0
    ensures forall j :: 0 <= j < |Range(start, stop, step)| ==>
      Range(start, stop, step)[j] == start + j * step && Range(start, stop, step)[j] < stop
    ensures start + |Range(start, stop, step)| * step >= stop
    ensures Increasing(Range(start, stop, step))
    decreases stop - start
  {
    if start < stop {
      var r := Range(start, stop, step);
      var rest := Range(start + step, stop, step);
      RangeElements(start + step, stop, step);
      assert |r| == |rest| + 1;
      assert start + |r| * step == (start + step) + |rest| * step;
      forall j | 0 <= j < |r| ensures r[j] == start + j * step && r[j] < stop {
        if j > 0 {
          assert r[j] == rest[j - 1];
          assert start + step + (j - 1) * step == start + j * step;
        }
      }
    }
  }

  /** A range reaches `k` elements when its `k`-th candidate is below `stop`. */
  lemma {:induction false} RangeAtLeast(start: int, stop: int, step: int, k: nat)
    requires step > 0
    requires k > 0 ==> start + (k - 1) * step < stop
    ensures |Range(start, stop, step)| >= k
    decreases k
  {
    if k > 0 {
      assert start <= start + (k - 1) * step;
      assert (start + step) + (k - 2) * step == start + (k - 1) * step;
      RangeAtLeast(start + step, stop, step, k - 1);
    }
  }

  lemma {:induction false} RangeUnitStep(start: int, stop: int)
    ensures |Range(start, stop, 1)| == if start < stop then stop - start else 0
    decreases stop - start
  {
    if start < stop {
      RangeUnitStep(start + 1, stop);
    }
  }

  // ------------------------------------------------------ reading frames

  function Encode(i: int, f: Frame): (e: Encoded)
    ensures e.index == i && e.frame == f
    ensures e.downscaled <==> f.width > MaxDim || f.height > MaxDim
  {
    Encoded(i, f, f.width > MaxDim || f.height > MaxDim)
  }

  /** The frames obtained from the positions `idx`, in order; a failed read
      contributes nothing. */
  function Successes(idx: seq<int>, capture: map<int, Frame>): seq<Encoded>
    decreases |idx|
  {
    if idx == [] then []
    else
      var last := idx[|idx| - 1];
      var got := if last in capture then [Encode(last, capture[last])] else [];
      Successes(idx[..|idx| - 1], capture) + got
  }

  lemma {:induction false} SuccessesAppend(a: seq<int>, b: seq<int>, capture: map<int, Frame>)
    ensures Successes(a + b, capture) == Successes(a, capture) + Successes(b, capture)
    decreases |b|
  {
    if b == [] {
      assert a + b == a;
    } else {
      var b' := b[..|b| - 1];
      assert (a + b)[..|a + b| - 1] == a + b';
      SuccessesAppend(a, b', capture);
    }
  }

  /** Every frame obtained was read at one of the positions, is the frame
      read there and is downscaled exactly when a side exceeds 512 pixels;
      over increasing positions the frames keep that order; when every read
      succeeds, there is one frame per position. */
  lemma {:induction false} SuccessesSpec(idx: seq<int>, capture: map<int, Frame>)
    ensures var out := Successes(idx, capture);
      && |out| <= |idx|
      && (forall j :: 0 <= j < |out| ==>
            && out[j].index in idx
            && out[j].index in capture
            && out[j].frame == capture[out[j].index]
            && (out[j].downscaled <==> out[j].frame.width > MaxDim || out[j].frame.height > MaxDim))
      && ((forall m :: 0 <= m < |idx| ==> idx[m] in capture) ==> |out| == |idx|)
    ensures Increasing(idx) ==>
      forall j1, j2 :: 0 <= j1 < j2 < |Successes(idx, capture)| ==>
        Successes(idx, capture)[j1].index < Successes(idx, capture)[j2].index
    decreases |idx|
  {
    if idx != [] {
      var p := idx[..|idx| - 1];
      var last := idx[|idx| - 1];
      SuccessesSpec(p, capture);
      var out := Successes(idx, capture);
      var op := Successes(p, capture);
      assert forall m :: 0 <= m < |p| ==> p[m] == idx[m];
      forall j | 0 <= j < |out| ensures out[j].index in idx {
        if j < |op| {
          assert out[j] == op[j];
        }
      }

      if Increasing(idx) {
        assert forall j :: 0 <= j < |op| ==> op[j].index < last by {
          forall j | 0 <= j < |op| ensures op[j].index < last {
            var m :| 0 <= m < |p| && p[m] == op[j].index;
          }
        }
        forall j1, j2 | 0 <= j1 < j2 < |out| ensures out[j1].index < out[j2].index {
          assert out[j1] == op[j1];
          if j2 < |op| { assert out[j2] == op[j2]; }
        }
      }
    }
  }

  /** Every position whose read succeeds contributes its frame, whatever the
      other reads give. */
  lemma {:induction false} SuccessesComplete(idx: seq<int>, capture: map<int, Frame>)
    ensures forall m :: 0 <= m < |idx| && idx[m] in capture ==>
      Encode(idx[m], capture[idx[m]]) in Successes(idx, capture)
    decreases |idx|
  {
    if idx != [] {
      var p := idx[..|idx| - 1];
      var last := idx[|idx| - 1];
      SuccessesComplete(p, capture);
      assert forall m :: 0 <= m < |p| ==> p[m] == idx[m];
    }
  }

  /** The first `n` elements of `s`, none when `n` is not positive. */
  function Take<T>(s: seq<T>, n: int): (r: seq<T>)
    ensures |r| == if n <= 0 then 0 else if n < |s| then n else |s|
    ensures r == s[..|r|]
  {
    if n <= 0 then [] else if n < |s| then s[..n] else s
  }

  /** Cutting the frames of all positions at `n` gives those of the positions
      already visited once these reach `n` (or when none are wanted). */
  lemma TakeVisited(visited: seq<Encoded>, rest: seq<Encoded>, n: int)
    requires n <= |visited| && (|visited| <= n || visited == [])
    ensures Take(visited + rest, n) == visited
  {
    if visited != [] {
      assert (visited + rest)[..n] == visited;
    }
  }

  lemma SuccessesSnoc(done: seq<int>, i: int, capture: map<int, Frame>)
    ensures Successes(done + [i], capture)
      == Successes(done, capture) + (if i in capture then [Encode(i, capture[i])] else [])
  {
    assert (done + [i])[..|done|] == done;
  }

  /** The loop of `_extract_frames`: visits `0, interval, 2 * interval, ...`
      below `totalFrames`, stopping once `numFrames` frames are kept. */
  method SampleFrames(totalFrames: int, interval: int, numFrames: int, capture: map<int, Frame>)
    returns (frames: seq<Encoded>)
    requires interval >= 1
    ensures frames == Take(Successes(Range(0, totalFrames, interval), capture), numFrames)
  {
    ghost var all := Range(0, totalFrames, interval);
    ghost var done: seq<int> := [];
    frames := [];
    var i := 0;
    while i < totalFrames
      invariant i >= 0
      invariant all == done + Range(i, totalFrames, interval)
      invariant frames == Successes(done, capture)
      invariant |frames| <= numFrames || frames == []
      decreases totalFrames - i
    {
      if |frames| >= numFrames {
        SuccessesAppend(done, Range(i, totalFrames, interval), capture);
        TakeVisited(frames, Successes(Range(i, totalFrames, interval), capture), numFrames);
        return;
      }
      SuccessesSnoc(done, i, capture);
      if i in capture {
        frames := frames + [Encode(i, capture[i])];
      }
      done := done + [i];
      assert Range(i, totalFrames, interval) == [i] + Range(i + interval, totalFrames, interval);
      assert all == done + Range(i + interval, totalFrames, interval);
      i := i + interval;
    }
    assert done == all;
  }

  /** `Analyzer._extract_frames`. `videoExists` is `os.path.exists(video_path)`,
      `totalFrames` the capture's frame count and `capture` the frames that
      reads at each position return. */
  method ExtractFrames(videoExists: bool, totalFrames: int, capture: map<int, Frame>, numFrames: int := DefaultNumFrames)
    returns (r: ExtractResult)
    ensures !videoExists ==> r == Failed(FileNotFound)
    ensures videoExists && totalFrames == 0 ==> r == Frames([])
    ensures videoExists && totalFrames != 0 && numFrames == 0 ==> r == Failed(ZeroDivision)
    ensures videoExists && totalFrames != 0 && numFrames != 0 ==>
      r == Frames(Take(Successes(Range(0, totalFrames, Interval(totalFrames, numFrames)), capture), numFrames))
  {
    if !videoExists {
      return Failed(FileNotFound);
    }
    if totalFrames == 0 {
      return Frames([]);
    }
    if numFrames == 0 {
      return Failed(ZeroDivision);
    }
    var interval := Interval(totalFrames, numFrames);
    var frames := SampleFrames(totalFrames, interval, numFrames, capture);
    return Frames(frames);
  }

  /** The sampled positions `0, interval, 2 * interval, ...` are increasing
      and lie in `[0, total)`. */
  lemma SampledPositions(total: int, num: int)
    requires num != 0
    ensures var idx := Range(0, total, Interval(total, num));
      && Increasing(idx)
      && forall j :: 0 <= j < |idx| ==> idx[j] == j * Interval(total, num) && 0 <= idx[j] < total
  {
    var step := Interval(total, num);
    RangeElements(0, total, step);
    var idx := Range(0, total, step);
    forall j | 0 <= j < |idx| ensures 0 <= idx[j] {
      assert idx[j] == j * step;
    }
  }

  /** With fewer frames than wanted the interval is 1. */
  lemma ShortVideoInterval(total: int, num: int)
    requires 0 < total < num
    ensures Interval(total, num) == 1
  {
    assert total / num == 0;
  }

  /** With at least as many frames as wanted, the `num`-th position
      `(num - 1) * interval` is still inside the video. */
  lemma LongVideoInterval(total: int, num: int)
    requires 0 < num <= total
    ensures Interval(total, num) == total / num
    ensures (num - 1) * Interval(total, num) < total
  {
    var q := total / num;
    var rem := total % num;
    assert total == q * num + rem && 0 <= rem < num;
    assert q >= 1;
    assert (num - 1) * q == q * num - q;
  }

  /** When every read succeeds, exactly `min(num, total)` frames come back. */
  lemma AllReadsSucceed(total: int, num: int, capture: map<int, Frame>)
    requires total > 0 && num > 0
    requires forall i :: 0 <= i < total ==> i in capture
    ensures var idx := Range(0, total, Interval(total, num));
      |Take(Successes(idx, capture), num)| == if num < total then num else total
  {
    var step := Interval(total, num);
    var idx := Range(0, total, step);
    SampledPositions(total, num);
    SuccessesSpec(idx, capture);
    assert |Successes(idx, capture)| == |idx|;
    if total < num {
      ShortVideoInterval(total, num);
      RangeUnitStep(0, total);
    } else {
      LongVideoInterval(total, num);
      RangeAtLeast(0, total, step, num);
    }
  }

  // ------------------------------------------------ reading the reply text

  /** `result_text.split("```json")[1].split("```")[0]`. */
  function FencedPayload(text: string): string
    requires Contains(text, JsonFence)
  {
    SplitPieces(text, JsonFence);
    Split(Split(text, JsonFence)[1], Fence)[0]
  }

  lemma SplitFirstPiece(s: string, sep: string)
    requires |sep| > 0
    ensures Split(s, sep)[0] == if Find(s, sep).Some? then s[..Find(s, sep).value] else s
  {
  }

  lemma SplitSecondPiece(s: string, sep: string)
    requires |sep| > 0 && Contains(s, sep)
    ensures |Split(s, sep)| >= 2
    ensures Split(s, sep)[1] == Split(s[Find(s, sep).value + |sep|..], sep)[0]
  {
  }

  /** The first piece of a split at "```json" ends at the end of the text
      or where a "```" begins. */
  lemma JsonPieceEnd(a: string)
    ensures var piece := Split(a, JsonFence)[0];
      && |piece| <= |a| && piece == a[..|piece|]
      && (|piece| == |a| || OccursAt(a, Fence, |piece|))
  {
    SplitFirstPiece(a, JsonFence);
    var piece := Split(a, JsonFence)[0];
    var k := |piece|;
    if k < |a| {
      assert OccursAt(a, JsonFence, k);
      assert a[k..k + 3] == a[k..k + 7][..3];
    }
  }

  /** Cutting such a piece at its first "```" leaves a prefix of the text
      without "```" that ends at the end of the text or where a "```" begins. */
  lemma PayloadEnd(a: string, piece: string)
    requires |piece| <= |a| && piece == a[..|piece|]
    requires |piece| == |a| || OccursAt(a, Fence, |piece|)
    ensures var p := Split(piece, Fence)[0];
      && |p| <= |a| && p == a[..|p|]
      && !Contains(p, Fence)
      && (|p| == |a| || OccursAt(a, Fence, |p|))
  {
    SplitFirstPiece(piece, Fence);
    SplitPieces(piece, Fence);
    var p := Split(piece, Fence)[0];
    var k := |p|;
    if k < |piece| {
      assert OccursAt(piece, Fence, k);
      assert piece[k..k + 3] == a[k..k + 3];
    }
  }

  /** The payload is the text right after the first "```json", stops before
      any "```" and is followed by "```" or by the end of the text. */
  lemma FencedPayloadShape(text: string)
    requires Contains(text, JsonFence)
    ensures var i := Find(text, JsonFence).value + |JsonFence|;
      var p := FencedPayload(text);
      && i + |p| <= |text|
      && text[i..i + |p|] == p
      && !Contains(p, Fence)
      && (i + |p| == |text| || OccursAt(text, Fence, i + |p|))
  {
    var i := Find(text, JsonFence).value + |JsonFence|;
    var a := text[i..];
    SplitSecondPiece(text, JsonFence);
    var piece := Split(a, JsonFence)[0];
    JsonPieceEnd(a);
    PayloadEnd(a, piece);
    var p := Split(piece, Fence)[0];
    assert FencedPayload(text) == p;
    InSuffix(text, i, |p|, Fence);
  }

  /** Facts about `text[i..]` read back in `text`. */
  lemma InSuffix(text: string, i: nat, k: nat, pat: string)
    requires i <= |text| && k <= |text| - i
    ensures text[i..][..k] == text[i..i + k]
    ensures OccursAt(text[i..], pat, k) <==> OccursAt(text, pat, i + k)
  {
    if k + |pat| <= |text| - i {
      assert text[i..][k..k + |pat|] == text[i + k..i + k + |pat|];
    }
  }

  /** The first piece of a split is the text up to the first occurrence of
      the separator, or all of it. */
  lemma FirstPiece(s: string, sep: string)
    requires |sep| > 0
    ensures var piece := Split(s, sep)[0];
      && |piece| <= |s| && piece == s[..|piece|]
      && (forall j :: 0 <= j < |piece| ==> !OccursAt(s, sep, j))
      && (|piece| == |s| || OccursAt(s, sep, |piece|))
  {
    SplitFirstPiece(s, sep);
  }

  /** The piece of `text` that starts at `i` and runs to the next "```json"
      (or the end): the first piece of splitting `text[i..]` at "```json". */
  lemma PieceInText(text: string, i: nat)
    requires i <= |text|
    ensures var piece := Split(text[i..], JsonFence)[0];
      && i + |piece| <= |text| && text[i..i + |piece|] == piece
      && (forall k :: i <= k < i + |piece| ==> !OccursAt(text, JsonFence, k))
      && (i + |piece| == |text| || OccursAt(text, JsonFence, i + |piece|))
  {
    var a := text[i..];
    var piece := Split(a, JsonFence)[0];
    FirstPiece(a, JsonFence);
    InSuffix(text, i, |piece|, JsonFence);
    forall k | i <= k < i + |piece| ensures !OccursAt(text, JsonFence, k) {
      InSuffix(text, i, k - i, JsonFence);
    }
  }

  /** The payload is determined by the text: `piece` is what lies between the
      first "```json" and the next one (or the end), and the payload is the
      part of `piece` before its first "```" (or all of it). A "```" that runs
      into the next "```json" does not cut the payload: for the text
      "```json" + "x`````json" the payload is "x``". */
  lemma FencedPayloadExact(text: string)
    requires Contains(text, JsonFence)
    ensures var i := Find(text, JsonFence).value + |JsonFence|;
      var piece := Split(text[i..], JsonFence)[0];
      var p := FencedPayload(text);
      && i + |piece| <= |text| && text[i..i + |piece|] == piece
      && (forall k :: i <= k < i + |piece| ==> !OccursAt(text, JsonFence, k))
      && (i + |piece| == |text| || OccursAt(text, JsonFence, i + |piece|))
      && |p| <= |piece| && p == piece[..|p|]
      && (forall j :: 0 <= j < |p| ==> !OccursAt(piece, Fence, j))
      && (|p| == |piece| || OccursAt(piece, Fence, |p|))
  {
    var i := Find(text, JsonFence).value + |JsonFence|;
    SplitSecondPiece(text, JsonFence);
    var piece := Split(text[i..], JsonFence)[0];
    assert FencedPayload(text) == Split(piece, Fence)[0];
    PieceInText(text, i);
    FirstPiece(piece, Fence);
  }

  /** Where the fences of "```json" + "x``" + "```json" lie. */
  lemma ExampleFences(text: string)
    requires text == JsonFence + "x``" + JsonFence
    ensures OccursAt(text, JsonFence, 0) && OccursAt(text, JsonFence, 10)
    ensures !OccursAt(text, JsonFence, 7) && !OccursAt(text, JsonFence, 8) && !OccursAt(text, JsonFence, 9)
    ensures OccursAt(text, Fence, 8)
    ensures text[7..10] == "x``"
  {
    assert text[0..7] == JsonFence;
    assert text[10..17] == JsonFence;
    assert text[7] == 'x' && text[11] == '`' && text[12] == '`';
    assert text[8..11] == Fence;
  }

  lemma ExamplePiece(text: string)
    requires text == JsonFence + "x``" + JsonFence
    ensures Split(text[7..], JsonFence)[0] == "x``"
  {
    ExampleFences(text);
    PieceInText(text, 7);
    var piece := Split(text[7..], JsonFence)[0];
    assert |piece| == 3;
  }

  lemma ExamplePayload(piece: string)
    requires piece == "x``"
    ensures Split(piece, Fence)[0] == "x``"
  {
    FirstPiece(piece, Fence);
    var p := Split(piece, Fence)[0];
    assert !OccursAt(piece, Fence, 0) by {
      assert piece[0..3][0] == 'x';
    }
    assert |p| == 3;
  }

  /** The example above: the payload keeps a "```" that overlaps the next
      "```json". */
  lemma FenceRunsIntoNextJsonFence()
    ensures var text := JsonFence + "x``" + JsonFence;
      FencedPayload(text) == "x``" && OccursAt(text, Fence, 8)
  {
    var text := JsonFence + "x``" + JsonFence;
    ExampleFences(text);
    assert Find(text, JsonFence) == Some(0);
    SplitSecondPiece(text, JsonFence);
    ExamplePiece(text);
    ExamplePayload("x``");
  }

  /** The reply handling of `analyze`: the whole text when it parses;
      otherwise, if the text contains "```json", the fenced payload parsed
      on its own; otherwise None. Text that does not parse and has no
      "```json" fence is not recovered, whatever it contains. */
  function ParseReply<J>(text: string, loads: string -> Option<J>): (r: Option<J>)
    ensures loads(text).Some? ==> r == loads(text)
    ensures loads(text).None? && !Contains(text, JsonFence) ==> r == None
    ensures loads(text).None? && Contains(text, JsonFence) ==> r == loads(FencedPayload(text))
  {
    match loads(text)
    case Some(v) => Some(v)
    case None =>
      if Contains(text, JsonFence) then loads(FencedPayload(text)) else None
  }
}
