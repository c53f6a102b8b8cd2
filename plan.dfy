/** The editing plan as `Editor.edit` reads it (the "segments", "graphics"
    and "captions" arrays of the analysis dictionary), and Python's `min` and
    `max` on timestamps. Every optional dictionary key is an `Option`. */
module Plan {
  import opened Wrappers

  /** One entry of "segments". The sort key `x["start"]` is read without a
      default, so "start" is always present; "end" defaults to the video length. */
  datatype RawSegment = RawSegment(start: real, end: Option<real>)

  /** One entry of "graphics": "timestamp" defaults to 0 and "duration" to 3.0. */
  datatype GraphicReq = GraphicReq(timestamp: Option<real>, duration: Option<real>)

  /** One entry of "captions": "start" and "end" default to 0, "text" to "". */
  datatype CaptionReq = CaptionReq(start: Option<real>, end: Option<real>, text: Option<string>)

  function Min(a: real, b: real): (r: real)
    ensures r <= a && r <= b && (r == a || r == b)
  {
    if b < a then b else a
  }

  function Max(a: real, b: real): (r: real)
    ensures r >= a && r >= b && (r == a || r == b)
  {
    if b > a then b else a
  }
}
