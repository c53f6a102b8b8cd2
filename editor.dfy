/** The timeline composition of `Editor.edit`: the plan's segments are
    defaulted, sorted and clamped to the video, and each surviving segment
    becomes one render unit, the bare subclip or a composite of the subclip
    with the graphics and captions that start inside it. Render units are
    abstract records; the moviepy calls that would build them are not
    modelled. */
module Editor {
  import opened Wrappers
  import opened Plan
  import opened SegmentSort

  /** A graphic's duration when the plan gives none. */
  const DefaultGraphicDuration: real := 3.0
  /** A caption is shown only when it lasts strictly longer than this. */
  const MinCaptionDuration: real := 0.5
  /** Where the edited video is written when the caller names no path. */
  const DefaultOutputPath: string := "output.mp4"

  /** An interval of the source video, in seconds. */
  datatype Span = Span(start: real, end: real) {
    function Length(): real { end - start }
  }

  /** A layer stacked on a unit's subclip, in segment-relative time.
      `index` is the position of the request in the plan's list. */
  datatype Overlay =
    | Graphic(index: nat, path: string, relStart: real, dur: real)
    | Caption(index: nat, text: string, relStart: real, dur: real)

  /** One render unit: the subclip of `span` alone, or a composite of that
      subclip (the implicit bottom layer) and `overlays`, bottom to top. */
  datatype Clip =
    | Subclip(span: Span)
    | Composite(span: Span, overlays: seq<Overlay>)

  /** An empty (or absent) segment list stands for the whole video. */
  function EffectiveSegments(segs: seq<RawSegment>, duration: real): (r: seq<RawSegment>)
    ensures |r| >= 1
    ensures |segs| > 0 ==> r == segs
    ensures |segs| == 0 ==> r == [RawSegment(0.0, Some(duration))]
  {
    if |segs| == 0 then [RawSegment(0.0, Some(duration))] else segs
  }

  /** A segment clamped to `[0, duration]`; "end" defaults to `duration`. */
  function Clamp(seg: RawSegment, duration: real): (r: Span)
    ensures r.start >= 0.0 && (seg.start >= 0.0 ==> r.start == seg.start)
    ensures r.start == 0.0 || r.start == seg.start
    ensures r.end <= duration && r.end <= seg.end.GetOr(duration)
    ensures r.end == duration || r.end == seg.end.GetOr(duration)
  {
    Span(Max(0.0, seg.start), Min(duration, seg.end.GetOr(duration)))
  }

  predicate Kept(span: Span) {
    span.start < span.end
  }

  // ---------------------------------------------------------------- graphics

  /** `graphic_paths.get(i)` is a non-empty path and that path exists. */
  predicate HasAsset(i: nat, paths: map<int, string>, existing: set<string>) {
    i in paths && paths[i] != "" && paths[i] in existing
  }

  predicate GraphicEligible(i: nat, g: GraphicReq, span: Span, paths: map<int, string>, existing: set<string>) {
    span.start <= g.timestamp.GetOr(0.0) < span.end && HasAsset(i, paths, existing)
  }

  /** Graphic `i` is placed exactly when it starts inside the segment and its
      asset exists; it then starts at `timestamp - start` and its duration is
      the requested one cut down so that it ends inside the segment. */
  function PlaceGraphic(i: nat, g: GraphicReq, span: Span, paths: map<int, string>, existing: set<string>): (r: Option<Overlay>)
    ensures r.Some? <==> GraphicEligible(i, g, span, paths, existing)
    ensures r.Some? ==>
      var rel := g.timestamp.GetOr(0.0) - span.start;
      r.value == Graphic(i, paths[i], rel, Min(g.duration.GetOr(DefaultGraphicDuration), span.Length() - rel))
    ensures r.Some? ==>
      0.0 <= r.value.relStart < span.Length() && r.value.relStart + r.value.dur <= span.Length()
  {
    var t := g.timestamp.GetOr(0.0);
    if span.start <= t < span.end && i in paths && paths[i] != "" && paths[i] in existing then
      var d := g.duration.GetOr(DefaultGraphicDuration);
      var rel := t - span.start;
      Some(Graphic(i, paths[i], rel, if rel + d > span.end - span.start then (span.end - span.start) - rel else d))
    else
      None
  }

  function GraphicOptions(gs: seq<GraphicReq>, span: Span, paths: map<int, string>, existing: set<string>): (r: seq<Option<Overlay>>)
    ensures |r| == |gs|
    ensures forall i :: 0 <= i < |gs| ==> r[i] == PlaceGraphic(i, gs[i], span, paths, existing)
  {
    seq(|gs|, i requires 0 <= i < |gs| => PlaceGraphic(i, gs[i], span, paths, existing))
  }

  // ---------------------------------------------------------------- captions

  predicate CaptionEligible(c: CaptionReq, span: Span) {
    var cs := c.start.GetOr(0.0);
    && c.text.GetOr("") != ""
    && span.start <= cs < span.end
    && Min(c.end.GetOr(0.0), span.end) - cs > MinCaptionDuration
  }

  /** Caption `i` is placed exactly when its text is non-empty, it starts
      inside the segment and, with its end capped at the segment end, it
      lasts more than half a second. */
  function PlaceCaption(i: nat, c: CaptionReq, span: Span): (r: Option<Overlay>)
    ensures r.Some? <==> CaptionEligible(c, span)
    ensures r.Some? ==>
      var cs := c.start.GetOr(0.0);
      r.value == Caption(i, c.text.GetOr(""), cs - span.start, Min(c.end.GetOr(0.0), span.end) - cs)
    ensures r.Some? ==>
      && 0.0 <= r.value.relStart < span.Length()
      && r.value.relStart + r.value.dur <= span.Length()
      && r.value.dur > MinCaptionDuration
  {
    var text := c.text.GetOr("");
    var cs := c.start.GetOr(0.0);
    if text != "" && span.start <= cs < span.end then
      var rel := cs - span.start;
      var actualEnd := Min(c.end.GetOr(0.0), span.end);
      var relEnd := actualEnd - span.start;
      var d := relEnd - rel;
      if d > MinCaptionDuration then Some(Caption(i, text, rel, d)) else None
    else
      None
  }

  function CaptionOptions(cs: seq<CaptionReq>, span: Span): (r: seq<Option<Overlay>>)
    ensures |r| == |cs|
    ensures forall i :: 0 <= i < |cs| ==> r[i] == PlaceCaption(i, cs[i], span)
  {
    seq(|cs|, i requires 0 <= i < |cs| => PlaceCaption(i, cs[i], span))
  }

  // ------------------------------------------------------- collecting layers

  /** The placed overlays, in list order. */
  function Somes(s: seq<Option<Overlay>>): seq<Overlay>
    decreases |s|
  {
    if s == [] then []
    else Somes(s[..|s| - 1]) + (if s[|s| - 1].Some? then [s[|s| - 1].value] else [])
  }

  /** One more entry of a prefix adds its overlay, when present, at the end. */
  lemma SomesPrefix(s: seq<Option<Overlay>>, i: nat)
    requires i < |s|
    ensures Somes(s[..i + 1]) == Somes(s[..i]) + (if s[i].Some? then [s[i].value] else [])
  {
    assert s[..i + 1][..i] == s[..i];
  }

  /** Numbered options (entry `i`, when present, has index `i`): the
      collected overlays are exactly the present entries, in increasing
      index order. */
  lemma {:induction false} SomesSpec(s: seq<Option<Overlay>>)
    requires forall i :: 0 <= i < |s| && s[i].Some? ==> s[i].value.index == i
    ensures forall j :: 0 <= j < |Somes(s)| ==>
      Somes(s)[j].index < |s| && s[Somes(s)[j].index] == Some(Somes(s)[j])
    ensures forall j1, j2 :: 0 <= j1 < j2 < |Somes(s)| ==> Somes(s)[j1].index < Somes(s)[j2].index
    ensures forall i :: 0 <= i < |s| && s[i].Some? ==> exists j :: 0 <= j < |Somes(s)| && Somes(s)[j].index == i
    decreases |s|
  {
    if s != [] {
      var p := s[..|s| - 1];
      SomesSpec(p);
      var r := Somes(s);
      assert r == Somes(p) + (if s[|s| - 1].Some? then [s[|s| - 1].value] else []);
      forall i | 0 <= i < |s| && s[i].Some? ensures exists j :: 0 <= j < |r| && r[j].index == i {
        if i < |p| {
          assert p[i] == s[i];
          var j :| 0 <= j < |Somes(p)| && Somes(p)[j].index == i;
          assert r[j] == Somes(p)[j];
        } else {
          assert r[|r| - 1].index == i;
        }
      }
    }
  }

  /** The overlay starts inside the segment and ends no later than it. */
  predicate Inside(o: Overlay, span: Span) {
    0.0 <= o.relStart < span.Length() && o.relStart + o.dur <= span.Length()
  }

  ghost predicate WithinSpan(ov: seq<Overlay>, span: Span) {
    forall j :: 0 <= j < |ov| ==> Inside(ov[j], span)
  }

  lemma {:induction false} SomesEmpty(s: seq<Option<Overlay>>)
    ensures Somes(s) == [] <==> forall i :: 0 <= i < |s| ==> s[i].None?
    decreases |s|
  {
    if s != [] {
      SomesEmpty(s[..|s| - 1]);
      assert forall i :: 0 <= i < |s| - 1 ==> s[..|s| - 1][i] == s[i];
    }
  }

  lemma {:induction false} SomesInside(s: seq<Option<Overlay>>, span: Span)
    requires forall i :: 0 <= i < |s| && s[i].Some? ==> Inside(s[i].value, span)
    ensures WithinSpan(Somes(s), span)
    decreases |s|
  {
    if s != [] {
      var p := s[..|s| - 1];
      assert forall i :: 0 <= i < |p| ==> p[i] == s[i];
      SomesInside(p, span);
    }
  }

  /** The graphics layers of a segment: graphic `i` appears iff it is
      eligible, at most once, as `PlaceGraphic` places it, in index order,
      and inside the segment. */
  lemma GraphicLayers(gs: seq<GraphicReq>, span: Span, paths: map<int, string>, existing: set<string>)
    ensures var ov := Somes(GraphicOptions(gs, span, paths, existing));
      && (forall j :: 0 <= j < |ov| ==>
            && ov[j].index < |gs|
            && GraphicEligible(ov[j].index, gs[ov[j].index], span, paths, existing)
            && Some(ov[j]) == PlaceGraphic(ov[j].index, gs[ov[j].index], span, paths, existing))
      && (forall j1, j2 :: 0 <= j1 < j2 < |ov| ==> ov[j1].index < ov[j2].index)
      && (forall i :: 0 <= i < |gs| && GraphicEligible(i, gs[i], span, paths, existing) ==>
            exists j :: 0 <= j < |ov| && ov[j].index == i)
  {
    SomesSpec(GraphicOptions(gs, span, paths, existing));
  }

  /** The caption layers of a segment, likewise in plan order; each lasts
      more than the minimum duration. */
  lemma CaptionLayers(cs: seq<CaptionReq>, span: Span)
    ensures var ov := Somes(CaptionOptions(cs, span));
      && (forall j :: 0 <= j < |ov| ==>
            && ov[j].index < |cs|
            && CaptionEligible(cs[ov[j].index], span)
            && Some(ov[j]) == PlaceCaption(ov[j].index, cs[ov[j].index], span)
            && ov[j].dur > MinCaptionDuration)
      && (forall j1, j2 :: 0 <= j1 < j2 < |ov| ==> ov[j1].index < ov[j2].index)
      && (forall i :: 0 <= i < |cs| && CaptionEligible(cs[i], span) ==>
            exists j :: 0 <= j < |ov| && ov[j].index == i)
  {
    SomesSpec(CaptionOptions(cs, span));
  }

  // ------------------------------------------------------------ render units

  /** The unit for one kept segment: graphics (plan order) below captions
      (plan order) above the subclip; a composite only if something was placed. */
  function UnitFor(span: Span, gs: seq<GraphicReq>, cs: seq<CaptionReq>, paths: map<int, string>, existing: set<string>): (u: Clip)
    ensures u.span == span
    ensures u.Composite? ==> |u.overlays| > 0
  {
    var ov := Somes(GraphicOptions(gs, span, paths, existing)) + Somes(CaptionOptions(cs, span));
    if |ov| > 0 then Composite(span, ov) else Subclip(span)
  }

  /** A unit is a composite exactly when some graphic or caption is eligible
      for its segment; it then lists the graphics, all of kind Graphic, below
      the captions, and every layer lies inside the segment. */
  lemma UnitShape(span: Span, gs: seq<GraphicReq>, cs: seq<CaptionReq>, paths: map<int, string>, existing: set<string>)
    ensures UnitFor(span, gs, cs, paths, existing).span == span
    ensures UnitFor(span, gs, cs, paths, existing).Composite? <==>
      (exists i :: 0 <= i < |gs| && GraphicEligible(i, gs[i], span, paths, existing)) ||
      (exists i :: 0 <= i < |cs| && CaptionEligible(cs[i], span))
    ensures UnitFor(span, gs, cs, paths, existing).Composite? ==>
      var ov := UnitFor(span, gs, cs, paths, existing).overlays;
      var n := |Somes(GraphicOptions(gs, span, paths, existing))|;
      && (forall j :: 0 <= j < |ov| ==> (ov[j].Graphic? <==> j < n))
      && WithinSpan(ov, span)
  {
    var go := GraphicOptions(gs, span, paths, existing);
    var co := CaptionOptions(cs, span);
    var g := Somes(go);
    var c := Somes(co);
    SomesEmpty(go);
    SomesEmpty(co);
    SomesInside(go, span);
    SomesInside(co, span);
    SomesKind(go, true);
    SomesKind(co, false);
    if (exists i :: 0 <= i < |gs| && GraphicEligible(i, gs[i], span, paths, existing)) {
      var i :| 0 <= i < |gs| && GraphicEligible(i, gs[i], span, paths, existing);
      assert go[i].Some?;
    }
    if (exists i :: 0 <= i < |cs| && CaptionEligible(cs[i], span)) {
      var i :| 0 <= i < |cs| && CaptionEligible(cs[i], span);
      assert co[i].Some?;
    }
    forall j | 0 <= j < |g + c| ensures Inside((g + c)[j], span) && ((g + c)[j].Graphic? <==> j < |g|) {
      if j < |g| { assert (g + c)[j] == g[j]; } else { assert (g + c)[j] == c[j - |g|]; }
    }
  }

  /** Options that are all graphics (or all captions) collect to overlays of that kind. */
  lemma {:induction false} SomesKind(s: seq<Option<Overlay>>, graphic: bool)
    requires forall i :: 0 <= i < |s| && s[i].Some? ==> s[i].value.Graphic? == graphic
    ensures forall j :: 0 <= j < |Somes(s)| ==> Somes(s)[j].Graphic? == graphic
    decreases |s|
  {
    if s != [] {
      var p := s[..|s| - 1];
      assert forall i :: 0 <= i < |p| ==> p[i] == s[i];
      SomesKind(p, graphic);
    }
  }

  /** The units of `segs`, in list order, one per segment that is not
      degenerate after clamping. */
  function Compose(segs: seq<RawSegment>, duration: real, gs: seq<GraphicReq>, cs: seq<CaptionReq>,
                   paths: map<int, string>, existing: set<string>): (r: seq<Clip>)
    ensures |r| <= |segs|
    decreases |segs|
  {
    if segs == [] then []
    else
      var span := Clamp(segs[|segs| - 1], duration);
      var unit := if Kept(span) then [UnitFor(span, gs, cs, paths, existing)] else [];
      Compose(segs[..|segs| - 1], duration, gs, cs, paths, existing) + unit
  }

  /** The positions of the segments that survive clamping, in order. */
  ghost function KeptIndices(segs: seq<RawSegment>, duration: real): seq<nat>
    decreases |segs|
  {
    if segs == [] then []
    else
      var last := if Kept(Clamp(segs[|segs| - 1], duration)) then [|segs| - 1] else [];
      KeptIndices(segs[..|segs| - 1], duration) + last
  }

  /** The surviving positions are exactly those of the non-degenerate
      segments, in increasing order. */
  lemma {:induction false} KeptIndicesSpec(segs: seq<RawSegment>, duration: real)
    ensures var ks := KeptIndices(segs, duration);
      && (forall j :: 0 <= j < |ks| ==> ks[j] < |segs|)
      && (forall j1, j2 :: 0 <= j1 < j2 < |ks| ==> ks[j1] < ks[j2])
      && (forall i :: 0 <= i < |segs| ==> (Kept(Clamp(segs[i], duration)) <==> i in ks))
    decreases |segs|
  {
    if segs != [] {
      var p := segs[..|segs| - 1];
      KeptIndicesSpec(p, duration);
      var ks := KeptIndices(segs, duration);
      var kp := KeptIndices(p, duration);
      assert ks == kp + (if Kept(Clamp(segs[|segs| - 1], duration)) then [|segs| - 1] else []);
      forall i | 0 <= i < |p| ensures Kept(Clamp(segs[i], duration)) <==> i in ks {
        assert p[i] == segs[i];
        assert i in ks <==> i in kp;
      }
    }
  }

  /** Unit `j` is the unit of the `j`-th surviving segment. */
  lemma {:induction false} ComposeOrder(segs: seq<RawSegment>, duration: real, gs: seq<GraphicReq>, cs: seq<CaptionReq>,
                                        paths: map<int, string>, existing: set<string>)
    ensures var out := Compose(segs, duration, gs, cs, paths, existing);
      var ks := KeptIndices(segs, duration);
      && |out| == |ks|
      && (forall j :: 0 <= j < |ks| ==> ks[j] < |segs| && out[j] == UnitFor(Clamp(segs[ks[j]], duration), gs, cs, paths, existing))
    decreases |segs|
  {
    if segs != [] {
      var p := segs[..|segs| - 1];
      ComposeOrder(p, duration, gs, cs, paths, existing);
      var span := Clamp(segs[|segs| - 1], duration);
      var ks := KeptIndices(segs, duration);
      var kp := KeptIndices(p, duration);
      var out := Compose(segs, duration, gs, cs, paths, existing);
      var op := Compose(p, duration, gs, cs, paths, existing);
      var unit := if Kept(span) then [UnitFor(span, gs, cs, paths, existing)] else [];
      var last := if Kept(span) then [|segs| - 1] else [];
      assert out == op + unit;
      assert ks == kp + last;
      forall j | 0 <= j < |ks|
        ensures ks[j] < |segs| && out[j] == UnitFor(Clamp(segs[ks[j]], duration), gs, cs, paths, existing)
      {
        if j < |kp| {
          assert ks[j] == kp[j] && out[j] == op[j];
          assert p[kp[j]] == segs[kp[j]];
        } else {
          assert ks[j] == |segs| - 1 && out[j] == unit[0];
        }
      }
    }
  }

  predicate InVideo(c: Clip, duration: real) {
    0.0 <= c.span.start < c.span.end <= duration
  }

  /** Every unit lies inside the video: `0 <= start < end <= duration`. */
  lemma {:induction false} ClipsWithinVideo(segs: seq<RawSegment>, duration: real, gs: seq<GraphicReq>, cs: seq<CaptionReq>,
                                            paths: map<int, string>, existing: set<string>)
    ensures forall j :: 0 <= j < |Compose(segs, duration, gs, cs, paths, existing)| ==>
      InVideo(Compose(segs, duration, gs, cs, paths, existing)[j], duration)
    decreases |segs|
  {
    if segs != [] {
      var p := segs[..|segs| - 1];
      ClipsWithinVideo(p, duration, gs, cs, paths, existing);
      var span := Clamp(segs[|segs| - 1], duration);
      var op := Compose(p, duration, gs, cs, paths, existing);
      var out := Compose(segs, duration, gs, cs, paths, existing);
      if Kept(span) {
        UnitShape(span, gs, cs, paths, existing);
        var u := UnitFor(span, gs, cs, paths, existing);
        assert out == op + [u];
        assert InVideo(u, duration);
        forall j | 0 <= j < |out| ensures InVideo(out[j], duration) {
          if j < |op| { assert out[j] == op[j]; } else { assert out[j] == u; }
        }
      } else {
        assert out == op;
      }
    }
  }

  /** Over segments sorted by raw start, units come out with non-decreasing starts. */
  lemma ClipStartsOrdered(segs: seq<RawSegment>, duration: real, gs: seq<GraphicReq>, cs: seq<CaptionReq>,
                          paths: map<int, string>, existing: set<string>)
    requires SortedByStart(segs)
    ensures var out := Compose(segs, duration, gs, cs, paths, existing);
      forall j1, j2 :: 0 <= j1 < j2 < |out| ==> out[j1].span.start <= out[j2].span.start
  {
    ComposeOrder(segs, duration, gs, cs, paths, existing);
    KeptIndicesSpec(segs, duration);
    var out := Compose(segs, duration, gs, cs, paths, existing);
    var ks := KeptIndices(segs, duration);
    forall j1, j2 | 0 <= j1 < j2 < |out| ensures out[j1].span.start <= out[j2].span.start {
      UnitShape(Clamp(segs[ks[j1]], duration), gs, cs, paths, existing);
      UnitShape(Clamp(segs[ks[j2]], duration), gs, cs, paths, existing);
      assert segs[ks[j1]].start <= segs[ks[j2]].start;
    }
  }

  /** No unit at all exactly when every segment is degenerate after clamping:
      there is no fallback to the whole video at this stage. */
  lemma NoClipsIffAllDegenerate(segs: seq<RawSegment>, duration: real, gs: seq<GraphicReq>, cs: seq<CaptionReq>,
                                paths: map<int, string>, existing: set<string>)
    ensures Compose(segs, duration, gs, cs, paths, existing) == [] <==>
      forall i :: 0 <= i < |segs| ==> !Kept(Clamp(segs[i], duration))
  {
    ComposeOrder(segs, duration, gs, cs, paths, existing);
    KeptIndicesSpec(segs, duration);
    var ks := KeptIndices(segs, duration);
    if ks != [] {
      assert ks[0] in ks;
    }
  }

  /** An empty segment list yields one unit covering the whole video (none
      when the video has no positive length). */
  lemma WholeVideoDefault(duration: real, gs: seq<GraphicReq>, cs: seq<CaptionReq>,
                          paths: map<int, string>, existing: set<string>)
    ensures var out := Compose(StableSort(EffectiveSegments([], duration)), duration, gs, cs, paths, existing);
      if duration > 0.0 then |out| == 1 && out[0].span == Span(0.0, duration) else out == []
  {
    var segs := EffectiveSegments([], duration);
    assert StableSort(segs) == segs by {
      assert segs[..0] == [];
    }
    assert segs[..0] == [];
    if duration > 0.0 {
      UnitShape(Span(0.0, duration), gs, cs, paths, existing);
    }
  }

  /** What `edit` renders, from any segment list: units inside the video,
      in non-decreasing order of start. */
  lemma RenderOrder(segs: seq<RawSegment>, duration: real, gs: seq<GraphicReq>, cs: seq<CaptionReq>,
                    paths: map<int, string>, existing: set<string>)
    ensures var out := Compose(StableSort(EffectiveSegments(segs, duration)), duration, gs, cs, paths, existing);
      && (forall j :: 0 <= j < |out| ==> InVideo(out[j], duration))
      && (forall j1, j2 :: 0 <= j1 < j2 < |out| ==> out[j1].span.start <= out[j2].span.start)
  {
    var sorted := StableSort(EffectiveSegments(segs, duration));
    StableSortCorrect(EffectiveSegments(segs, duration));
    ClipsWithinVideo(sorted, duration, gs, cs, paths, existing);
    ClipStartsOrdered(sorted, duration, gs, cs, paths, existing);
  }

  /** Placement is by start time only: a graphic that starts at 4 s with 3 s
      requested, over the segments [0, 5] and [5, 10], is placed once, in
      the first segment, cut to 1 s; the second segment gets nothing. */
  lemma StartOnlyPlacement()
    ensures var g := GraphicReq(Some(4.0), Some(3.0));
      && PlaceGraphic(0, g, Span(0.0, 5.0), map[0 := "g.png"], {"g.png"}) == Some(Graphic(0, "g.png", 4.0, 1.0))
      && PlaceGraphic(0, g, Span(5.0, 10.0), map[0 := "g.png"], {"g.png"}) == None
  {
  }

  // ----------------------------------------------------------------- methods

  /** One iteration of the graphics loop: graphic `i` against one segment. */
  method PlaceOneGraphic(i: nat, g: GraphicReq, span: Span, paths: map<int, string>, existing: set<string>)
    returns (placed: Option<Overlay>)
    ensures placed == PlaceGraphic(i, g, span, paths, existing)
  {
    placed := None;
    var t := g.timestamp.GetOr(0.0);
    if span.start <= t < span.end {
      if i in paths && paths[i] != "" && paths[i] in existing {
        var duration := g.duration.GetOr(DefaultGraphicDuration);
        var rel := t - span.start;
        if rel + duration > span.end - span.start {
          duration := (span.end - span.start) - rel;
        }
        placed := Some(Graphic(i, paths[i], rel, duration));
      }
    }
  }

  /** The graphics loop of one segment. */
  method CollectGraphics(span: Span, gs: seq<GraphicReq>, paths: map<int, string>, existing: set<string>)
    returns (layers: seq<Overlay>)
    ensures layers == Somes(GraphicOptions(gs, span, paths, existing))
  {
    ghost var opts := GraphicOptions(gs, span, paths, existing);
    layers := [];
    var i := 0;
    while i < |gs|
      invariant 0 <= i <= |gs|
      invariant layers == Somes(opts[..i])
    {
      var placed := PlaceOneGraphic(i, gs[i], span, paths, existing);
      assert placed == opts[i];
      if placed.Some? {
        layers := layers + [placed.value];
      }
      SomesPrefix(opts, i);
      i := i + 1;
    }
    assert opts[..|gs|] == opts;
  }

  /** One iteration of the captions loop: caption `i` against one segment. */
  method PlaceOneCaption(i: nat, c: CaptionReq, span: Span) returns (placed: Option<Overlay>)
    ensures placed == PlaceCaption(i, c, span)
  {
    placed := None;
    var cStart := c.start.GetOr(0.0);
    var cEnd := c.end.GetOr(0.0);
    var text := c.text.GetOr("");
    if text != "" && span.start <= cStart < span.end {
      var rel := cStart - span.start;
      var actualEnd := Min(cEnd, span.end);
      var relEnd := actualEnd - span.start;
      var duration := relEnd - rel;
      if duration > MinCaptionDuration {
        placed := Some(Caption(i, text, rel, duration));
      }
    }
  }

  /** The captions loop of one segment. */
  method CollectCaptions(span: Span, cs: seq<CaptionReq>) returns (layers: seq<Overlay>)
    ensures layers == Somes(CaptionOptions(cs, span))
  {
    ghost var opts := CaptionOptions(cs, span);
    layers := [];
    var i := 0;
    while i < |cs|
      invariant 0 <= i <= |cs|
      invariant layers == Somes(opts[..i])
    {
      var placed := PlaceOneCaption(i, cs[i], span);
      assert placed == opts[i];
      if placed.Some? {
        layers := layers + [placed.value];
      }
      SomesPrefix(opts, i);
      i := i + 1;
    }
    assert opts[..|cs|] == opts;
  }

  /** The segment loop: clamps each segment, skips degenerate ones and emits
      one unit per remaining segment. */
  method BuildClips(segs: seq<RawSegment>, duration: real, gs: seq<GraphicReq>, cs: seq<CaptionReq>,
                    paths: map<int, string>, existing: set<string>)
    returns (clips: seq<Clip>)
    ensures clips == Compose(segs, duration, gs, cs, paths, existing)
  {
    clips := [];
    var k := 0;
    while k < |segs|
      invariant 0 <= k <= |segs|
      invariant clips == Compose(segs[..k], duration, gs, cs, paths, existing)
    {
      var start := segs[k].start;
      var end := segs[k].end.GetOr(duration);
      start := Max(0.0, start);
      end := Min(duration, end);
      assert segs[..k + 1][..k] == segs[..k];
      if start < end {
        var span := Span(start, end);
        var g := CollectGraphics(span, gs, paths, existing);
        var c := CollectCaptions(span, cs);
        var layers := g + c;
        if |layers| > 0 {
          clips := clips + [Composite(span, layers)];
        } else {
          clips := clips + [Subclip(span)];
        }
      }
      k := k + 1;
    }
    assert segs[..|segs|] == segs;
  }

  /** `Editor.edit`. `video` is the loaded clip's duration, or None when
      loading fails; `existing` is the set of paths that exist; `writeOk`
      says whether concatenating and writing the file succeed. The plan's
      segment array is sorted in place (the caller's list is the one sorted);
      `clips` is the render list handed to the backend. */
  method Edit(video: Option<real>, segments: array<RawSegment>, graphics: seq<GraphicReq>, captions: seq<CaptionReq>,
              graphicPaths: map<int, string>, existing: set<string>, writeOk: bool,
              outputPath: string := DefaultOutputPath)
    returns (result: Option<string>, clips: seq<Clip>)
    modifies segments
    ensures video.None? ==> clips == [] && segments[..] == old(segments[..])
    ensures video.Some? ==> segments[..] == StableSort(old(segments[..]))
    ensures video.Some? ==>
      clips == Compose(StableSort(EffectiveSegments(old(segments[..]), video.value)), video.value,
                       graphics, captions, graphicPaths, existing)
    ensures result == if video.Some? && |clips| > 0 && writeOk then Some(outputPath) else None
  {
    if video.None? {
      return None, [];
    }
    var duration := video.value;
    var list := segments;
    if segments.Length == 0 {
      list := new RawSegment[1](_ => RawSegment(0.0, Some(duration)));
      assert list[..] == EffectiveSegments(segments[..], duration);
    }
    SortByStart(list);
    clips := BuildClips(list[..], duration, graphics, captions, graphicPaths, existing);
    if |clips| > 0 && writeOk {
      result := Some(outputPath);
    } else {
      result := None;
    }
  }
}
