/**
  The sentence layout composer `convert_sentence_2_shirataki` of src/bsc.rs
  with its coordinate transform `compress_bsc_coordinate`.

  The composer walks the placed glyphs in order. Main strokes accumulate into
  one segment; the segment is flushed as a group of its own before a glyph
  whose placement is lower than the previous one (y decreased, starting from
  0) or whose main stroke is shorter than four points. Each indicator stroke
  is emitted as its own group, and a final flush follows the last glyph.

  The composer's output is described here without its loop state: a glyph k
  "flushes" (FlushAt), the pending segment after n glyphs is the placed main
  strokes since the last flush (Segment), and the groups are, glyph by glyph,
  the flushed segment (if any) followed by the glyph's indicator strokes.
*/
module Layout {
  import opened Glyph
  import opened Smoothing
  import opened Extrusion

  /** compress_bsc_coordinate: scales the x offset from the centre 0.5; y and the velocity are untouched. */
  function CompressBscCoordinate(v: Vec4, compressX: real): (r: Vec4)
    ensures r.x - 0.5 == (v.x - 0.5) * compressX
    ensures r.y == v.y && r.vx == v.vx && r.vy == v.vy
    ensures compressX == 1.0 ==> r == v
    ensures v.x == 0.5 ==> r == v
  {
    Vec4((v.x - 0.5) * compressX + 0.5, v.y, v.vx, v.vy)
  }

  /** One point compressed and then translated by the placement; the velocity is untouched. */
  function PlacePoint(v: Vec4, place: Vec2, compressX: real): (r: Vec4)
    ensures r.x == CompressBscCoordinate(v, compressX).x + place.x
    ensures r.y == v.y + place.y
    ensures r.vx == v.vx && r.vy == v.vy
  {
    var c := CompressBscCoordinate(v, compressX);
    Vec4(c.x + place.x, c.y + place.y, c.vx + 0.0, c.vy + 0.0)
  }

  /** A whole stroke placed point by point (the `.map(...).collect()` of the composer). */
  function PlaceLine(line: D4Line, place: Vec2, compressX: real): (r: D4Line)
    ensures |r| == |line|
    ensures forall i :: 0 <= i < |line| ==> r[i] == PlacePoint(line[i], place, compressX)
  {
    seq(|line|, i requires 0 <= i < |line| => PlacePoint(line[i], place, compressX))
  }

  /** Every indicator stroke of a glyph placed, one group each. */
  function PlaceLines(lines: seq<D4Line>, place: Vec2, compressX: real): (r: seq<D4Line>)
    ensures |r| == |lines|
    ensures forall i :: 0 <= i < |lines| ==> r[i] == PlaceLine(lines[i], place, compressX)
  {
    seq(|lines|, i requires 0 <= i < |lines| => PlaceLine(lines[i], place, compressX))
  }

  /** The `y_before` seen by glyph k: 0 for the first glyph, else the previous glyph's placement y. */
  function YBefore(s: Sentence, k: nat): real
    requires k <= |s|
  {
    if k == 0 then 0.0 else s[k - 1].place.y
  }

  /** Glyph k flushes the pending segment: its line is lower, or its main stroke is degenerate. */
  predicate FlushAt(s: Sentence, k: nat)
    requires k < |s|
  {
    YBefore(s, k) > s[k].place.y || |s[k].bsc.main| < 4
  }

  /**
    When a glyph flushes: the first glyph when it lies below y = 0, a later
    one when it lies below its predecessor, and any glyph whose main stroke
    has fewer than four points.
  */
  lemma FlushAtCases(s: Sentence, k: nat)
    requires k < |s|
    ensures k == 0 ==> (FlushAt(s, k) <==> s[0].place.y < 0.0 || |s[0].bsc.main| < 4)
    ensures k > 0 ==> (FlushAt(s, k) <==> s[k].place.y < s[k - 1].place.y || |s[k].bsc.main| < 4)
    ensures |s[k].bsc.main| < 4 ==> FlushAt(s, k)
  {
  }

  /** The last glyph before n that flushed, or 0 when none did. */
  function LastFlush(s: Sentence, n: nat): (k: nat)
    requires n <= |s|
    ensures k <= n
    ensures n > 0 ==> k < n
    ensures k < n ==> FlushAt(s, k) || k == 0
    ensures forall m :: k < m < n ==> !FlushAt(s, m)
  {
    if n == 0 then 0
    else if FlushAt(s, n - 1) then n - 1
    else LastFlush(s, n - 1)
  }

  /** The placed main strokes of glyphs a .. b - 1, concatenated in input order. */
  function PlacedMain(s: Sentence, a: nat, b: nat, compressX: real): D4Line
    requires a <= b <= |s|
    decreases b - a
  {
    if a == b then []
    else PlacedMain(s, a, b - 1, compressX) + PlaceLine(s[b - 1].bsc.main, s[b - 1].place, compressX)
  }

  /** The pending main-stroke segment after n glyphs: everything since the last flush. */
  function Segment(s: Sentence, n: nat, compressX: real): D4Line
    requires n <= |s|
  {
    PlacedMain(s, LastFlush(s, n), n, compressX)
  }

  /** The groups glyph k emits: the flushed segment, if it flushes, then its indicator strokes. */
  function Emit(s: Sentence, k: nat, compressX: real): seq<D4Line>
    requires k < |s|
  {
    (if FlushAt(s, k) then [Segment(s, k, compressX)] else [])
      + PlaceLines(s[k].bsc.ind, s[k].place, compressX)
  }

  /**
    What one glyph emits: the pending segment first when it flushes, then
    each of its indicator strokes placed, in order, one group each.
  */
  lemma EmitGroups(s: Sentence, k: nat, compressX: real)
    requires k < |s|
    ensures |Emit(s, k, compressX)| == (if FlushAt(s, k) then 1 else 0) + |s[k].bsc.ind|
    ensures FlushAt(s, k) ==> Emit(s, k, compressX)[0] == Segment(s, k, compressX)
    ensures forall i :: 0 <= i < |s[k].bsc.ind| ==>
      Emit(s, k, compressX)[|Emit(s, k, compressX)| - |s[k].bsc.ind| + i]
        == PlaceLine(s[k].bsc.ind[i], s[k].place, compressX)
  {
  }

  /** The groups emitted by the first n glyphs. */
  function Emitted(s: Sentence, n: nat, compressX: real): seq<D4Line>
    requires n <= |s|
  {
    if n == 0 then [] else Emitted(s, n - 1, compressX) + Emit(s, n - 1, compressX)
  }

  /**
    The composer's groups before smoothing: everything emitted, then the
    final flush. There is one group per flushing glyph, one per indicator
    stroke, and the final one, which holds the main strokes since the last
    flush.
  */
  function Compose(s: Sentence, compressX: real): (groups: seq<D4Line>)
    ensures |groups| == FlushCount(s, |s|) + IndCount(s, |s|) + 1
    ensures groups[|groups| - 1] == PlacedMain(s, LastFlush(s, |s|), |s|, compressX)
  {
    EmittedCount(s, |s|, compressX);
    Emitted(s, |s|, compressX) + [Segment(s, |s|, compressX)]
  }

  /** Number of flushing glyphs among the first n. */
  function FlushCount(s: Sentence, n: nat): nat
    requires n <= |s|
  {
    if n == 0 then 0 else FlushCount(s, n - 1) + (if FlushAt(s, n - 1) then 1 else 0)
  }

  /** Number of indicator strokes among the first n glyphs. */
  function IndCount(s: Sentence, n: nat): nat
    requires n <= |s|
  {
    if n == 0 then 0 else IndCount(s, n - 1) + |s[n - 1].bsc.ind|
  }

  /** The main-stroke groups flushed by the first n glyphs, concatenated. */
  function FlushedMain(s: Sentence, n: nat, compressX: real): D4Line
    requires n <= |s|
  {
    if n == 0 then []
    else FlushedMain(s, n - 1, compressX) + (if FlushAt(s, n - 1) then Segment(s, n - 1, compressX) else [])
  }

  lemma {:induction false} EmittedCount(s: Sentence, n: nat, compressX: real)
    requires n <= |s|
    ensures |Emitted(s, n, compressX)| == FlushCount(s, n) + IndCount(s, n)
  {
    if n > 0 {
      EmittedCount(s, n - 1, compressX);
    }
  }

  /**
    No main-stroke point is lost or reordered: the flushed segments followed
    by the final one concatenate to all placed main strokes in input order.
  */
  lemma {:induction false} MainStrokesPreserved(s: Sentence, n: nat, compressX: real)
    requires n <= |s|
    ensures FlushedMain(s, n, compressX) + Segment(s, n, compressX) == PlacedMain(s, 0, n, compressX)
  {
    if n > 0 {
      MainStrokesPreserved(s, n - 1, compressX);
      var line := PlaceLine(s[n - 1].bsc.main, s[n - 1].place, compressX);
      if FlushAt(s, n - 1) {
        assert Segment(s, n, compressX) == PlacedMain(s, n - 1, n - 1, compressX) + line;
      } else {
        assert Segment(s, n, compressX) == Segment(s, n - 1, compressX) + line;
      }
    }
  }

  /**
    Glyphs that never break the line keep one segment: when no glyph after
    the first flushes, the final group is every placed main stroke in order.
  */
  lemma {:induction false} UnbrokenLineIsOneSegment(s: Sentence, n: nat, compressX: real)
    requires n <= |s|
    requires forall k :: 0 < k < n ==> !FlushAt(s, k)
    ensures Segment(s, n, compressX) == PlacedMain(s, 0, n, compressX)
  {
    if n > 0 {
      UnbrokenLineIsOneSegment(s, n - 1, compressX);
    }
  }

  /**
    The single-glyph sentence drawn each frame: a leading empty group when the
    glyph is below y = 0 or degenerate, then its indicator strokes, then its
    main stroke.
  */
  lemma SingleGlyph(pb: PlaceBsc, compressX: real)
    ensures Compose([pb], compressX)
         == (if 0.0 > pb.place.y || |pb.bsc.main| < 4 then [[]] else [])
            + PlaceLines(pb.bsc.ind, pb.place, compressX)
            + [PlaceLine(pb.bsc.main, pb.place, compressX)]
  {
    var s := [pb];
    var line := PlaceLine(pb.bsc.main, pb.place, compressX);
    assert Segment(s, 0, compressX) == [];
    assert LastFlush(s, 1) == 0;
    assert PlacedMain(s, 0, 1, compressX) == PlacedMain(s, 0, 0, compressX) + line;
    assert Segment(s, 1, compressX) == line;
    assert Emitted(s, 1, compressX) == Emit(s, 0, compressX);
  }

  /** Every group smoothed independently. */
  function SmoothAll(groups: seq<D4Line>, lib: SplineLib): (dense: seq<D4Line>)
    ensures |dense| == |groups|
  {
    seq(|groups|, i requires 0 <= i < |groups| => Smooth(groups[i], lib))
  }

  /** The pending segment after glyph k: restarted when k flushes, then extended by k's placed main stroke. */
  lemma SegmentStep(s: Sentence, k: nat, compressX: real)
    requires k < |s|
    ensures Segment(s, k + 1, compressX)
         == (if FlushAt(s, k) then [] else Segment(s, k, compressX)) + PlaceLine(s[k].bsc.main, s[k].place, compressX)
  {
    if FlushAt(s, k) {
      assert PlacedMain(s, k, k + 1, compressX) == PlacedMain(s, k, k, compressX) + PlaceLine(s[k].bsc.main, s[k].place, compressX);
    }
  }

  /** The inner loop of the composer: each indicator stroke of one glyph placed and pushed as its own group. */
  method PushIndicators(groups: seq<D4Line>, ind: seq<D4Line>, place: Vec2, compressX: real) returns (r: seq<D4Line>)
    ensures r == groups + PlaceLines(ind, place, compressX)
  {
    r := groups;
    for i := 0 to |ind|
      invariant r == groups + PlaceLines(ind, place, compressX)[..i]
    {
      assert PlaceLines(ind, place, compressX)[..i + 1]
          == PlaceLines(ind, place, compressX)[..i] + [PlaceLine(ind[i], place, compressX)];
      r := r + [PlaceLine(ind[i], place, compressX)];
    }
    assert PlaceLines(ind, place, compressX)[..|ind|] == PlaceLines(ind, place, compressX);
  }

  /** The grouping loop of the composer, followed by the final flush. */
  method GroupSentence(sentence: Sentence, compressX: real) returns (d4shirataki: seq<D4Line>)
    ensures d4shirataki == Compose(sentence, compressX)
  {
    var seqPart: D4Line := [];
    d4shirataki := [];
    var yBefore := 0.0;
    for k := 0 to |sentence|
      invariant d4shirataki == Emitted(sentence, k, compressX)
      invariant seqPart == Segment(sentence, k, compressX)
      invariant yBefore == YBefore(sentence, k)
    {
      var place := sentence[k].place;
      var main := sentence[k].bsc.main;
      SegmentStep(sentence, k, compressX);
      if yBefore > place.y || |main| < 4 {
        d4shirataki := d4shirataki + [seqPart];
        seqPart := [];
      }
      seqPart := seqPart + PlaceLine(main, place, compressX);
      d4shirataki := PushIndicators(d4shirataki, sentence[k].bsc.ind, place, compressX);
      yBefore := place.y;
    }
    d4shirataki := d4shirataki + [seqPart];
  }

  /** The smoothing loop of the composer: every group replaced in place by its B-spline samples. */
  method SmoothGroups(groups: seq<D4Line>, lib: SplineLib) returns (d4shirataki: seq<D4Line>)
    ensures d4shirataki == SmoothAll(groups, lib)
  {
    d4shirataki := groups;
    for i := 0 to |d4shirataki|
      invariant |d4shirataki| == |groups|
      invariant forall m :: 0 <= m < i ==> d4shirataki[m] == Smooth(groups[m], lib)
      invariant forall m :: i <= m < |groups| ==> d4shirataki[m] == groups[m]
    {
      var dense := BsplineForD4Line(d4shirataki[i], lib);
      d4shirataki := d4shirataki[i := dense];
    }
  }

  /**
    convert_sentence_2_shirataki: group the sentence, smooth every group in
    place, and extrude the groups into resolution + 1 polylines each.
  */
  method ConvertSentence2Shirataki(sentence: Sentence, resolution: nat, boldness: real, compressX: real, lib: SplineLib)
    returns (shirataki: seq<D2Line>)
    ensures shirataki == Extrude(SmoothAll(Compose(sentence, compressX), lib), resolution, boldness)
    ensures |shirataki| == (resolution + 1) * (FlushCount(sentence, |sentence|) + IndCount(sentence, |sentence|) + 1)
  {
    var groups := GroupSentence(sentence, compressX);
    var d4shirataki := SmoothGroups(groups, lib);
    shirataki := D4ToD2(d4shirataki, resolution, boldness);
    ExtrudeLength(d4shirataki, resolution, boldness);
  }
}
