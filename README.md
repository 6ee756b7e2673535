# mujica_bsc glyph pipeline in Dafny

A model of the glyph geometry pipeline of mujica_bsc, a nannou sketch that
generates calligraphy-like glyphs ("bsc", `BsCharactor`), animates them and
draws them as bundles of thick B-spline strokes ("shirataki").

A glyph has a main stroke (`seq` in the source, `main` here, because `seq` is
a Dafny keyword) and a list of indicator strokes (`ind`). Each stroke is a
list of control points `(x, y, vx, vy)`. The model covers:

- **Generation** (`glyph.dfy`, `generate.dfy`). `create_simple_bsf` draws the
  main stroke and each indicator stroke from raw samples. It reverses the main
  stroke when it runs right to left. `random_vec2`/`random_d4` give the
  coordinate and velocity arithmetic. The random generator is an input
  sequence of samples in [0, 1), consumed four per point.
- **The per-tick integrator** (`dynamics.dfy`). `move_point` nudges each
  velocity component back towards the safe band around the centre, then takes
  an Euler step. `mujica` applies it in place to every control point of the
  live glyph, a `class LiveBsc` whose two stroke fields are overwritten in
  nested loops.
- **The sentence layout composer** (`layout.dfy`). `convert_sentence_2_shirataki`
  places every glyph with `compress_bsc_coordinate` and the placement offset.
  It accumulates main strokes into a segment that is flushed before a glyph
  placed lower than the previous one or with fewer than four points. It emits
  each indicator stroke as its own group, adds a final flush, then smooths and
  extrudes every group. The composer is proved against a loop-free
  description of its output (`Compose`).
- **Smoothing** (`smoothing.dfy`). `bspline_for_d4line` builds the knot
  vector and samples the curve `10 * n` times. The curve itself belongs to the
  `bspline` crate and is a parameter (`SplineLib`).
- **Extrusion** (`extrusion.dfy`). `d4_2_d2` turns each group into
  `resolution + 1` polylines, each offset along the points' velocities.
- **The .bcf text format** (`text.dfy`, `bcf.dfy`, `bcf_properties.dfy`).
  `bsc_2_string` and `string_2_bsc` are modelled together with the standard
  string functions they rely on (`lines`, `split_whitespace`). The properties
  proved are the round trip, its one asymmetry, and exactly when reading fails.
- **The drawing helpers of the host loop** (`view.dfy`).
  `for_pointes_colored` and the four-digit frame-number padding.

`f32` is modelled as `real`. Rust's float formatting and parsing are a
`NumCodec`, a pair of functions. The round-trip lemmas assume only that
`format` writes each number of the glyph being saved as a whitespace-free
token that `parse` reads back as that same number (`GlyphExact`). Display
and parse do this for finite floats. Nothing is assumed about other
numbers, and `RoundTripWitness` exhibits a codec and a glyph that meet the
assumption. A panic of the source is a `Failure` value.

In three places the code behaves differently from what one might assume,
and the model follows the code:

- `create_simple_bsf` with `seq_num == 0` indexes `seq[seq.len() - 1]` and
  panics. Here this is `Failure(EmptyMainStroke)`.
- `d4_2_d2` gives `resolution + 1` empty polylines for an empty group, and the
  composer does flush empty segments. So an empty group is not dropped.
- `string_2_bsc` always pushes the current indicator stroke at the end of the
  text. A glyph saved without indicator strokes therefore loads back with one
  empty indicator stroke, and saving it again adds a trailing `ind` line.

## Model

| member | source | states |
|---|---|---|
| GenerateBsc.Centered | src/bsc.rs:74-75 | a sample in [0, 1) gives a component in [-max, max], strictly below max when max > 0; the sample 0.5 gives 0 |
| GenerateBsc.RandomVec2 | src/bsc.rs:69-79 | both components of random_vec2 lie in [-max, max), independently per sample; a sample of 0.5 gives 0 on that axis |
| GenerateBsc.RandomD4 | src/bsc.rs:84-90 | the position is exactly the first two samples (the shift by 0.5 cancels the centring); with valid samples and v > 0 the point lies in [0,1)^2 with velocity in [-v, v)^2 |
| GenerateBsc.Oriented | src/bsc.rs:49-51 | the oriented main stroke has its last x at least its first x, is the drawn stroke or its reversal, is unchanged when already left to right, and holds the same points |
| GenerateBsc.Drawn | src/bsc.rs:45-47 | n points, point k being random_d4 of the four samples at start + 4k, in order |
| Glyph.Reversed | src/bsc.rs:50 | the reversed stroke has the same length and holds point n - 1 - i at index i |
| Glyph.ReversedTwice | src/bsc.rs:50 | reversing twice gives the stroke back, so the flip loses and invents no point |
| GenerateBsc.DrawStroke | src/bsc.rs:45-47 | the push loop yields the n points drawn from consecutive groups of four samples, in order |
| GenerateBsc.DrawnInSpawnRange | src/bsc.rs:84-90 | with valid samples every drawn point lies in the spawn range |
| GenerateBsc.IndOffset | src/bsc.rs:53-60 | indicator stroke i draws from samples after the main stroke and all earlier indicator strokes, within the samples consumed |
| GenerateBsc.IndOffsetEnds | src/bsc.rs:44-60 | the first indicator stroke starts drawing right after the main stroke's 4 * seq_num samples, and the last one ends at the total drawn |
| GenerateBsc.IndOffsetStep | src/bsc.rs:53-60 | stroke i's 4 * ind_num samples end exactly where stroke i + 1's begin, so the blocks neither overlap nor leave gaps |
| GenerateBsc.DrawIndicators | src/bsc.rs:53-60 | one stroke per entry of ind_num_v, of exactly that length, in order, each drawn from its own samples |
| GenerateBsc.GeneratedInSpawnRange | src/bsc.rs:40-66 | every point of a generated glyph, main or indicator, lies in the spawn range |
| GenerateBsc.CreateSimpleBsf | src/bsc.rs:40-66 | fails exactly when seq_num is 0; otherwise the main stroke has seq_num points, runs left to right and is the oriented drawn stroke; the indicator strokes are as drawn; all points lie in the spawn range |
| Dynamics.Nudge | src/main.rs:182-193 | inside the band the velocity is unchanged; below it grows by turnfactor * speed_factor, above it shrinks by the same; both rules fire only when safe_range < 0, and then cancel |
| Dynamics.MovePoint | src/main.rs:176-196 | vx follows the x rules only and vy the y rules only; the position moves by the new velocity times speed_factor; in-band components keep their velocity |
| Dynamics.AxesIndependent | src/main.rs:182-195 | the new x and vx depend only on the old x and vx, and likewise for y |
| Dynamics.LeftOfBandAccelerates | src/main.rs:182-195 | a point that stays left of the band for k ticks gains exactly k * turnfactor * speed_factor in vx |
| Dynamics.LeftOfBandTurnsRight | src/main.rs:182-195 | with a positive push, a point held left of the band long enough ends with positive vx |
| Dynamics.LiveBsc.Mujica | src/main.rs:163-174 | every control point of every stroke is replaced by move_point of its old value; stroke counts and lengths are unchanged |
| Smoothing.Smooth | src/bsc.rs:168-205 | fewer than four points give no points; otherwise exactly 10 * n samples of the curve, sample i at parameter SampleParam(domain, 10 n, i) |
| Smoothing.InteriorKnotMonotone | src/bsc.rs:183-186 | interior knots do not decrease with their index |
| Smoothing.InteriorKnotBounds | src/bsc.rs:183-186 | every interior knot lies in (-2, 2], and the last one is exactly 2 |
| Smoothing.KnotVector | src/bsc.rs:176-189 | n + 4 knots for n control points |
| Smoothing.SampleParam | src/bsc.rs:195-197 | sample 0 is at the start of the knot domain, and every sample i < count lies in [first, last) |
| Smoothing.KnotVectorShape | src/bsc.rs:176-189 | the knot vector has n + degree + 1 entries, starts -2, -2, ends 2, 2, 2 and does not decrease |
| Smoothing.SampleParamsIncreasing | src/bsc.rs:195-199 | on a domain first < last the sample parameters strictly increase and lie in [first, last) |
| Smoothing.BsplineForD4Line | src/bsc.rs:168-205 | the knot-building and sampling loops yield exactly Smooth(row) |
| Extrusion.OffsetLine | src/bsc.rs:220-227 | one output point per input point, each the position plus the velocity times the offset |
| Extrusion.OffsetFractionRange | src/bsc.rs:215-219 | line 0 is not offset, and with boldness > 0 the offsets of lines 0 .. resolution lie in [0, boldness) |
| Extrusion.Family | src/bsc.rs:212-229 | resolution + 1 lines per group, each with one point per point of the group |
| Extrusion.FamilyOffsets | src/bsc.rs:212-229 | the j = 0 line is the bare positions, and with zero velocities every line is |
| Extrusion.ExtrudeLength | src/bsc.rs:208-233 | exactly (resolution + 1) * number of groups polylines |
| Extrusion.ExtrudeAt | src/bsc.rs:208-233 | output line g * (resolution + 1) + j is line j of group g, with the group's length, so an empty group gives resolution + 1 empty lines |
| Extrusion.D4ToD2 | src/bsc.rs:208-234 | the three nested push loops yield exactly Extrude(groups) |
| Layout.CompressBscCoordinate | src/bsc.rs:236-238 | only x changes, its offset from 0.5 scaled by compress_x; identity when compress_x = 1 and on x = 0.5 |
| Layout.PlacePoint | src/bsc.rs:139 | the compressed x and the y are shifted by the placement; the velocity is untouched |
| Layout.PlaceLine | src/bsc.rs:138-140 | a placed stroke keeps its length and places each point in order |
| Layout.PlaceLines | src/bsc.rs:144-148 | one placed group per indicator stroke, in order, each stroke placed point by point |
| Layout.FlushAtCases | src/bsc.rs:132 | the first glyph flushes when it lies below y = 0, a later one when it lies below its predecessor, and any glyph with fewer than four points flushes |
| Layout.LastFlush | src/bsc.rs:132-135 | the pending segment starts at the last glyph before n that flushed (or 0), strictly before n when n > 0, with no flush after it |
| Layout.EmitGroups | src/bsc.rs:132-149 | one glyph emits the pending segment first when it flushes, then its indicator strokes placed and in order |
| Layout.Compose | src/bsc.rs:126-154 | the composer emits one group per flushing glyph, one per indicator stroke, and one final group holding the main strokes since the last flush |
| Layout.MainStrokesPreserved | src/bsc.rs:132-142 | the flushed segments followed by the pending one are all placed main strokes, in input order: no point is lost, duplicated or reordered |
| Layout.UnbrokenLineIsOneSegment | src/bsc.rs:132-142 | when no glyph after the first flushes, the final group is all placed main strokes in order |
| Layout.SingleGlyph | src/main.rs:100-108 | the one-glyph sentence drawn each frame gives an empty leading group when the glyph is below y = 0 or degenerate, then its indicator strokes, then its main stroke |
| Layout.SegmentStep | src/bsc.rs:132-142 | after glyph k the segment restarts if k flushes and then gains k's placed main stroke |
| Layout.PushIndicators | src/bsc.rs:144-149 | each indicator stroke of a glyph is placed and appended as its own group, in order |
| Layout.GroupSentence | src/bsc.rs:120-154 | the grouping loop and the final flush yield exactly Compose(sentence) |
| Layout.SmoothGroups | src/bsc.rs:156-159 | every group is replaced in place by its smoothed stroke |
| Layout.ConvertSentence2Shirataki | src/bsc.rs:119-165 | the result is the extrusion of the smoothed composed groups, with (resolution + 1) * (flushes + indicator strokes + 1) polylines |
| Text.SplitWhitespace | src/bsc.rs:271 | every token is non-empty and free of whitespace |
| Text.JoinSnoc | src/bsc.rs:326 | appending "\n" and a line to the joined text joins one more line |
| Text.Lines | src/bsc.rs:247 | only the empty text has no lines, and no line holds a newline |
| Text.LinesOfJoin | src/bsc.rs:247 | lines() splits newline-joined plain lines back into exactly those lines |
| Text.SplitTokenSpace | src/bsc.rs:271 | a token followed by a space splits off as the first token |
| Bcf.PointLine | src/bsc.rs:326 | a written point line is never mistaken for a "seq" or "ind" marker |
| Bcf.ReadLine | src/bsc.rs:257-295 | a marker line never fails and leaves the main stroke alone; reach_ind is set once an "ind" is seen and never cleared; a point line fails exactly when it does not parse |
| Bcf.PointLinesAt | src/bsc.rs:325-327 | line i of a stroke's text is the text of point i |
| Bcf.IndLinesAppend | src/bsc.rs:328-333 | one more indicator stroke appends an "ind" line and its point lines |
| Bcf.WritePoints | src/bsc.rs:325-327 | the point loop appends one newline-separated line per point to the joined text |
| Bcf.BscToString | src/bsc.rs:321-336 | the string built step by step is the join of "seq", the main-stroke lines and each "ind" block |
| Bcf.StringToBsc | src/bsc.rs:246-302 | the line loop with reach_ind, the number loop and the final push yield exactly Parse(text), including its failures |
| BcfProperties.SplitFourTokens | src/bsc.rs:271 | a written point line splits into its four number tokens |
| BcfProperties.ParseFourNumbers | src/bsc.rs:274-280 | four parsable tokens give their four values in order |
| BcfProperties.PointLinePlain | src/bsc.rs:326 | a point whose numbers are written as tokens gives a non-empty line without a newline or a final '\r' |
| BcfProperties.PointLineReadsBack | src/bsc.rs:269-280 | a written point line parses back to the point when parse undoes format on the point's four numbers |
| BcfProperties.SerializedLayout | src/bsc.rs:321-336 | when the glyph's numbers are written as tokens, the text splits back into its lines, the first is "seq", the next are the main-stroke points, and it does not end in a newline |
| BcfProperties.ReadLinesAppend | src/bsc.rs:257-296 | reading two line lists in a row is reading their concatenation, a failure in the first stopping the read |
| BcfProperties.ReadParsedLines | src/bsc.rs:268-295 | point lines extend the main stroke before the first "ind" and the current indicator stroke after it, in order |
| BcfProperties.ReadAfterSeq | src/bsc.rs:258 | a "seq" line is ignored |
| BcfProperties.ReadAfterMarker | src/bsc.rs:259-267 | the first "ind" sets reach_ind; each later one closes the current indicator stroke |
| BcfProperties.ReadIndLines | src/bsc.rs:259-295 | after the main stroke, the indicator blocks of strokes whose numbers read back leave all strokes but the last closed and the last current |
| BcfProperties.ReadBcfLines | src/bsc.rs:257-296 | reading the lines of a written glyph whose numbers read back recovers its main stroke and its indicator strokes as closed and current |
| BcfProperties.RoundTrip | src/bsc.rs:246-336 | for a glyph whose numbers read back, string_2_bsc undoes bsc_2_string when there is an indicator stroke; with none it yields one empty indicator stroke |
| BcfProperties.RoundTripWitness | src/bsc.rs:246-336 | the round trip's assumption can be met: a codec writing "0" and "1" brings a glyph with one indicator stroke back unchanged |
| BcfProperties.ResaveAfterLoad | src/bsc.rs:298-300 | loading a saved glyph whose numbers read back succeeds; saving it again gives the same text, or that text plus "\nind" when it had no indicator stroke |
| BcfProperties.ParseNumbersOk | src/bsc.rs:274-278 | the number loop succeeds exactly when every token parses, and then yields their values in order |
| BcfProperties.ParseLineFails | src/bsc.rs:269-280 | a point line fails exactly when a token is not a number or it has fewer than four numbers |
| BcfProperties.ReadLinesFails | src/bsc.rs:257-296 | reading fails exactly when some non-marker line fails to parse |
| BcfProperties.ParseFails | src/bsc.rs:246-302 | string_2_bsc fails exactly on a malformed point line; marker lines never fail |
| View.ForPointsColored | src/main.rs:152-160 | one entry per input point, in order, each ((x - 0.5) * scaling, (y - 0.5) * scaling) with the constant line colour |
| View.UnitSquareFillsWindow | src/main.rs:156-157 | the centre (0.5, 0.5) maps to the origin and the unit square onto [-s/2, s/2]^2 |
| View.Decimal | src/main.rs:128 | format!("{}", i) is a non-empty digit string |
| View.DecimalDenotes | src/main.rs:128 | the digits written denote the number |
| View.DecimalLength | src/main.rs:125-128 | numbers below 10, 100, 1000, 10000 have 1, 2, 3, 4 digits, and from 10000 on more than 4 |
| View.FrameNumberFormat | src/main.rs:122-129 | the frame number is all digits and denotes i; below 10000 it has exactly 4 characters, zero-padded below 1000; from 1000 on it is the plain decimal |

## Left out

- The nannou host loop (`main`, `model`, `update`, `view`), drawing, window creation and `capture_frame` (src/main.rs:41-149). This is UI glue. Only the computations it calls are modelled.
- The frame-interval logic of `update`/`view` (`elapsed_frames() % frame_interval`). It depends on the host's frame clock.
- File I/O: `read_bcf`, `write_bcf`, `fs::create_dir` and the chrono timestamps (src/bsc.rs:304-312, 338-347; src/main.rs:131-146). Reading and writing are modelled on the text only.
- `rand::thread_rng`. Its draws are an input sequence; `CreateSimpleBsf` requires enough samples for every point, where the source's generator never runs out.
- The `bspline` crate's `BSpline::new`, `point` and `knot_domain`. They are the uninterpreted `SplineLib` parameter, and the checks `BSpline::new` performs are not modelled.
- Exact `f32` arithmetic, rounding, NaN and infinities. Arithmetic is on `real`.
- Rust's float `Display` and `parse`. They are the `NumCodec` parameter. The round trip assumes that parse reads back the formatted text of each number in the saved glyph, as it does for finite floats.
- `u32` and `u64` overflow of `seq_num`, `resolution + 1` and the frame counter. Counts are unbounded naturals.
- `_convert_bsc_2_shirataki` (src/bsc.rs:99-116). It is unused, and it is the composer without layout.
- `Text.IsWhitespace` lists the Unicode White_Space characters explicitly rather than deriving them from the Unicode tables.
