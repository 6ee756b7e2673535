/**
  The glyph ("bsc") data model of src/bsc.rs: 4-component control points,
  strokes, glyphs, placed glyphs and sentences, with f32 replaced by real.
*/
module Glyph {

  /** A control point: position (x, y) and velocity (vx, vy); nannou's Vec4 (x, y, z, w). */
  datatype Vec4 = Vec4(x: real, y: real, vx: real, vy: real)

  /** A 2D point of a rendered polyline; nannou's Vec2. */
  datatype Vec2 = Vec2(x: real, y: real)

  /** One stroke (D4Line): control points in drawing order. */
  type D4Line = seq<Vec4>

  /** One rendered 2D polyline (D2Line). */
  type D2Line = seq<Vec2>

  /** A glyph (BsCharactor): the main stroke (`seq` in the source) and the indicator strokes. */
  datatype Bsc = Bsc(main: D4Line, ind: seq<D4Line>)

  /** A glyph copied into a sentence at an offset (PlaceBsc). */
  datatype PlaceBsc = PlaceBsc(place: Vec2, bsc: Bsc)

  type Sentence = seq<PlaceBsc>

  /** Generation parameters (Pinfo): main-stroke length and the indicator-stroke lengths. */
  datatype Pinfo = Pinfo(seqNum: nat, indNums: seq<nat>)

  /** The stroke in the opposite drawing order (Vec::reverse). */
  function Reversed(s: D4Line): (r: D4Line)
    ensures |r| == |s|
    ensures forall i :: 0 <= i < |s| ==> r[i] == s[|s| - 1 - i]
  {
    seq(|s|, i requires 0 <= i < |s| => s[|s| - 1 - i])
  }

  /** Reversing twice gives the stroke back, so flipping the main stroke loses nothing. */
  lemma ReversedTwice(s: D4Line)
    ensures Reversed(Reversed(s)) == s
  {
    var r := Reversed(Reversed(s));
    forall i | 0 <= i < |s| ensures r[i] == s[i] {
      assert Reversed(s)[|s| - 1 - i] == s[i];
    }
  }
}
