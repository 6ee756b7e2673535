/**
  The .bcf text format of src/bsc.rs (modules read_bcf and write_bcf): a
  line "seq", one line "x y vx vy" per main-stroke point, then for each
  indicator stroke a line "ind" followed by its points.

  Floats are written with Rust's Display for f32 and read with
  `str::parse::<f32>`; both are represented by a NumCodec. The round trip
  needs `format` to write each of the glyph's numbers as a non-empty token
  without whitespace that `parse` reads back as the same number, as Display
  and parse do for finite floats.
*/
module Bcf {
  import opened Wrappers
  import opened Glyph
  import opened Text

  /** f32 Display (`format`) and `str::parse::<f32>` (`parse`). */
  datatype NumCodec = NumCodec(format: real -> string, parse: string -> Option<real>)

  /** `format` writes v as a non-empty token without whitespace. */
  predicate Formats(c: NumCodec, v: real)
  {
    IsToken(c.format(v))
  }

  /**
    `parse` undoes `format` on v. Rust's Display and parse do this for every
    finite f32, so it is assumed only of the values a glyph actually holds.
  */
  predicate ExactOn(c: NumCodec, v: real)
  {
    Formats(c, v) && c.parse(c.format(v)) == Some(v)
  }

  predicate PointFormats(c: NumCodec, p: Vec4)
  {
    Formats(c, p.x) && Formats(c, p.y) && Formats(c, p.vx) && Formats(c, p.vy)
  }

  predicate PointExact(c: NumCodec, p: Vec4)
  {
    ExactOn(c, p.x) && ExactOn(c, p.y) && ExactOn(c, p.vx) && ExactOn(c, p.vy)
  }

  predicate StrokeFormats(c: NumCodec, line: D4Line)
  {
    forall i :: 0 <= i < |line| ==> PointFormats(c, line[i])
  }

  predicate StrokeExact(c: NumCodec, line: D4Line)
  {
    forall i :: 0 <= i < |line| ==> PointExact(c, line[i])
  }

  predicate StrokesFormat(c: NumCodec, ind: seq<D4Line>)
  {
    forall i :: 0 <= i < |ind| ==> StrokeFormats(c, ind[i])
  }

  predicate StrokesExact(c: NumCodec, ind: seq<D4Line>)
  {
    forall i :: 0 <= i < |ind| ==> StrokeExact(c, ind[i])
  }

  /** Every component of every point of the glyph is written as a token. */
  predicate GlyphFormats(c: NumCodec, b: Bsc)
  {
    StrokeFormats(c, b.main) && StrokesFormat(c, b.ind)
  }

  /** Every component of every point of the glyph is written as a token that parses back to it. */
  predicate GlyphExact(c: NumCodec, b: Bsc)
  {
    StrokeExact(c, b.main) && StrokesExact(c, b.ind)
  }

  /** The panics of string_2_bsc, as values: `expect("not a number")` and indexing a short line. */
  datatype ParseError = NotANumber(token: string) | TooFewNumbers(line: string)

  // ---------------------------------------------------------------- writing

  /** One point as written: "x y vx vy". */
  function PointLine(p: Vec4, c: NumCodec): (line: string)
    ensures IsPointLine(line)
  {
    var fx := c.format(p.x);
    var line := fx + " " + c.format(p.y) + " " + c.format(p.vx) + " " + c.format(p.vy);
    assert line[|fx|] == ' ';
    assert forall k :: 0 <= k < 3 ==> "seq"[k] != ' ' && "ind"[k] != ' ';
    line
  }

  function PointLines(line: D4Line, c: NumCodec): (lines: seq<string>)
    ensures |lines| == |line|
  {
    if line == [] then [] else PointLines(line[..|line| - 1], c) + [PointLine(line[|line| - 1], c)]
  }

  lemma {:induction false} PointLinesAt(line: D4Line, c: NumCodec)
    ensures forall i :: 0 <= i < |line| ==> PointLines(line, c)[i] == PointLine(line[i], c)
  {
    if line != [] {
      var n := |line| - 1;
      PointLinesAt(line[..n], c);
      assert forall i :: 0 <= i < n ==> line[..n][i] == line[i];
    }
  }

  /** For each indicator stroke, an "ind" line and then its points. */
  function IndLines(ind: seq<D4Line>, c: NumCodec): seq<string>
  {
    if ind == [] then [] else ["ind"] + PointLines(ind[0], c) + IndLines(ind[1..], c)
  }

  /** The lines of a .bcf file for a glyph. */
  function BcfLines(b: Bsc, c: NumCodec): seq<string>
  {
    ["seq"] + PointLines(b.main, c) + IndLines(b.ind, c)
  }

  /** The file text: the lines joined by newlines, with no trailing newline. */
  function Serialize(b: Bsc, c: NumCodec): string
  {
    Join(BcfLines(b, c))
  }

  lemma {:induction false} IndLinesAppend(ind: seq<D4Line>, stroke: D4Line, c: NumCodec)
    ensures IndLines(ind + [stroke], c) == IndLines(ind, c) + (["ind"] + PointLines(stroke, c))
    decreases |ind|
  {
    if ind == [] {
      assert IndLines([stroke], c) == ["ind"] + PointLines(stroke, c) + IndLines([], c);
    } else {
      assert (ind + [stroke])[1..] == ind[1..] + [stroke];
      IndLinesAppend(ind[1..], stroke, c);
    }
  }

  lemma IndLinesSnoc(ind: seq<D4Line>, i: nat, c: NumCodec)
    requires i < |ind|
    ensures IndLines(ind[..i + 1], c) == IndLines(ind[..i], c) + (["ind"] + PointLines(ind[i], c))
  {
    assert ind[..i + 1] == ind[..i] + [ind[i]];
    IndLinesAppend(ind[..i], ind[i], c);
  }

  lemma AppendAssoc(a: seq<string>, b: seq<string>, d: seq<string>)
    ensures a + b + d == a + (b + d)
  {
  }

  /** The point loop of bsc_2_string: one "\n" and point line per point. */
  method WritePoints(strOut: string, ghost written: seq<string>, stroke: D4Line, c: NumCodec) returns (out: string)
    requires |written| > 0 && strOut == Join(written)
    ensures out == Join(written + PointLines(stroke, c))
  {
    out := strOut;
    assert PointLines(stroke[..0], c) == [];
    assert written + PointLines(stroke[..0], c) == written;
    for k := 0 to |stroke|
      invariant out == Join(written + PointLines(stroke[..k], c))
    {
      JoinSnoc(written + PointLines(stroke[..k], c), PointLine(stroke[k], c));
      out := out + "\n" + PointLine(stroke[k], c);
      assert stroke[..k + 1][..k] == stroke[..k];
      assert PointLines(stroke[..k + 1], c) == PointLines(stroke[..k], c) + [PointLine(stroke[k], c)];
      assert written + PointLines(stroke[..k + 1], c) == written + PointLines(stroke[..k], c) + [PointLine(stroke[k], c)];
    }
    assert stroke[..|stroke|] == stroke;
  }

  /** bsc_2_string: grows the output one `format!("{}\n{}", ...)` at a time. */
  method BscToString(b: Bsc, c: NumCodec) returns (strOut: string)
    ensures strOut == Serialize(b, c)
  {
    strOut := "seq";
    strOut := WritePoints(strOut, ["seq"], b.main, c);
    assert IndLines(b.ind[..0], c) == [];
    assert ["seq"] + PointLines(b.main, c) + IndLines(b.ind[..0], c) == ["seq"] + PointLines(b.main, c);
    for i := 0 to |b.ind|
      invariant strOut == Join(["seq"] + PointLines(b.main, c) + IndLines(b.ind[..i], c))
    {
      ghost var written := ["seq"] + PointLines(b.main, c) + IndLines(b.ind[..i], c);
      JoinSnoc(written, "ind");
      strOut := strOut + "\n" + "ind";
      strOut := WritePoints(strOut, written + ["ind"], b.ind[i], c);
      IndLinesSnoc(b.ind, i, c);
      AppendAssoc(["seq"] + PointLines(b.main, c), IndLines(b.ind[..i], c), ["ind"] + PointLines(b.ind[i], c));
      AppendAssoc(written, ["ind"], PointLines(b.ind[i], c));
    }
    assert b.ind[..|b.ind|] == b.ind;
  }

  // ---------------------------------------------------------------- reading

  /** The number-parsing loop of a point line; the first unparsable token fails. */
  function ParseNumbers(tokens: seq<string>, c: NumCodec): Result<seq<real>, ParseError>
  {
    if tokens == [] then Success([])
    else
      match ParseNumbers(tokens[..|tokens| - 1], c)
      case Failure(e) => Failure(e)
      case Success(nums) =>
        match c.parse(tokens[|tokens| - 1])
        case None => Failure(NotANumber(tokens[|tokens| - 1]))
        case Some(v) => Success(nums + [v])
  }

  /** A point line: its whitespace-separated numbers, of which the first four are used. */
  function ParseLine(line: string, c: NumCodec): Result<Vec4, ParseError>
  {
    match ParseNumbers(SplitWhitespace(line), c)
    case Failure(e) => Failure(e)
    case Success(v) =>
      if |v| < 4 then Failure(TooFewNumbers(line)) else Success(Vec4(v[0], v[1], v[2], v[3]))
  }

  /** The parser's state: main stroke, current indicator stroke, finished ones, and `reach_ind`. */
  datatype ReadState = ReadState(main: D4Line, aInd: D4Line, ind: seq<D4Line>, reachInd: bool)

  const Start := ReadState([], [], [], false)

  /** A line that is neither marker, so it must hold a point. */
  predicate IsPointLine(line: string) { line != "seq" && line != "ind" }

  /**
    One line: "seq" is ignored; the first "ind" only sets reach_ind, every
    later one closes the current indicator stroke; any other line is a point
    of the main stroke before the first "ind" and of the current indicator
    stroke after it.
  */
  function ReadLine(st: ReadState, line: string, c: NumCodec): (r: Result<ReadState, ParseError>)
    ensures !IsPointLine(line) ==> r.Success? && r.value.main == st.main
    ensures r.Success? ==> r.value.reachInd == (st.reachInd || line == "ind")
    ensures IsPointLine(line) ==> (r.Success? <==> ParseLine(line, c).Success?)
  {
    if line == "seq" then Success(st)
    else if line == "ind" then
      if st.reachInd then Success(st.(ind := st.ind + [st.aInd], aInd := []))
      else Success(st.(reachInd := true))
    else
      match ParseLine(line, c)
      case Failure(e) => Failure(e)
      case Success(p) =>
        if !st.reachInd then Success(st.(main := st.main + [p])) else Success(st.(aInd := st.aInd + [p]))
  }

  /** The lines read in order from `st`, stopping at the first failure. */
  function ReadLines(st: ReadState, lines: seq<string>, c: NumCodec): Result<ReadState, ParseError>
    decreases |lines|
  {
    if lines == [] then Success(st)
    else
      match ReadLine(st, lines[0], c)
      case Failure(e) => Failure(e)
      case Success(s) => ReadLines(s, lines[1..], c)
  }

  /** The glyph at the end of the text: the current indicator stroke is always appended. */
  function Finish(st: ReadState): Bsc
  {
    Bsc(st.main, st.ind + [st.aInd])
  }

  function Parse(text: string, c: NumCodec): Result<Bsc, ParseError>
  {
    match ReadLines(Start, Lines(text), c)
    case Failure(e) => Failure(e)
    case Success(st) => Success(Finish(st))
  }

  lemma {:induction false} ParseNumbersFailureSticks(tokens: seq<string>, k: nat, c: NumCodec)
    requires k <= |tokens|
    requires ParseNumbers(tokens[..k], c).Failure?
    ensures ParseNumbers(tokens, c) == ParseNumbers(tokens[..k], c)
    decreases |tokens|
  {
    if k < |tokens| {
      var n := |tokens| - 1;
      assert tokens[..n][..k] == tokens[..k];
      ParseNumbersFailureSticks(tokens[..n], k, c);
    } else {
      assert tokens[..k] == tokens;
    }
  }

  /** string_2_bsc: the line loop with the `reach_ind` flag; a panic becomes a Failure. */
  method StringToBsc(bcf: string, c: NumCodec) returns (r: Result<Bsc, ParseError>)
    ensures r == Parse(bcf, c)
  {
    var lines := Lines(bcf);
    var main: D4Line := [];
    var aInd: D4Line := [];
    var ind: seq<D4Line> := [];
    var reachInd := false;
    assert lines[0..] == lines;
    for k := 0 to |lines|
      invariant ReadLines(Start, lines, c) == ReadLines(ReadState(main, aInd, ind, reachInd), lines[k..], c)
    {
      var eachLine := lines[k];
      assert lines[k..][1..] == lines[k + 1..];
      if eachLine == "seq" {
      } else if eachLine == "ind" {
        if reachInd {
          ind := ind + [aInd];
          aInd := [];
        } else {
          reachInd := true;
        }
      } else {
        var vfv4: seq<real> := [];
        var numStrings := SplitWhitespace(eachLine);
        for t := 0 to |numStrings|
          invariant ParseNumbers(numStrings[..t], c) == Success(vfv4)
        {
          assert numStrings[..t + 1][..t] == numStrings[..t];
          match c.parse(numStrings[t])
          case None =>
            ParseNumbersFailureSticks(numStrings, t + 1, c);
            return Failure(NotANumber(numStrings[t]));
          case Some(num) =>
            vfv4 := vfv4 + [num];
        }
        assert numStrings[..|numStrings|] == numStrings;
        if |vfv4| < 4 {
          return Failure(TooFewNumbers(eachLine));
        }
        var p := Vec4(vfv4[0], vfv4[1], vfv4[2], vfv4[3]);
        if !reachInd {
          main := main + [p];
        } else {
          aInd := aInd + [p];
        }
      }
    }
    ind := ind + [aInd];
    r := Success(Bsc(main, ind));
  }
}
