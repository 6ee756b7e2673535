/**
  What the .bcf reader and writer promise about each other: the text of a
  glyph splits back into the lines it was written from, every point line
  parses back to its point, and reading the text back gives the glyph, except
  that a glyph without indicator strokes comes back with one empty indicator
  stroke. Reading fails exactly on a point line with an unparsable token or
  fewer than four numbers.
*/
module BcfProperties {
  import opened Wrappers
  import opened Glyph
  import opened Text
  import opened Bcf

  lemma NoNewlineConcat(a: string, b: string)
    requires NoNewline(a) && NoNewline(b)
    ensures NoNewline(a + b)
  {
    forall k | 0 <= k < |a + b| ensures (a + b)[k] != '\n' {
      if k >= |a| {
        assert (a + b)[k] == b[k - |a|];
      }
    }
  }

  lemma ParseFourNumbers(t0: string, t1: string, t2: string, t3: string, c: NumCodec)
    requires c.parse(t0).Some? && c.parse(t1).Some? && c.parse(t2).Some? && c.parse(t3).Some?
    ensures ParseNumbers([t0, t1, t2, t3], c)
         == Success([c.parse(t0).value, c.parse(t1).value, c.parse(t2).value, c.parse(t3).value])
  {
    var ts := [t0, t1, t2, t3];
    ParseNumbersOk(ts, c);
    assert forall k :: 0 <= k < 4 ==> c.parse(ts[k]).Some?;
    var v := ParseNumbers(ts, c).value;
    assert v[0] == c.parse(t0).value && v[1] == c.parse(t1).value;
    assert v[2] == c.parse(t2).value && v[3] == c.parse(t3).value;
    assert v == [c.parse(t0).value, c.parse(t1).value, c.parse(t2).value, c.parse(t3).value];
    assert ParseNumbers(ts, c) == Success(v);
  }

  lemma SpacedAssoc(a: string, b: string, d: string, e: string)
    ensures a + " " + b + " " + d + " " + e == a + " " + (b + " " + (d + " " + e))
  {
  }

  lemma SplitFourTokens(a: string, b: string, d: string, e: string)
    requires IsToken(a) && IsToken(b) && IsToken(d) && IsToken(e)
    ensures SplitWhitespace(a + " " + b + " " + d + " " + e) == [a, b, d, e]
  {
    var tail2 := d + " " + e;
    var tail1 := b + " " + tail2;
    SplitToken(e);
    SplitTokenSpace(d, e);
    SplitTokenSpace(b, tail2);
    SplitTokenSpace(a, tail1);
    SpacedAssoc(a, b, d, e);
  }

  lemma NoNewlineFour(a: string, b: string, d: string, e: string)
    requires NoNewline(a) && NoNewline(b) && NoNewline(d) && NoNewline(e)
    ensures NoNewline(a + " " + b + " " + d + " " + e)
  {
    assert NoNewline(" ");
    NoNewlineConcat(a, " ");
    NoNewlineConcat(a + " ", b);
    NoNewlineConcat(a + " " + b, " ");
    NoNewlineConcat(a + " " + b + " ", d);
    NoNewlineConcat(a + " " + b + " " + d, " ");
    NoNewlineConcat(a + " " + b + " " + d + " ", e);
  }

  /** A point whose numbers are written as tokens gives a plain line: non-empty, one line, no '\r' at its end. */
  lemma PointLinePlain(p: Vec4, c: NumCodec)
    requires PointFormats(c, p)
    ensures PlainLine(PointLine(p, c))
  {
    var fx, fy, fvx, fvy := c.format(p.x), c.format(p.y), c.format(p.vx), c.format(p.vy);
    assert IsToken(fx) && IsToken(fy) && IsToken(fvx) && IsToken(fvy);
    var line := PointLine(p, c);
    assert NoNewline(fx) && NoNewline(fy) && NoNewline(fvx) && NoNewline(fvy);
    NoNewlineFour(fx, fy, fvx, fvy);
    assert line[|line| - 1] == fvy[|fvy| - 1];
  }

  /** A written point line parses back to the point when parse undoes format on its four numbers. */
  lemma PointLineReadsBack(p: Vec4, c: NumCodec)
    requires PointExact(c, p)
    ensures ParseLine(PointLine(p, c), c) == Success(p)
  {
    var fx, fy, fvx, fvy := c.format(p.x), c.format(p.y), c.format(p.vx), c.format(p.vy);
    assert IsToken(fx) && IsToken(fy) && IsToken(fvx) && IsToken(fvy);
    SplitFourTokens(fx, fy, fvx, fvy);
    ParseFourNumbers(fx, fy, fvx, fvy, c);
  }

  /** A number that reads back is in particular written as a token. */
  lemma GlyphExactFormats(b: Bsc, c: NumCodec)
    requires GlyphExact(c, b)
    ensures GlyphFormats(c, b)
  {
    forall i | 0 <= i < |b.ind| ensures StrokeFormats(c, b.ind[i]) {
      assert StrokeExact(c, b.ind[i]);
    }
  }

  lemma PointLinesPlain(line: D4Line, c: NumCodec)
    requires StrokeFormats(c, line)
    ensures forall k :: 0 <= k < |line| ==> PlainLine(PointLines(line, c)[k])
  {
    PointLinesAt(line, c);
    forall k | 0 <= k < |line| ensures PlainLine(PointLines(line, c)[k]) {
      PointLinePlain(line[k], c);
    }
  }

  lemma {:induction false} IndLinesPlain(ind: seq<D4Line>, c: NumCodec)
    requires StrokesFormat(c, ind)
    ensures forall k :: 0 <= k < |IndLines(ind, c)| ==> PlainLine(IndLines(ind, c)[k])
  {
    if ind != [] {
      assert forall k :: 0 <= k < |ind| - 1 ==> ind[1..][k] == ind[k + 1];
      IndLinesPlain(ind[1..], c);
      PointLinesPlain(ind[0], c);
      assert PlainLine("ind");
    }
  }

  lemma BcfLinesPlain(b: Bsc, c: NumCodec)
    requires GlyphFormats(c, b)
    ensures forall k :: 0 <= k < |BcfLines(b, c)| ==> PlainLine(BcfLines(b, c)[k])
  {
    PointLinesPlain(b.main, c);
    IndLinesPlain(b.ind, c);
    assert PlainLine("seq");
  }

  lemma {:induction false} JoinLastChar(lines: seq<string>)
    requires |lines| > 0 && |lines[|lines| - 1]| > 0
    ensures |Join(lines)| > 0
    ensures Join(lines)[|Join(lines)| - 1] == lines[|lines| - 1][|lines[|lines| - 1]| - 1]
  {
    if |lines| > 1 {
      JoinLastChar(lines[1..]);
    }
  }

  /**
    bsc_2_string writes "seq", one line per main-stroke point, and an "ind"
    line before each indicator stroke's points, joined without a trailing
    newline; `lines()` recovers exactly those lines.
  */
  lemma SerializedLayout(b: Bsc, c: NumCodec)
    requires GlyphFormats(c, b)
    ensures Lines(Serialize(b, c)) == BcfLines(b, c)
    ensures BcfLines(b, c)[0] == "seq"
    ensures BcfLines(b, c)[1..1 + |b.main|] == PointLines(b.main, c)
    ensures |Serialize(b, c)| > 0 && Serialize(b, c)[|Serialize(b, c)| - 1] != '\n'
  {
    BcfLinesPlain(b, c);
    LinesOfJoin(BcfLines(b, c));
    var ls := BcfLines(b, c);
    assert PlainLine(ls[|ls| - 1]);
    JoinLastChar(ls);
  }

  /** Reading runs a concatenation of line lists one list after the other. */
  lemma {:induction false} ReadLinesAppend(st: ReadState, a: seq<string>, b: seq<string>, c: NumCodec)
    ensures ReadLines(st, a + b, c)
         == match ReadLines(st, a, c)
            case Failure(e) => Failure(e)
            case Success(s) => ReadLines(s, b, c)
    decreases |a|
  {
    if a == [] {
      assert a + b == b;
    } else {
      assert (a + b)[0] == a[0];
      assert (a + b)[1..] == a[1..] + b;
      match ReadLine(st, a[0], c)
      case Failure(_) =>
      case Success(s) => ReadLinesAppend(s, a[1..], b, c);
    }
  }

  lemma ReadConcat(st: ReadState, a: seq<string>, b: seq<string>, s1: ReadState, s2: ReadState, c: NumCodec)
    requires ReadLines(st, a, c) == Success(s1) && ReadLines(s1, b, c) == Success(s2)
    ensures ReadLines(st, a + b, c) == Success(s2)
  {
    ReadLinesAppend(st, a, b, c);
  }

  /** The state after the points `ps` are read: they extend the main stroke, or the current indicator stroke once reach_ind is set. */
  function Extended(st: ReadState, ps: D4Line): ReadState
  {
    if st.reachInd then st.(aInd := st.aInd + ps) else st.(main := st.main + ps)
  }

  /** A line that parses to a point extends the stroke being read. */
  lemma ReadPointLine(st: ReadState, line: string, p: Vec4, c: NumCodec)
    requires IsPointLine(line) && ParseLine(line, c) == Success(p)
    ensures ReadLine(st, line, c) == Success(Extended(st, [p]))
  {
  }

  lemma ReadLinesCons(st: ReadState, lines: seq<string>, s1: ReadState, c: NumCodec)
    requires lines != [] && ReadLine(st, lines[0], c) == Success(s1)
    ensures ReadLines(st, lines, c) == ReadLines(s1, lines[1..], c)
  {
  }

  lemma ExtendedTwice(st: ReadState, p: Vec4, ps: D4Line)
    ensures Extended(Extended(st, [p]), ps) == Extended(st, [p] + ps)
  {
    assert st.aInd + [p] + ps == st.aInd + ([p] + ps);
    assert st.main + [p] + ps == st.main + ([p] + ps);
  }

  /** Each line parses to the point at its index. */
  ghost predicate ParsedAs(lines: seq<string>, ps: D4Line, c: NumCodec)
  {
    |lines| == |ps| && forall k :: 0 <= k < |lines| ==> IsPointLine(lines[k]) && ParseLine(lines[k], c) == Success(ps[k])
  }

  lemma ParsedAsTail(lines: seq<string>, ps: D4Line, c: NumCodec)
    requires lines != [] && ParsedAs(lines, ps, c)
    ensures ParsedAs(lines[1..], ps[1..], c)
    ensures IsPointLine(lines[0]) && ParseLine(lines[0], c) == Success(ps[0])
  {
    assert forall k :: 0 <= k < |lines| - 1 ==> lines[1..][k] == lines[k + 1] && ps[1..][k] == ps[k + 1];
  }

  /** Lines that each parse to a point go, in order, to the main stroke or to the current indicator stroke. */
  lemma {:induction false} ReadParsedLines(st: ReadState, lines: seq<string>, ps: D4Line, c: NumCodec)
    requires ParsedAs(lines, ps, c)
    ensures ReadLines(st, lines, c) == Success(Extended(st, ps))
    decreases |lines|
  {
    if lines == [] {
      assert st.main + ps == st.main && st.aInd + ps == st.aInd;
    } else {
      ParsedAsTail(lines, ps, c);
      var s1 := Extended(st, [ps[0]]);
      ReadPointLine(st, lines[0], ps[0], c);
      ReadLinesCons(st, lines, s1, c);
      ReadParsedLines(s1, lines[1..], ps[1..], c);
      ExtendedTwice(st, ps[0], ps[1..]);
      assert [ps[0]] + ps[1..] == ps;
    }
  }

  /** Point lines go to the main stroke before the first "ind" and to the current indicator stroke after it. */
  lemma ReadPointLines(st: ReadState, ps: D4Line, c: NumCodec)
    requires StrokeExact(c, ps)
    ensures ReadLines(st, PointLines(ps, c), c)
         == Success(if st.reachInd then st.(aInd := st.aInd + ps) else st.(main := st.main + ps))
  {
    var lines := PointLines(ps, c);
    PointLinesAt(ps, c);
    forall k | 0 <= k < |lines| ensures IsPointLine(lines[k]) && ParseLine(lines[k], c) == Success(ps[k]) {
      PointLineReadsBack(ps[k], c);
    }
    assert ParsedAs(lines, ps, c);
    ReadParsedLines(st, lines, ps, c);
  }

  /** An "ind" marker never fails; the lines after it are read from the state it leaves. */
  lemma ReadAfterMarker(st: ReadState, lines: seq<string>, c: NumCodec)
    ensures ReadLines(st, ["ind"] + lines, c)
         == ReadLines(if st.reachInd then st.(ind := st.ind + [st.aInd], aInd := []) else st.(reachInd := true), lines, c)
  {
    assert (["ind"] + lines)[0] == "ind";
    assert (["ind"] + lines)[1..] == lines;
  }

  /** One indicator stroke after the main stroke: its marker sets reach_ind and its points fill the current stroke. */
  lemma ReadFirstIndStroke(st: ReadState, stroke: D4Line, c: NumCodec)
    requires StrokeExact(c, stroke)
    requires !st.reachInd && st.aInd == []
    ensures ReadLines(st, ["ind"] + PointLines(stroke, c), c) == Success(st.(aInd := stroke, reachInd := true))
  {
    ReadAfterMarker(st, PointLines(stroke, c), c);
    ReadPointLines(st.(reachInd := true), stroke, c);
    assert [] + stroke == stroke;
  }

  /** A later indicator stroke: its marker closes the current stroke and its points fill a new one. */
  lemma ReadNextIndStroke(st: ReadState, stroke: D4Line, c: NumCodec)
    requires StrokeExact(c, stroke)
    requires st.reachInd
    ensures ReadLines(st, ["ind"] + PointLines(stroke, c), c)
         == Success(st.(ind := st.ind + [st.aInd], aInd := stroke))
  {
    ReadAfterMarker(st, PointLines(stroke, c), c);
    ReadPointLines(st.(ind := st.ind + [st.aInd], aInd := []), stroke, c);
    assert [] + stroke == stroke;
  }

  /** The strokes after the first are exact when all are. */
  lemma StrokesExactTail(ind: seq<D4Line>, c: NumCodec)
    requires |ind| > 0 && StrokesExact(c, ind)
    ensures StrokeExact(c, ind[0]) && StrokesExact(c, ind[1..])
  {
    assert forall k :: 0 <= k < |ind| - 1 ==> ind[1..][k] == ind[k + 1];
  }

  /** The finished strokes after the first one is read, then all but the last of the rest. */
  lemma FinishedAfterFirst(finished: seq<D4Line>, ind: seq<D4Line>)
    requires |ind| > 1
    ensures ind[1..][|ind[1..]| - 1] == ind[|ind| - 1]
    ensures finished + [ind[0]] + ind[1..][..|ind[1..]| - 1] == finished + ind[..|ind| - 1]
  {
    var n := |ind| - 1;
    assert [ind[0]] + ind[1..][..n - 1] == ind[..n];
  }

  /** With reach_ind set, each indicator stroke closes the current one and becomes current itself. */
  lemma {:induction false} ReadLaterIndLines(st: ReadState, ind: seq<D4Line>, c: NumCodec)
    requires StrokesExact(c, ind)
    requires st.reachInd && |ind| > 0
    ensures ReadLines(st, IndLines(ind, c), c)
         == Success(ReadState(st.main, ind[|ind| - 1], st.ind + [st.aInd] + ind[..|ind| - 1], true))
    decreases |ind|
  {
    var marked := ["ind"] + PointLines(ind[0], c);
    var s1 := st.(ind := st.ind + [st.aInd], aInd := ind[0]);
    StrokesExactTail(ind, c);
    ReadNextIndStroke(st, ind[0], c);
    var n := |ind| - 1;
    var result := ReadState(st.main, ind[n], st.ind + [st.aInd] + ind[..n], true);
    if n == 0 {
      assert IndLines(ind[1..], c) == [];
      assert st.ind + [st.aInd] + ind[..n] == st.ind + [st.aInd];
      ReadConcat(st, marked, [], s1, result, c);
    } else {
      StrokesExactTail(ind, c);
      ReadLaterIndLines(s1, ind[1..], c);
      FinishedAfterFirst(st.ind + [st.aInd], ind);
      ReadConcat(st, marked, IndLines(ind[1..], c), s1, result, c);
    }
  }

  /**
    After the main stroke, the indicator-stroke lines leave all strokes but
    the last finished and the last one current, with reach_ind set.
  */
  lemma ReadIndLines(st: ReadState, ind: seq<D4Line>, c: NumCodec)
    requires StrokesExact(c, ind)
    requires !st.reachInd && st.aInd == [] && |ind| > 0
    ensures ReadLines(st, IndLines(ind, c), c)
         == Success(ReadState(st.main, ind[|ind| - 1], st.ind + ind[..|ind| - 1], true))
  {
    var marked := ["ind"] + PointLines(ind[0], c);
    var s1 := st.(aInd := ind[0], reachInd := true);
    StrokesExactTail(ind, c);
    ReadFirstIndStroke(st, ind[0], c);
    var n := |ind| - 1;
    var result := ReadState(st.main, ind[n], st.ind + ind[..n], true);
    if n == 0 {
      assert IndLines(ind[1..], c) == [];
      assert st.ind + ind[..n] == st.ind;
      ReadConcat(st, marked, [], s1, result, c);
    } else {
      StrokesExactTail(ind, c);
      ReadLaterIndLines(s1, ind[1..], c);
      FinishedAfterFirst(st.ind, ind);
      ReadConcat(st, marked, IndLines(ind[1..], c), s1, result, c);
    }
  }

  /** A "seq" marker is ignored. */
  lemma ReadAfterSeq(st: ReadState, lines: seq<string>, c: NumCodec)
    ensures ReadLines(st, ["seq"] + lines, c) == ReadLines(st, lines, c)
  {
    assert (["seq"] + lines)[0] == "seq";
    assert (["seq"] + lines)[1..] == lines;
  }

  /** The state after reading the lines of a written glyph. */
  lemma ReadBcfLines(b: Bsc, c: NumCodec)
    requires GlyphExact(c, b)
    ensures b.ind == [] ==> ReadLines(Start, BcfLines(b, c), c) == Success(Start.(main := b.main))
    ensures b.ind != [] ==>
      ReadLines(Start, BcfLines(b, c), c) == Success(ReadState(b.main, b.ind[|b.ind| - 1], b.ind[..|b.ind| - 1], true))
  {
    var head := ["seq"] + PointLines(b.main, c);
    var afterMain := Start.(main := b.main);
    ReadAfterSeq(Start, PointLines(b.main, c), c);
    ReadPointLines(Start, b.main, c);
    assert [] + b.main == b.main;
    if b.ind == [] {
      assert IndLines(b.ind, c) == [];
      ReadConcat(Start, head, [], afterMain, afterMain, c);
    } else {
      var n := |b.ind| - 1;
      ReadIndLines(afterMain, b.ind, c);
      assert [] + b.ind[..n] == b.ind[..n];
      ReadConcat(Start, head, IndLines(b.ind, c), afterMain, ReadState(b.main, b.ind[n], b.ind[..n], true), c);
    }
  }

  lemma ParseOfSerialized(b: Bsc, st: ReadState, c: NumCodec)
    requires GlyphFormats(c, b)
    requires ReadLines(Start, BcfLines(b, c), c) == Success(st)
    ensures Parse(Serialize(b, c), c) == Success(Finish(st))
  {
    SerializedLayout(b, c);
    ParseOfLines(Serialize(b, c), BcfLines(b, c), st, c);
  }

  lemma FinishWithInd(b: Bsc)
    requires b.ind != []
    ensures Finish(ReadState(b.main, b.ind[|b.ind| - 1], b.ind[..|b.ind| - 1], true)) == b
  {
    assert b.ind[..|b.ind| - 1] + [b.ind[|b.ind| - 1]] == b.ind;
  }

  lemma RoundTripWithInd(b: Bsc, c: NumCodec)
    requires GlyphExact(c, b) && b.ind != []
    ensures Parse(Serialize(b, c), c) == Success(b)
  {
    GlyphExactFormats(b, c);
    ReadBcfLines(b, c);
    var st := ReadState(b.main, b.ind[|b.ind| - 1], b.ind[..|b.ind| - 1], true);
    ParseOfSerialized(b, st, c);
    FinishWithInd(b);
  }

  lemma RoundTripWithoutInd(b: Bsc, c: NumCodec)
    requires GlyphExact(c, b) && b.ind == []
    ensures Parse(Serialize(b, c), c) == Success(Bsc(b.main, [[]]))
  {
    GlyphExactFormats(b, c);
    ReadBcfLines(b, c);
    var st := Start.(main := b.main);
    ParseOfSerialized(b, st, c);
    assert st.ind + [st.aInd] == [[]];
  }

  /**
    Round trip: string_2_bsc undoes bsc_2_string whenever the glyph has an
    indicator stroke; with none, the reader's final push yields one empty
    indicator stroke.
  */
  lemma RoundTrip(b: Bsc, c: NumCodec)
    requires GlyphExact(c, b)
    ensures b.ind != [] ==> Parse(Serialize(b, c), c) == Success(b)
    ensures b.ind == [] ==> Parse(Serialize(b, c), c) == Success(Bsc(b.main, [[]]))
  {
    if b.ind != [] {
      RoundTripWithInd(b, c);
    } else {
      RoundTripWithoutInd(b, c);
    }
  }

  /** A codec that writes 0.0 as "0" and any other number as "1", and reads those two tokens back. */
  function BitFormat(v: real): string
  {
    if v == 0.0 then "0" else "1"
  }

  function BitParse(t: string): Option<real>
  {
    if t == "0" then Some(0.0) else if t == "1" then Some(1.0) else None
  }

  /**
    The exactness hypothesis of the round trip is met by real codecs and
    glyphs: here a glyph with one main point and one indicator stroke loads
    back as itself.
  */
  lemma RoundTripWitness()
    ensures var c := NumCodec(BitFormat, BitParse);
            var b := Bsc([Vec4(0.0, 1.0, 0.0, 1.0)], [[Vec4(1.0, 1.0, 0.0, 0.0)]]);
            Parse(Serialize(b, c), c) == Success(b)
  {
    var c := NumCodec(BitFormat, BitParse);
    var b := Bsc([Vec4(0.0, 1.0, 0.0, 1.0)], [[Vec4(1.0, 1.0, 0.0, 0.0)]]);
    assert ExactOn(c, 0.0) && ExactOn(c, 1.0);
    assert PointExact(c, b.main[0]) && PointExact(c, b.ind[0][0]);
    RoundTrip(b, c);
  }

  lemma ParseOfLines(text: string, lines: seq<string>, st: ReadState, c: NumCodec)
    requires Lines(text) == lines && ReadLines(Start, lines, c) == Success(st)
    ensures Parse(text, c) == Success(Finish(st))
  {
  }

  /**
    Saving a loaded glyph reproduces the file when the glyph had an
    indicator stroke; without one, the re-saved file gains a trailing "ind" line.
  */
  lemma ResaveAfterLoad(b: Bsc, c: NumCodec)
    requires GlyphExact(c, b)
    ensures Parse(Serialize(b, c), c).Success?
    ensures b.ind != [] ==> Serialize(Parse(Serialize(b, c), c).value, c) == Serialize(b, c)
    ensures b.ind == [] ==> Serialize(Parse(Serialize(b, c), c).value, c) == Serialize(b, c) + "\nind"
  {
    RoundTrip(b, c);
    if b.ind == [] {
      var loaded := Bsc(b.main, [[]]);
      var noStrokes: seq<D4Line> := [[]];
      assert noStrokes[1..] == [];
      assert IndLines([[]], c) == ["ind"] + PointLines([], c) + IndLines([], c);
      assert PointLines([], c) == [];
      assert BcfLines(loaded, c) == BcfLines(b, c) + ["ind"];
      JoinSnoc(BcfLines(b, c), "ind");
    }
  }

  /** The token loop succeeds exactly when every token parses, and then yields their values in order. */
  lemma {:induction false} ParseNumbersOk(tokens: seq<string>, c: NumCodec)
    ensures ParseNumbers(tokens, c).Success? <==> forall k :: 0 <= k < |tokens| ==> c.parse(tokens[k]).Some?
    ensures ParseNumbers(tokens, c).Success? ==>
      |ParseNumbers(tokens, c).value| == |tokens|
      && forall k :: 0 <= k < |tokens| ==> ParseNumbers(tokens, c).value[k] == c.parse(tokens[k]).value
    decreases |tokens|
  {
    if tokens != [] {
      var n := |tokens| - 1;
      ParseNumbersOk(tokens[..n], c);
      assert forall k :: 0 <= k < n ==> tokens[..n][k] == tokens[k];
    }
  }

  /** A point line fails exactly when a token is not a number or there are fewer than four numbers. */
  lemma ParseLineFails(line: string, c: NumCodec)
    ensures ParseLine(line, c).Failure? <==>
      (exists k :: 0 <= k < |SplitWhitespace(line)| && c.parse(SplitWhitespace(line)[k]).None?)
      || |SplitWhitespace(line)| < 4
  {
    ParseNumbersOk(SplitWhitespace(line), c);
  }

  /** Reading fails exactly when some point line (a line that is neither marker) fails to parse. */
  lemma {:induction false} ReadLinesFails(st: ReadState, lines: seq<string>, c: NumCodec)
    ensures ReadLines(st, lines, c).Failure? <==>
      exists k :: 0 <= k < |lines| && IsPointLine(lines[k]) && ParseLine(lines[k], c).Failure?
    decreases |lines|
  {
    if lines != [] {
      match ReadLine(st, lines[0], c)
      case Failure(_) =>
        assert IsPointLine(lines[0]) && ParseLine(lines[0], c).Failure?;
      case Success(s) =>
        ReadLinesFails(s, lines[1..], c);
        assert forall k :: 0 <= k < |lines| - 1 ==> lines[1..][k] == lines[k + 1];
        if exists k :: 0 <= k < |lines| && IsPointLine(lines[k]) && ParseLine(lines[k], c).Failure? {
          var k :| 0 <= k < |lines| && IsPointLine(lines[k]) && ParseLine(lines[k], c).Failure?;
          assert k > 0;
          assert IsPointLine(lines[1..][k - 1]) && ParseLine(lines[1..][k - 1], c).Failure?;
        }
    }
  }

  /** string_2_bsc fails exactly on a malformed point line; markers never fail. */
  lemma ParseFails(text: string, c: NumCodec)
    ensures Parse(text, c).Failure? <==>
      exists k :: 0 <= k < |Lines(text)| && IsPointLine(Lines(text)[k]) && ParseLine(Lines(text)[k], c).Failure?
  {
    var lines := Lines(text);
    ReadLinesFails(Start, lines, c);
    match ReadLines(Start, lines, c)
    case Failure(_) =>
    case Success(st) =>
      assert Parse(text, c) == Success(Finish(st));
  }
}
