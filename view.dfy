/**
  The parts of the drawing loop in src/main.rs that compute values: the
  conversion of a rendered polyline to coloured canvas points, and the
  zero-padded frame number used in captured file names.
*/
module View {
  import opened Glyph

  /** An 8-bit colour channel (u8). */
  newtype Channel = x: int | 0 <= x < 256

  /** nannou's Rgba8. */
  datatype Rgba8 = Rgba8(r: Channel, g: Channel, b: Channel, a: Channel)

  /** The line alpha value ALPHA. */
  const Alpha: Channel := 255

  /** The colour every point of every polyline is drawn with. */
  const LineColour: Rgba8 := Rgba8(240, 180, 170, Alpha)

  /** Glyph coordinates, with the unit square in view, to canvas coordinates centred on the window. */
  function ToCanvas(p: Vec2, scaling: real): (q: Vec2)
    ensures q.x == (p.x - 0.5) * scaling && q.y == (p.y - 0.5) * scaling
  {
    Vec2((p.x - 0.5) * scaling, (p.y - 0.5) * scaling)
  }

  /** The glyph square [0, 1] x [0, 1] fills the window [-s/2, s/2] x [-s/2, s/2], centre at the origin. */
  lemma UnitSquareFillsWindow(p: Vec2, scaling: real)
    requires scaling > 0.0
    ensures ToCanvas(Vec2(0.5, 0.5), scaling) == Vec2(0.0, 0.0)
    ensures 0.0 <= p.x <= 1.0 ==> -scaling / 2.0 <= ToCanvas(p, scaling).x <= scaling / 2.0
    ensures 0.0 <= p.y <= 1.0 ==> -scaling / 2.0 <= ToCanvas(p, scaling).y <= scaling / 2.0
  {
    if 0.0 <= p.x <= 1.0 {
      CenteredBounds(p.x, scaling);
    }
    if 0.0 <= p.y <= 1.0 {
      CenteredBounds(p.y, scaling);
    }
  }

  lemma CenteredBounds(v: real, scaling: real)
    requires scaling > 0.0 && 0.0 <= v <= 1.0
    ensures -scaling / 2.0 <= (v - 0.5) * scaling <= scaling / 2.0
  {
    assert (v - 0.5) * scaling == v * scaling - scaling / 2.0;
    assert 0.0 <= v * scaling <= scaling;
  }

  /** for_pointes_colored: one coloured canvas point per polyline point, in order. */
  method ForPointsColored(input: D2Line, scaling: real) returns (out: seq<(Vec2, Rgba8)>)
    ensures |out| == |input|
    ensures forall i :: 0 <= i < |input| ==> out[i] == (ToCanvas(input[i], scaling), LineColour)
  {
    out := [];
    for i := 0 to |input|
      invariant |out| == i
      invariant forall k :: 0 <= k < i ==> out[k] == (ToCanvas(input[k], scaling), LineColour)
    {
      var xNannou := (input[i].x - 0.5) * scaling;
      var yNannou := (input[i].y - 0.5) * scaling;
      assert Vec2(xNannou, yNannou) == ToCanvas(input[i], scaling);
      out := out + [(Vec2(xNannou, yNannou), LineColour)];
    }
  }

  // ---------------------------------------------------------------- frame numbers

  function DigitChar(d: nat): (ch: char)
    requires d < 10
    ensures '0' <= ch <= '9'
  {
    "0123456789"[d]
  }

  /** `format!("{}", n)` for an unsigned integer: decimal digits without leading zeros. */
  function Decimal(n: nat): (s: string)
    ensures |s| > 0
    ensures forall k :: 0 <= k < |s| ==> '0' <= s[k] <= '9'
  {
    if n < 10 then [DigitChar(n)] else Decimal(n / 10) + [DigitChar(n % 10)]
  }

  /** The number a string of decimal digits denotes. */
  function DecimalValue(s: string): nat
    requires forall k :: 0 <= k < |s| ==> '0' <= s[k] <= '9'
  {
    if s == [] then 0 else 10 * DecimalValue(s[..|s| - 1]) + (s[|s| - 1] as int - '0' as int)
  }

  lemma DigitValue(d: nat)
    requires d < 10
    ensures DigitChar(d) as int - '0' as int == d
  {
  }

  /** The digits Decimal writes denote the number. */
  lemma {:induction false} DecimalDenotes(n: nat)
    ensures DecimalValue(Decimal(n)) == n
  {
    DigitValue(n % 10);
    if n >= 10 {
      DecimalDenotes(n / 10);
      var s := Decimal(n);
      assert s[..|s| - 1] == Decimal(n / 10);
    } else {
      assert [DigitChar(n)][..0] == [];
    }
  }

  /** The number of digits Decimal writes. */
  lemma {:induction false} DecimalLength(n: nat)
    ensures n < 10 ==> |Decimal(n)| == 1
    ensures 10 <= n < 100 ==> |Decimal(n)| == 2
    ensures 100 <= n < 1000 ==> |Decimal(n)| == 3
    ensures 1000 <= n < 10000 ==> |Decimal(n)| == 4
    ensures 10000 <= n ==> |Decimal(n)| > 4
  {
    if n >= 10 {
      DecimalLength(n / 10);
    }
  }

  /** The sequential number of a captured frame, zero-padded to four digits. */
  function FrameNumber(i: nat): string
  {
    if i < 10 then "000" + Decimal(i)
    else if i < 100 then "00" + Decimal(i)
    else if i < 1000 then "0" + Decimal(i)
    else Decimal(i)
  }

  /** A leading zero does not change the number denoted. */
  lemma {:induction false} LeadingZero(s: string)
    requires forall k :: 0 <= k < |s| ==> '0' <= s[k] <= '9'
    ensures DecimalValue("0" + s) == DecimalValue(s)
    decreases |s|
  {
    if s == [] {
      assert ("0" + s)[..0] == [];
    } else {
      var n := |s| - 1;
      assert ("0" + s)[..|s|] == "0" + s[..n];
      LeadingZero(s[..n]);
    }
  }

  /** One padding zero keeps a digit string a digit string of the same value. */
  lemma PadOne(s: string)
    requires forall k :: 0 <= k < |s| ==> '0' <= s[k] <= '9'
    ensures forall k :: 0 <= k < |"0" + s| ==> '0' <= ("0" + s)[k] <= '9'
    ensures DecimalValue("0" + s) == DecimalValue(s)
  {
    LeadingZero(s);
  }

  lemma PadTwo(s: string)
    requires forall k :: 0 <= k < |s| ==> '0' <= s[k] <= '9'
    ensures forall k :: 0 <= k < |"00" + s| ==> '0' <= ("00" + s)[k] <= '9'
    ensures DecimalValue("00" + s) == DecimalValue(s)
  {
    PadOne(s);
    PadOne("0" + s);
    assert "00" + s == "0" + ("0" + s);
  }

  lemma PadThree(s: string)
    requires forall k :: 0 <= k < |s| ==> '0' <= s[k] <= '9'
    ensures forall k :: 0 <= k < |"000" + s| ==> '0' <= ("000" + s)[k] <= '9'
    ensures DecimalValue("000" + s) == DecimalValue(s)
  {
    PadTwo(s);
    PadOne("00" + s);
    assert "000" + s == "0" + ("00" + s);
  }

  /**
    Frame numbers below 10000 are exactly four digits, zero-padded, and
    denote the frame; from 1000 on they are the plain decimal number.
  */
  lemma FrameNumberFormat(i: nat)
    ensures forall k :: 0 <= k < |FrameNumber(i)| ==> '0' <= FrameNumber(i)[k] <= '9'
    ensures i < 10000 ==> |FrameNumber(i)| == 4
    ensures DecimalValue(FrameNumber(i)) == i
    ensures i >= 1000 ==> FrameNumber(i) == Decimal(i)
    ensures i < 1000 ==> FrameNumber(i)[0] == '0'
  {
    DecimalLength(i);
    DecimalDenotes(i);
    var d := Decimal(i);
    if i < 10 {
      PadThree(d);
    } else if i < 100 {
      PadTwo(d);
    } else if i < 1000 {
      PadOne(d);
    }
  }
}
