/**
  The extrusion stage `d4_2_d2` of src/bsc.rs: every 4D group becomes
  resolution + 1 polylines, line j offsetting each point along its own
  velocity by j / (resolution + 1) * boldness.
*/
module Extrusion {
  import opened Glyph

  /** The offset fraction of line j: j / (resolution + 1) * boldness. */
  function OffsetFraction(j: nat, resolution: nat, boldness: real): real
  {
    j as real / (resolution + 1) as real * boldness
  }

  /**
    Line 0 is not offset, and for a positive boldness the lines
    0 .. resolution sweep [0, boldness) without reaching it.
  */
  lemma OffsetFractionRange(j: nat, resolution: nat, boldness: real)
    ensures j == 0 ==> OffsetFraction(j, resolution, boldness) == 0.0
    ensures j <= resolution && boldness > 0.0 ==> 0.0 <= OffsetFraction(j, resolution, boldness) < boldness
  {
    var q := j as real / (resolution + 1) as real;
    if j <= resolution && boldness > 0.0 {
      FractionBelowOne(j, resolution + 1);
      FractionBelow(q, boldness);
    }
  }

  lemma FractionBelowOne(j: nat, n: nat)
    requires j < n
    ensures 0.0 <= j as real / n as real < 1.0
  {
    var q := j as real / n as real;
    assert q * n as real == j as real;
  }

  lemma FractionBelow(q: real, boldness: real)
    requires 0.0 <= q && boldness > 0.0
    ensures 0.0 <= q * boldness
    ensures q < 1.0 ==> q * boldness < boldness
  {
  }

  /** One point moved along its velocity by mul. */
  function OffsetPoint(p: Vec4, mul: real): Vec2
  {
    Vec2(p.x + p.vx * mul, p.y + p.vy * mul)
  }

  /** One offset polyline: every point (x, y, vx, vy) becomes (x + vx mul, y + vy mul). */
  function OffsetLine(line: D4Line, mul: real): (d2: D2Line)
    ensures |d2| == |line|
    ensures forall i :: 0 <= i < |line| ==>
      d2[i] == Vec2(line[i].x + line[i].vx * mul, line[i].y + line[i].vy * mul)
  {
    seq(|line|, i requires 0 <= i < |line| => OffsetPoint(line[i], mul))
  }

  /** The bare positions of a stroke, velocity dropped. */
  function Positions(line: D4Line): (d2: D2Line)
    ensures |d2| == |line|
  {
    seq(|line|, i requires 0 <= i < |line| => Vec2(line[i].x, line[i].y))
  }

  /** The resolution + 1 offset lines of one group, j = 0 first. */
  function Family(line: D4Line, resolution: nat, boldness: real): (lines: seq<D2Line>)
    ensures |lines| == resolution + 1
    ensures forall j :: 0 <= j < |lines| ==> |lines[j]| == |line|
  {
    seq(resolution + 1, j requires 0 <= j <= resolution => OffsetLine(line, OffsetFraction(j, resolution, boldness)))
  }

  /** The whole output: the families of the groups, in group order. */
  function Extrude(groups: seq<D4Line>, resolution: nat, boldness: real): seq<D2Line>
  {
    if groups == [] then []
    else Extrude(groups[..|groups| - 1], resolution, boldness) + Family(groups[|groups| - 1], resolution, boldness)
  }

  /** The j = 0 line is the bare positions, and with zero velocities every line is. */
  lemma FamilyOffsets(line: D4Line, resolution: nat, boldness: real, j: nat)
    requires j <= resolution
    ensures j == 0 ==> Family(line, resolution, boldness)[j] == Positions(line)
    ensures (forall i :: 0 <= i < |line| ==> line[i].vx == 0.0 && line[i].vy == 0.0) ==>
      Family(line, resolution, boldness)[j] == Positions(line)
  {
    var l := Family(line, resolution, boldness)[j];
    assert |l| == |line|;
    if j == 0 {
      assert OffsetFraction(j, resolution, boldness) == 0.0;
      assert forall i :: 0 <= i < |line| ==> l[i] == Positions(line)[i];
    }
    if forall i :: 0 <= i < |line| ==> line[i].vx == 0.0 && line[i].vy == 0.0 {
      assert forall i :: 0 <= i < |line| ==> l[i] == Positions(line)[i];
    }
  }

  /** Exactly resolution + 1 lines per group. */
  lemma {:induction false} ExtrudeLength(groups: seq<D4Line>, resolution: nat, boldness: real)
    ensures |Extrude(groups, resolution, boldness)| == (resolution + 1) * |groups|
  {
    if groups != [] {
      ExtrudeLength(groups[..|groups| - 1], resolution, boldness);
      assert (resolution + 1) * (|groups| - 1) + (resolution + 1) == (resolution + 1) * |groups|;
    }
  }

  /**
    Line g * (resolution + 1) + j of the output is line j of group g's family:
    it has the group's length (so an empty group still gives resolution + 1
    empty lines).
  */
  lemma {:induction false} ExtrudeAt(groups: seq<D4Line>, resolution: nat, boldness: real, g: nat, j: nat)
    requires g < |groups| && j <= resolution
    ensures |Extrude(groups, resolution, boldness)| == (resolution + 1) * |groups|
    ensures g * (resolution + 1) + j < (resolution + 1) * |groups|
    ensures Extrude(groups, resolution, boldness)[g * (resolution + 1) + j]
         == OffsetLine(groups[g], OffsetFraction(j, resolution, boldness))
    ensures |Extrude(groups, resolution, boldness)[g * (resolution + 1) + j]| == |groups[g]|
  {
    ExtrudeLength(groups, resolution, boldness);
    BlockIndexBelow(g, j, resolution, |groups|);
    var last := |groups| - 1;
    var prefix := groups[..last];
    ExtrudeLength(prefix, resolution, boldness);
    var out := Extrude(groups, resolution, boldness);
    var front := Extrude(prefix, resolution, boldness);
    var fam := Family(groups[last], resolution, boldness);
    assert out == front + fam;
    var idx := g * (resolution + 1) + j;
    if g < last {
      ExtrudeAt(prefix, resolution, boldness, g, j);
      BlockIndexBelow(g, j, resolution, last);
      assert out[idx] == front[idx];
    } else {
      BlockIndexAt(g, j, resolution);
      assert out[idx] == fam[j];
    }
  }

  lemma BlockIndexBelow(g: nat, j: nat, resolution: nat, count: nat)
    requires g < count && j <= resolution
    ensures g * (resolution + 1) + j < (resolution + 1) * count
  {
    assert g * (resolution + 1) + j < (g + 1) * (resolution + 1);
    assert (g + 1) * (resolution + 1) <= count * (resolution + 1);
  }

  lemma BlockIndexAt(g: nat, j: nat, resolution: nat)
    ensures g * (resolution + 1) + j - (resolution + 1) * g == j
  {
  }

  lemma OffsetLineSnoc(line: D4Line, i: nat, mul: real)
    requires i < |line|
    ensures OffsetLine(line[..i + 1], mul)
         == OffsetLine(line[..i], mul) + [Vec2(line[i].x + line[i].vx * mul, line[i].y + line[i].vy * mul)]
  {
    var a := OffsetLine(line[..i + 1], mul);
    var b := OffsetLine(line[..i], mul) + [Vec2(line[i].x + line[i].vx * mul, line[i].y + line[i].vy * mul)];
    assert |a| == |b|;
    forall k | 0 <= k < |a| ensures a[k] == b[k] {
    }
  }

  /** d4_2_d2: three nested push loops over groups, offset lines and points. */
  method D4ToD2(groups: seq<D4Line>, resolution: nat, boldness: real) returns (shirataki: seq<D2Line>)
    ensures shirataki == Extrude(groups, resolution, boldness)
  {
    shirataki := [];
    for g := 0 to |groups|
      invariant shirataki == Extrude(groups[..g], resolution, boldness)
    {
      var d4line := groups[g];
      ghost var before := shirataki;
      for j := 0 to resolution + 1
        invariant shirataki == before + Family(d4line, resolution, boldness)[..j]
      {
        var d2line: D2Line := [];
        var mul := j as real / (resolution + 1) as real * boldness;
        for i := 0 to |d4line|
          invariant d2line == OffsetLine(d4line[..i], mul)
        {
          OffsetLineSnoc(d4line, i, mul);
          d2line := d2line + [Vec2(d4line[i].x + d4line[i].vx * mul, d4line[i].y + d4line[i].vy * mul)];
        }
        assert d4line[..|d4line|] == d4line;
        assert mul == OffsetFraction(j, resolution, boldness);
        assert d2line == OffsetLine(d4line, OffsetFraction(j, resolution, boldness));
        assert d2line == Family(d4line, resolution, boldness)[j];
        assert Family(d4line, resolution, boldness)[..j + 1] == Family(d4line, resolution, boldness)[..j] + [d2line];
        shirataki := shirataki + [d2line];
      }
      assert groups[..g + 1][..g] == groups[..g];
    }
    assert groups[..|groups|] == groups;
  }
}
