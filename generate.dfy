/**
  Procedural glyph generation (module generate_bsc of src/bsc.rs).
  The thread-local random generator is replaced by a sequence of raw samples,
  each one a draw of `rng.gen::<f32>()`, consumed front to back.
*/
module GenerateBsc {
  import opened Wrappers
  import opened Glyph

  /** `seq[seq.len() - 1]` on an empty main stroke: the source panics. */
  datatype GenError = EmptyMainStroke

  /** A raw sample of `rng.gen::<f32>()`, which lies in [0, 1). */
  predicate IsSample(r: real) { 0.0 <= r < 1.0 }

  /** One component of random_vec2: a raw sample centred on 0 and scaled to [-max, max). */
  function Centered(r: real, maxNorm: real): (c: real)
    ensures IsSample(r) && maxNorm >= 0.0 ==> -maxNorm <= c <= maxNorm
    ensures IsSample(r) && maxNorm > 0.0 ==> c < maxNorm
    ensures r == 0.5 ==> c == 0.0
  {
    CenteredRange(r, maxNorm);
    (r - 0.5) * 2.0 * maxNorm
  }

  lemma CenteredRange(r: real, maxNorm: real)
    ensures IsSample(r) && maxNorm >= 0.0 ==> -maxNorm <= (r - 0.5) * 2.0 * maxNorm <= maxNorm
    ensures IsSample(r) && maxNorm > 0.0 ==> (r - 0.5) * 2.0 * maxNorm < maxNorm
  {
    var u := (r - 0.5) * 2.0;
    assert u * maxNorm == (r - 0.5) * 2.0 * maxNorm;
    if IsSample(r) && maxNorm >= 0.0 {
      assert -1.0 <= u < 1.0;
      assert -maxNorm <= u * maxNorm;
      assert u * maxNorm <= maxNorm;
      if maxNorm > 0.0 {
        assert (1.0 - u) * maxNorm > 0.0;
      }
    }
  }

  /** random_vec2: both components drawn by Centered. */
  function RandomVec2(rx: real, ry: real, maxNorm: real): (v: Vec2)
    ensures IsSample(rx) && maxNorm >= 0.0 ==> -maxNorm <= v.x <= maxNorm
    ensures IsSample(ry) && maxNorm >= 0.0 ==> -maxNorm <= v.y <= maxNorm
    ensures IsSample(rx) && maxNorm > 0.0 ==> v.x < maxNorm
    ensures IsSample(ry) && maxNorm > 0.0 ==> v.y < maxNorm
    ensures rx == 0.5 ==> v.x == 0.0
    ensures ry == 0.5 ==> v.y == 0.0
  {
    Vec2(Centered(rx, maxNorm), Centered(ry, maxNorm))
  }

  /** The spawn range of a control point: position in [0,1) x [0,1), velocity in [-v, v)^2. */
  predicate InSpawnRange(p: Vec4, vStrength: real)
  {
    && 0.0 <= p.x < 1.0 && 0.0 <= p.y < 1.0
    && -vStrength <= p.vx < vStrength && -vStrength <= p.vy < vStrength
  }

  /**
    random_d4: the position is random_vec2(0.5) shifted by (0.5, 0.5) and the
    velocity is random_vec2(v_strength); it draws four samples, in the order
    x, y, vx, vy.
  */
  function RandomD4(r0: real, r1: real, r2: real, r3: real, vStrength: real): (p: Vec4)
    ensures p.x == r0 && p.y == r1
    ensures IsSample(r0) && IsSample(r1) && IsSample(r2) && IsSample(r3) && vStrength > 0.0
            ==> InSpawnRange(p, vStrength)
  {
    var coordinate := RandomVec2(r0, r1, 0.5);
    var velocity := RandomVec2(r2, r3, vStrength);
    Vec4(coordinate.x + 0.5, coordinate.y + 0.5, velocity.x, velocity.y)
  }

  /** The `n` points drawn one after another from the samples starting at `start`. */
  function Drawn(samples: seq<real>, start: nat, n: nat, vStrength: real): (line: D4Line)
    requires start + 4 * n <= |samples|
    ensures |line| == n
    ensures forall k :: 0 <= k < n ==>
      line[k] == RandomD4(samples[start + 4 * k], samples[start + 4 * k + 1],
                          samples[start + 4 * k + 2], samples[start + 4 * k + 3], vStrength)
  {
    if n == 0 then []
    else
      var at := start + 4 * (n - 1);
      Drawn(samples, start, n - 1, vStrength)
        + [RandomD4(samples[at], samples[at + 1], samples[at + 2], samples[at + 3], vStrength)]
  }

  /** Total number of points, summed from the end. */
  function Sum(ns: seq<nat>): nat
  {
    if ns == [] then 0 else Sum(ns[..|ns| - 1]) + ns[|ns| - 1]
  }

  lemma {:induction false} SumPrefix(ns: seq<nat>, i: nat)
    requires i <= |ns|
    ensures Sum(ns[..i]) <= Sum(ns)
    decreases |ns|
  {
    if i < |ns| {
      assert ns[..|ns| - 1][..i] == ns[..i];
      SumPrefix(ns[..|ns| - 1], i);
    } else {
      assert ns[..i] == ns;
    }
  }

  /** Samples the whole generation consumes: four per point. */
  function SamplesNeeded(pinfo: Pinfo): nat
  {
    4 * (pinfo.seqNum + Sum(pinfo.indNums))
  }

  /** Index of the first sample of indicator stroke `i`. */
  function IndOffset(pinfo: Pinfo, i: nat): (offset: nat)
    requires i <= |pinfo.indNums|
    ensures i < |pinfo.indNums| ==> offset + 4 * pinfo.indNums[i] <= SamplesNeeded(pinfo)
    ensures offset <= SamplesNeeded(pinfo)
  {
    SumPrefix(pinfo.indNums, i);
    if i < |pinfo.indNums| then
      assert pinfo.indNums[..i + 1][..i] == pinfo.indNums[..i];
      SumPrefix(pinfo.indNums, i + 1);
      4 * (pinfo.seqNum + Sum(pinfo.indNums[..i]))
    else
      4 * (pinfo.seqNum + Sum(pinfo.indNums[..i]))
  }

  /** The indicator blocks tile the samples after the main block: the first starts where the main block ends, the last ends at SamplesNeeded. */
  lemma IndOffsetEnds(pinfo: Pinfo)
    ensures IndOffset(pinfo, 0) == 4 * pinfo.seqNum
    ensures IndOffset(pinfo, |pinfo.indNums|) == SamplesNeeded(pinfo)
  {
    assert pinfo.indNums[..0] == [];
    assert pinfo.indNums[..|pinfo.indNums|] == pinfo.indNums;
  }

  /** Stroke i's block of 4 * indNums[i] samples ends where stroke i + 1's begins. */
  lemma IndOffsetStep(pinfo: Pinfo, i: nat)
    requires i < |pinfo.indNums|
    ensures IndOffset(pinfo, i) + 4 * pinfo.indNums[i] == IndOffset(pinfo, i + 1)
  {
    assert pinfo.indNums[..i + 1][..i] == pinfo.indNums[..i];
  }

  /** The main-stroke orientation rule: reverse when the last x is left of the first x. */
  function Oriented(line: D4Line): (r: D4Line)
    requires |line| > 0
    ensures |r| == |line|
    ensures r[|r| - 1].x >= r[0].x
    ensures r == line || r == Reversed(line)
    ensures line[|line| - 1].x >= line[0].x ==> r == line
    ensures forall p :: p in r <==> p in line
  {
    ReversedSameMembers(line);
    if line[|line| - 1].x < line[0].x then Reversed(line) else line
  }

  lemma ReversedSameMembers(s: D4Line)
    ensures forall p :: p in Reversed(s) <==> p in s
  {
    var r := Reversed(s);
    forall p | p in s ensures p in r {
      var i :| 0 <= i < |s| && s[i] == p;
      assert r[|s| - 1 - i] == p;
    }
  }

  lemma {:induction false} DrawnInSpawnRange(samples: seq<real>, start: nat, n: nat, vStrength: real)
    requires start + 4 * n <= |samples|
    requires forall k :: 0 <= k < |samples| ==> IsSample(samples[k])
    requires vStrength > 0.0
    ensures forall p :: p in Drawn(samples, start, n, vStrength) ==> InSpawnRange(p, vStrength)
  {
    if n > 0 {
      DrawnInSpawnRange(samples, start, n - 1, vStrength);
      var at := start + 4 * (n - 1);
      assert IsSample(samples[at]) && IsSample(samples[at + 1]);
      assert IsSample(samples[at + 2]) && IsSample(samples[at + 3]);
    }
  }

  /** One stroke of `n` random points drawn from the samples at `start` (the push loops of create_simple_bsf). */
  method DrawStroke(samples: seq<real>, start: nat, n: nat, vStrength: real) returns (line: D4Line)
    requires start + 4 * n <= |samples|
    ensures line == Drawn(samples, start, n, vStrength)
  {
    line := [];
    var next := start;
    for k := 0 to n
      invariant next == start + 4 * k
      invariant line == Drawn(samples, start, k, vStrength)
    {
      line := line + [RandomD4(samples[next], samples[next + 1], samples[next + 2], samples[next + 3], vStrength)];
      next := next + 4;
    }
  }

  /** The indicator strokes drawn in turn, stroke i from the samples at IndOffset(pinfo, i). */
  predicate IndicatorsDrawn(ind: seq<D4Line>, pinfo: Pinfo, vStrength: real, samples: seq<real>)
    requires SamplesNeeded(pinfo) <= |samples|
  {
    && |ind| == |pinfo.indNums|
    && forall i :: 0 <= i < |pinfo.indNums| ==>
         && |ind[i]| == pinfo.indNums[i]
         && ind[i] == Drawn(samples, IndOffset(pinfo, i), pinfo.indNums[i], vStrength)
  }

  /** The indicator loop of create_simple_bsf: one stroke per entry of ind_num_v, in order. */
  method DrawIndicators(pinfo: Pinfo, vStrength: real, samples: seq<real>) returns (ind: seq<D4Line>)
    requires SamplesNeeded(pinfo) <= |samples|
    ensures IndicatorsDrawn(ind, pinfo, vStrength, samples)
  {
    ind := [];
    for i := 0 to |pinfo.indNums|
      invariant |ind| == i
      invariant forall l {:trigger ind[l]} :: 0 <= l < i ==>
        ind[l] == Drawn(samples, IndOffset(pinfo, l), pinfo.indNums[l], vStrength)
    {
      var aInd := DrawStroke(samples, IndOffset(pinfo, i), pinfo.indNums[i], vStrength);
      ghost var before := ind;
      ind := ind + [aInd];
      assert forall l :: 0 <= l < i ==> ind[l] == before[l];
    }
  }

  /** Every generated point lies in the spawn range when every sample is a valid draw. */
  lemma GeneratedInSpawnRange(main: D4Line, ind: seq<D4Line>, pinfo: Pinfo, vStrength: real, samples: seq<real>)
    requires SamplesNeeded(pinfo) <= |samples| && pinfo.seqNum > 0
    requires main == Oriented(Drawn(samples, 0, pinfo.seqNum, vStrength))
    requires IndicatorsDrawn(ind, pinfo, vStrength, samples)
    requires vStrength > 0.0 && forall k :: 0 <= k < |samples| ==> IsSample(samples[k])
    ensures forall p :: p in main ==> InSpawnRange(p, vStrength)
    ensures forall i, p :: 0 <= i < |ind| && p in ind[i] ==> InSpawnRange(p, vStrength)
  {
    DrawnInSpawnRange(samples, 0, pinfo.seqNum, vStrength);
    forall i | 0 <= i < |ind| ensures forall p :: p in ind[i] ==> InSpawnRange(p, vStrength) {
      DrawnInSpawnRange(samples, IndOffset(pinfo, i), pinfo.indNums[i], vStrength);
    }
  }

  /**
    create_simple_bsf: draws the main stroke, orients it left to right and
    draws each indicator stroke in turn.
  */
  method CreateSimpleBsf(pinfo: Pinfo, vStrength: real, samples: seq<real>) returns (r: Result<Bsc, GenError>)
    requires SamplesNeeded(pinfo) <= |samples|
    ensures r.Failure? <==> pinfo.seqNum == 0
    ensures r.Success? ==>
      && |r.value.main| == pinfo.seqNum
      && r.value.main[|r.value.main| - 1].x >= r.value.main[0].x
      && r.value.main == Oriented(Drawn(samples, 0, pinfo.seqNum, vStrength))
    ensures r.Success? ==> IndicatorsDrawn(r.value.ind, pinfo, vStrength, samples)
    ensures r.Success? && vStrength > 0.0 && (forall k :: 0 <= k < |samples| ==> IsSample(samples[k])) ==>
      && (forall p :: p in r.value.main ==> InSpawnRange(p, vStrength))
      && (forall i, p :: 0 <= i < |r.value.ind| && p in r.value.ind[i] ==> InSpawnRange(p, vStrength))
  {
    var main := DrawStroke(samples, 0, pinfo.seqNum, vStrength);
    if |main| == 0 {
      return Failure(EmptyMainStroke);
    }
    ghost var drawn := main;
    if main[|main| - 1].x < main[0].x {
      main := Reversed(main);
    }
    assert main == Oriented(drawn);
    var ind := DrawIndicators(pinfo, vStrength, samples);
    r := Success(Bsc(main, ind));
    if vStrength > 0.0 && (forall k :: 0 <= k < |samples| ==> IsSample(samples[k])) {
      GeneratedInSpawnRange(main, ind, pinfo, vStrength, samples);
    }
  }
}
