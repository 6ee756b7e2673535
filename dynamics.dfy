/**
  The per-tick integrator of src/main.rs: `move_point` nudges a point's
  velocity back towards the safe band around the centre (0.5, 0.5) and takes
  one Euler step; `mujica` applies it in place to every control point of the
  live glyph.
*/
module Dynamics {
  import opened Glyph

  /** The point lies left of (or below) the safe band on that axis. */
  predicate BelowBand(c: real, safeRange: real) { c - 0.5 < -0.5 * safeRange }

  /** The point lies right of (or above) the safe band on that axis. */
  predicate AboveBand(c: real, safeRange: real) { 0.5 * safeRange < c - 0.5 }

  /** The closed safe band [-0.5 safe_range, 0.5 safe_range] around the centre. */
  predicate InBand(c: real, safeRange: real) { -0.5 * safeRange <= c - 0.5 <= 0.5 * safeRange }

  /** One axis of move_point: the velocity after the soft-boundary nudge. */
  function Nudge(c: real, v: real, turnFactor: real, safeRange: real, speedFactor: real): (nv: real)
    ensures InBand(c, safeRange) ==> nv == v
    ensures safeRange >= 0.0 && BelowBand(c, safeRange) ==> nv == v + turnFactor * speedFactor
    ensures safeRange >= 0.0 && AboveBand(c, safeRange) ==> nv == v - turnFactor * speedFactor
    ensures BelowBand(c, safeRange) && AboveBand(c, safeRange) ==> safeRange < 0.0 && nv == v
  {
    var v1 := if BelowBand(c, safeRange) then v + turnFactor * speedFactor else v;
    if AboveBand(c, safeRange) then v1 - turnFactor * speedFactor else v1
  }

  /** The Euler position step: the coordinate moves by the velocity times speed_factor. */
  function EulerStep(c: real, v: real, speedFactor: real): real
  {
    c + v * speedFactor
  }

  /**
    move_point: the x rules adjust vx only and the y rules vy only; the
    position then moves by the updated velocity times speed_factor.
  */
  function MovePoint(p: Vec4, turnFactor: real, safeRange: real, speedFactor: real): (r: Vec4)
    ensures r.vx == Nudge(p.x, p.vx, turnFactor, safeRange, speedFactor)
    ensures r.vy == Nudge(p.y, p.vy, turnFactor, safeRange, speedFactor)
    ensures r.x == EulerStep(p.x, r.vx, speedFactor) && r.y == EulerStep(p.y, r.vy, speedFactor)
    ensures InBand(p.x, safeRange) ==> r.vx == p.vx
    ensures InBand(p.y, safeRange) ==> r.vy == p.vy
  {
    var vx := Nudge(p.x, p.vx, turnFactor, safeRange, speedFactor);
    var vy := Nudge(p.y, p.vy, turnFactor, safeRange, speedFactor);
    Vec4(EulerStep(p.x, vx, speedFactor), EulerStep(p.y, vy, speedFactor), vx, vy)
  }

  /** The x rules never read y or vy, and the y rules never read x or vx. */
  lemma AxesIndependent(p: Vec4, q: Vec4, turnFactor: real, safeRange: real, speedFactor: real)
    ensures p.x == q.x && p.vx == q.vx ==>
      MovePoint(p, turnFactor, safeRange, speedFactor).x == MovePoint(q, turnFactor, safeRange, speedFactor).x
      && MovePoint(p, turnFactor, safeRange, speedFactor).vx == MovePoint(q, turnFactor, safeRange, speedFactor).vx
    ensures p.y == q.y && p.vy == q.vy ==>
      MovePoint(p, turnFactor, safeRange, speedFactor).y == MovePoint(q, turnFactor, safeRange, speedFactor).y
      && MovePoint(p, turnFactor, safeRange, speedFactor).vy == MovePoint(q, turnFactor, safeRange, speedFactor).vy
  {
  }

  /** `traj` is a run of successive ticks of one point: each entry is move_point of the previous one. */
  predicate IsTrajectory(traj: seq<Vec4>, turnFactor: real, safeRange: real, speedFactor: real)
  {
    forall j :: 0 <= j < |traj| - 1 ==> traj[j + 1] == MovePoint(traj[j], turnFactor, safeRange, speedFactor)
  }

  /**
    Boundary seeking: while a point stays left of the safe band, every tick
    adds turn_factor * speed_factor to vx, so after k ticks vx has grown by k
    such steps.
  */
  lemma {:induction false} LeftOfBandAccelerates(traj: seq<Vec4>, turnFactor: real, safeRange: real, speedFactor: real)
    requires |traj| > 0 && safeRange >= 0.0
    requires IsTrajectory(traj, turnFactor, safeRange, speedFactor)
    requires forall j :: 0 <= j < |traj| - 1 ==> BelowBand(traj[j].x, safeRange)
    ensures traj[|traj| - 1].vx == traj[0].vx + (|traj| - 1) as real * (turnFactor * speedFactor)
  {
    var k := |traj| - 1;
    if k > 0 {
      LeftOfBandAccelerates(traj[..k], turnFactor, safeRange, speedFactor);
      var q := traj[k - 1];
      assert BelowBand(q.x, safeRange);
      assert traj[k] == MovePoint(q, turnFactor, safeRange, speedFactor);
      OneMoreStep(traj[0].vx, q.vx, traj[k].vx, k, turnFactor * speedFactor);
    }
  }

  lemma OneMoreStep(v0: real, v: real, v': real, k: nat, step: real)
    requires k > 0 && v == v0 + (k - 1) as real * step && v' == v + step
    ensures v' == v0 + k as real * step
  {
  }

  /**
    With a positive push (turn_factor * speed_factor > 0), a point that stays
    left of the band long enough ends up moving right: after k ticks with
    k * push > -vx its vx is positive.
  */
  lemma LeftOfBandTurnsRight(traj: seq<Vec4>, turnFactor: real, safeRange: real, speedFactor: real)
    requires |traj| > 0 && safeRange >= 0.0 && turnFactor * speedFactor > 0.0
    requires IsTrajectory(traj, turnFactor, safeRange, speedFactor)
    requires forall j :: 0 <= j < |traj| - 1 ==> BelowBand(traj[j].x, safeRange)
    requires (|traj| - 1) as real * (turnFactor * speedFactor) > -traj[0].vx
    ensures traj[|traj| - 1].vx > 0.0
  {
    LeftOfBandAccelerates(traj, turnFactor, safeRange, speedFactor);
  }

  /** The live glyph that mujica mutates in place (the `bsc` field of the nannou Model). */
  class LiveBsc {
    var main: D4Line
    var ind: seq<D4Line>

    constructor (b: Bsc)
      ensures main == b.main && ind == b.ind
    {
      main := b.main;
      ind := b.ind;
    }

    /** The value copied into a PlaceBsc when a frame is drawn (`model.bsc.clone()`). */
    function Snapshot(): (b: Bsc)
      reads this
      ensures b.main == main && b.ind == ind
    {
      Bsc(main, ind)
    }

    /**
      mujica: every control point of every stroke is replaced by move_point
      of its old value; no stroke changes length and no stroke is added or removed.
    */
    method Mujica(turnFactor: real, safeRange: real, speedFactor: real)
      modifies this
      ensures |main| == |old(main)|
      ensures forall i :: 0 <= i < |main| ==> main[i] == MovePoint(old(main)[i], turnFactor, safeRange, speedFactor)
      ensures |ind| == |old(ind)|
      ensures forall i :: 0 <= i < |ind| ==> |ind[i]| == |old(ind)[i]|
      ensures forall i, j :: 0 <= i < |ind| && 0 <= j < |ind[i]| ==>
        ind[i][j] == MovePoint(old(ind)[i][j], turnFactor, safeRange, speedFactor)
    {
      for i := 0 to |main|
        invariant |main| == |old(main)|
        invariant forall k :: 0 <= k < i ==> main[k] == MovePoint(old(main)[k], turnFactor, safeRange, speedFactor)
        invariant forall k :: i <= k < |main| ==> main[k] == old(main)[k]
        invariant ind == old(ind)
      {
        main := main[i := MovePoint(main[i], turnFactor, safeRange, speedFactor)];
      }
      ghost var moved := main;
      for i := 0 to |ind|
        invariant main == moved
        invariant |ind| == |old(ind)|
        invariant forall k :: 0 <= k < |ind| ==> |ind[k]| == |old(ind)[k]|
        invariant forall k, j :: 0 <= k < i && 0 <= j < |ind[k]| ==>
          ind[k][j] == MovePoint(old(ind)[k][j], turnFactor, safeRange, speedFactor)
        invariant forall k :: i <= k < |ind| ==> ind[k] == old(ind)[k]
      {
        for j := 0 to |ind[i]|
          invariant main == moved
          invariant |ind| == |old(ind)|
          invariant forall k :: 0 <= k < |ind| ==> |ind[k]| == |old(ind)[k]|
          invariant forall k, l :: 0 <= k < i && 0 <= l < |ind[k]| ==>
            ind[k][l] == MovePoint(old(ind)[k][l], turnFactor, safeRange, speedFactor)
          invariant forall l :: 0 <= l < j ==> ind[i][l] == MovePoint(old(ind)[i][l], turnFactor, safeRange, speedFactor)
          invariant forall l :: j <= l < |ind[i]| ==> ind[i][l] == old(ind)[i][l]
          invariant forall k :: i < k < |ind| ==> ind[k] == old(ind)[k]
        {
          ind := ind[i := ind[i][j := MovePoint(ind[i][j], turnFactor, safeRange, speedFactor)]];
        }
      }
    }
  }
}
