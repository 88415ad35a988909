/**
 * The per-frame bend of the turning page (main.js:117-124): every bone's
 * rotation about the vertical axis is eased toward a target angle that
 * depends on the bone's place in the chain and on the turn progress.
 */
module BendSolver {
  import opened PageConfig
  import opened JointChain

  /**
   * `Math.sin`, `Math.cos` and `Math.PI`, supplied by the host. The model
   * assumes nothing about their values: the target angle is uninterpreted
   * beyond the way it combines them.
   */
  datatype Trig = Trig(sin: real -> real, cos: real -> real, pi: real)

  /**
   * The target angle `ang` of bone `j` of an `n`-bone chain at progress `t`:
   * an inside curl on bones 0..7, an outside curl on bones 8 and above, and a
   * turn bump across the chain scaled by the progress, all relative to a
   * quarter turn.
   */
  function BendTarget(trig: Trig, j: nat, n: nat, t: real): real
    requires j < n
  {
    var targ := -trig.pi / 2.0;
    var inside := if j < 8 then trig.sin(j as real * 0.2 + 0.25) else 0.0;
    var outside := if j >= 8 then trig.cos(j as real * 0.3 + 0.09) else 0.0;
    var turn := TurnBump(trig, j, n) * t;
    InsideCurve * inside * targ - OutsideCurve * outside * targ + TurnStrength * turn * targ
  }

  /** `Math.sin(j / flipBones.length * Math.PI)`: a bump over the chain, zero at the spine. */
  function TurnBump(trig: Trig, j: nat, n: nat): real
    requires j < n
  {
    trig.sin(j as real / n as real * trig.pi)
  }

  /**
   * The target moves with the progress only through the turn term, and
   * linearly: at progress 0 that term contributes nothing.
   */
  lemma TargetAffineInProgress(trig: Trig, j: nat, n: nat, t: real)
    requires j < n
    ensures BendTarget(trig, j, n, t)
      == BendTarget(trig, j, n, 0.0) + t * (TurnStrength * TurnBump(trig, j, n) * (-trig.pi / 2.0))
  {
    var s := TurnBump(trig, j, n);
    var targ := -trig.pi / 2.0;
    var inside := if j < 8 then trig.sin(j as real * 0.2 + 0.25) else 0.0;
    var outside := if j >= 8 then trig.cos(j as real * 0.3 + 0.09) else 0.0;
    var curl := InsideCurve * inside * targ - OutsideCurve * outside * targ;
    assert BendTarget(trig, j, n, t) == curl + TurnStrength * (s * t) * targ;
    assert BendTarget(trig, j, n, 0.0) == curl + TurnStrength * (s * 0.0) * targ;
    assert TurnStrength * (s * 0.0) * targ == 0.0;
    assert TurnStrength * (s * t) * targ == t * (TurnStrength * s * targ);
  }

  /**
   * One smoothing step `rotation += (ang - rotation) * easingFactor`: the gap
   * to the target exactly halves, the rotation moves toward the target without
   * passing it, and a bone already at its target stays there.
   */
  function Ease(rot: real, ang: real): (r: real)
    ensures ang - r == (ang - rot) / 2.0
    ensures rot <= ang ==> rot <= r <= ang
    ensures ang <= rot ==> ang <= r <= rot
    ensures r == rot <==> rot == ang
    ensures rot == 0.0 ==> r == ang / 2.0
  {
    rot + (ang - rot) * EasingFactor
  }

  /** `k` smoothing steps toward a fixed target. */
  function EaseN(rot: real, ang: real, k: nat): real {
    if k == 0 then rot else Ease(EaseN(rot, ang, k - 1), ang)
  }

  function Pow2(k: nat): (r: real)
    ensures r >= 1.0
  {
    if k == 0 then 1.0 else 2.0 * Pow2(k - 1)
  }

  /**
   * Held at a fixed target, the gap after `k` steps is the initial gap divided
   * by 2^k. This is a property of the smoothing step alone: during a turn the
   * target itself moves with the progress from frame to frame (`BendTarget`),
   * so it does not describe the animation's bones over several frames.
   */
  lemma {:induction false} EaseNGap(rot: real, ang: real, k: nat)
    ensures (ang - EaseN(rot, ang, k)) * Pow2(k) == ang - rot
  {
    if k > 0 {
      EaseNGap(rot, ang, k - 1);
      var before, after := ang - EaseN(rot, ang, k - 1), ang - EaseN(rot, ang, k);
      var p := Pow2(k - 1);
      assert after == before / 2.0;
      assert Pow2(k) == 2.0 * p;
      calc {
        after * Pow2(k);
        (before / 2.0) * (2.0 * p);
        before * p;
      }
    }
  }

  /** One frame's update of a whole chain: every bone eased toward its own target, shape untouched. */
  function Bent(trig: Trig, bones: seq<Bone>, t: real): (r: seq<Bone>)
    ensures |r| == |bones|
    ensures forall j :: 0 <= j < |bones| ==>
      r[j].parent == bones[j].parent && r[j].offsetX == bones[j].offsetX
    ensures forall j :: 0 <= j < |bones| ==>
      BendTarget(trig, j, |bones|, t) - r[j].rotY == (BendTarget(trig, j, |bones|, t) - bones[j].rotY) / 2.0
    ensures IsLinearChain(bones) ==> IsLinearChain(r)
  {
    seq(|bones|, j requires 0 <= j < |bones| => bones[j].(rotY := Ease(bones[j].rotY, BendTarget(trig, j, |bones|, t))))
  }

  /**
   * The first frame of a turn, from an unrotated chain, leaves every bone at
   * half its target; a chain already at its targets is left as it is.
   */
  lemma BentFromRestAndAtTarget(trig: Trig, bones: seq<Bone>, t: real)
    ensures (forall j :: 0 <= j < |bones| ==> bones[j].rotY == 0.0) ==>
      forall j :: 0 <= j < |bones| ==> Bent(trig, bones, t)[j].rotY == BendTarget(trig, j, |bones|, t) / 2.0
    ensures (forall j :: 0 <= j < |bones| ==> bones[j].rotY == BendTarget(trig, j, |bones|, t)) ==>
      Bent(trig, bones, t) == bones
  {
    if forall j :: 0 <= j < |bones| ==> bones[j].rotY == BendTarget(trig, j, |bones|, t) {
      var r := Bent(trig, bones, t);
      assert forall j :: 0 <= j < |bones| ==> r[j] == bones[j];
    }
  }
}
