/**
  The discrete controller inside every FIRE iteration: the tuning constants, the
  controller record (time step, mixing coefficient, the two power-sign counters
  and the loop index), and the rule that turns the sign of the dissipated power
  into a new record and an action on the velocity.
 */
module Control {
  import opened Vectors

  // Tuning constants of fire.py, exact reals in place of binary floats.
  const Alpha0: real := 0.1
  const NDelay: nat := 5
  const NMax: nat := 10000
  const FInc: real := 1.1
  const FDec: real := 0.5
  const FA: real := 0.99
  const NNegMax: nat := 2000

  /** FIRE1 is `optimize_fire`, FIRE2 is `optimize_fire2`. */
  datatype Variant = Fire1 | Fire2

  /** `dt`, `alpha`, `Npos`, `Nneg` and the loop index `i` of one run.
      FIRE1 has no `Nneg`; it stays 0 there. */
  datatype Ctrl = Ctrl(dt: real, alpha: real, npos: nat, nneg: nat, i: nat)

  /** What an iteration does to the velocity (and position) before the kick:
      Coast keeps V, Reset zeroes V (FIRE1), Backtrack moves x back by half a
      step and zeroes V (FIRE2), Stall leaves the loop (FIRE2). */
  datatype Action = Coast | Reset | Backtrack | Stall

  datatype Adaptation = Adaptation(ctrl: Ctrl, action: Action)

  /** The record before the first iteration, for initial time step `dt0`. */
  function Initial(dt0: real): Ctrl
  {
    Ctrl(dt0, Alpha0, 0, 0, 0)
  }

  /** The power-sign test of one iteration, for dissipated power `p`. */
  function Adapt(variant: Variant, c: Ctrl, p: real, dtmin: real, dtmax: real): (a: Adaptation)
    ensures a.ctrl.i == c.i
    ensures a.action == Coast <==> p > 0.0
  {
    if p > 0.0 then
      var npos := c.npos + 1;
      var nneg := if variant == Fire2 then 0 else c.nneg;
      if npos > NDelay then
        Adaptation(Ctrl(Min(c.dt * FInc, dtmax), c.alpha * FA, npos, nneg, c.i), Coast)
      else
        Adaptation(Ctrl(c.dt, c.alpha, npos, nneg, c.i), Coast)
    else
      match variant
      case Fire1 =>
        Adaptation(Ctrl(Max(c.dt * FDec, dtmin), Alpha0, 0, c.nneg, c.i), Reset)
      case Fire2 =>
        var nneg := c.nneg + 1;
        if nneg > NNegMax then
          Adaptation(Ctrl(c.dt, c.alpha, 0, nneg, c.i), Stall)
        else if c.i > NDelay then
          Adaptation(Ctrl(Max(c.dt * FDec, dtmin), Alpha0, 0, nneg, c.i), Backtrack)
        else
          Adaptation(Ctrl(c.dt, c.alpha, 0, nneg, c.i), Backtrack)
  }

  /** Counters at the top of iteration `c.i`: each counts at most the iterations
      run so far; FIRE1 never counts negative steps and FIRE2 has not yet seen
      more than NNegMax of them in a row. */
  predicate CountersOk(variant: Variant, c: Ctrl)
  {
    && c.npos <= c.i
    && match variant
       case Fire1 => c.nneg == 0
       case Fire2 => c.nneg <= c.i && c.nneg <= NNegMax
  }

  /** The schedule: `dt` within its clamps, `alpha` in (0, Alpha0], and `alpha`
      still at Alpha0 until more than NDelay positive steps in a row have passed. */
  predicate ScheduleOk(c: Ctrl, dtmin: real, dtmax: real)
  {
    && dtmin <= c.dt <= dtmax
    && 0.0 < c.alpha <= Alpha0
    && (c.npos <= NDelay ==> c.alpha == Alpha0)
  }

  /** The initial record meets both invariants when 0 <= dtmin <= dt0 <= dtmax. */
  lemma InitialOk(variant: Variant, dt0: real, dtmin: real, dtmax: real)
    requires dtmin <= dt0 <= dtmax
    ensures CountersOk(variant, Initial(dt0)) && ScheduleOk(Initial(dt0), dtmin, dtmax)
  {
  }

  /** One power-sign test keeps the schedule and, once the loop index moves on,
      the counters. */
  lemma AdaptPreserves(variant: Variant, c: Ctrl, p: real, dtmin: real, dtmax: real)
    requires 0.0 <= dtmin <= dtmax
    requires CountersOk(variant, c) && ScheduleOk(c, dtmin, dtmax)
    ensures var a := Adapt(variant, c, p, dtmin, dtmax);
      a.action != Stall ==>
        && ScheduleOk(a.ctrl, dtmin, dtmax)
        && CountersOk(variant, a.ctrl.(i := c.i + 1))
  {
  }

  /** Whenever the velocity is zeroed, alpha is back at Alpha0. FIRE2 leaves
      alpha alone in its first NDelay + 1 iterations, but it has not decayed yet
      then, since Npos cannot exceed the loop index. */
  lemma ResetRestoresAlpha(variant: Variant, c: Ctrl, p: real, dtmin: real, dtmax: real)
    requires CountersOk(variant, c) && ScheduleOk(c, dtmin, dtmax)
    ensures var a := Adapt(variant, c, p, dtmin, dtmax);
      a.action in {Reset, Backtrack} ==> a.ctrl.alpha == Alpha0
  {
  }

  /** Positive power: Npos counts up (FIRE2 also clears Nneg); dt grows by finc
      up to dtmax and alpha decays by fa only once Npos exceeds NDelay. */
  lemma AdaptPositive(variant: Variant, c: Ctrl, p: real, dtmin: real, dtmax: real)
    requires p > 0.0
    ensures var d := Adapt(variant, c, p, dtmin, dtmax).ctrl;
      && d.npos == c.npos + 1
      && d.nneg == (if variant == Fire2 then 0 else c.nneg)
      && (d.npos > NDelay ==> d.dt == Min(c.dt * FInc, dtmax) && d.alpha == c.alpha * FA)
      && (d.npos <= NDelay ==> d.dt == c.dt && d.alpha == c.alpha)
  {
  }

  /** FIRE1, non-positive power: Npos is cleared, dt halves down to dtmin,
      alpha is reset and the velocity is to be zeroed. */
  lemma AdaptFire1NonPositive(c: Ctrl, p: real, dtmin: real, dtmax: real)
    requires p <= 0.0
    ensures Adapt(Fire1, c, p, dtmin, dtmax)
         == Adaptation(c.(dt := Max(c.dt * FDec, dtmin), alpha := Alpha0, npos := 0), Reset)
  {
  }

  /** FIRE2, non-positive power: Nneg counts up and the loop stalls exactly when
      it passes NNegMax; otherwise Npos is cleared, and dt and alpha are cut and
      reset only past the first NDelay iterations. */
  lemma AdaptFire2NonPositive(c: Ctrl, p: real, dtmin: real, dtmax: real)
    requires p <= 0.0
    ensures var a := Adapt(Fire2, c, p, dtmin, dtmax);
      && (a.action == Stall <==> c.nneg + 1 > NNegMax)
      && (a.action != Stall ==> a.action == Backtrack)
      && a.ctrl.npos == 0 && a.ctrl.nneg == c.nneg + 1
      && (a.action == Backtrack && c.i > NDelay ==>
            a.ctrl.dt == Max(c.dt * FDec, dtmin) && a.ctrl.alpha == Alpha0)
      && (a.action == Backtrack && c.i <= NDelay ==>
            a.ctrl.dt == c.dt && a.ctrl.alpha == c.alpha)
  {
  }

  /** x * r^n, the value x after n growths by the factor r. */
  function Geometric(x: real, r: real, n: nat): real
  {
    if n == 0 then x else Geometric(x, r, n - 1) * r
  }

  lemma {:induction false} GeometricNonNegative(x: real, r: real, n: nat)
    requires 0.0 <= x && 0.0 <= r
    ensures 0.0 <= Geometric(x, r, n)
  {
    if n > 0 {
      GeometricNonNegative(x, r, n - 1);
    }
  }

  /** How many of the first k steps of a positive streak adapt dt and alpha. */
  function Excess(k: nat): nat
  {
    if k > NDelay then k - NDelay else 0
  }

  /** The record after the power-sign tests for the powers `ps`, in order. */
  function AdaptAll(variant: Variant, c: Ctrl, ps: seq<real>, dtmin: real, dtmax: real): Ctrl
    decreases |ps|
  {
    if ps == [] then c
    else Adapt(variant, AdaptAll(variant, c, ps[..|ps| - 1], dtmin, dtmax), ps[|ps| - 1], dtmin, dtmax).ctrl
  }

  /** Clamping before or after one more growth by finc gives the same dt. */
  lemma ClampedGrowth(lead: real, dtmax: real)
    requires 0.0 <= lead && 0.0 <= dtmax
    ensures Min(Min(lead, dtmax) * FInc, dtmax) == Min(lead * FInc, dtmax)
  {
  }

  /** The acceleration schedule: k positive steps in a row, started from a cleared
      Npos, leave Npos == k, alpha == alpha * fa^(k - NDelay) and
      dt == min(dt * finc^(k - NDelay), dtmax), where the exponent is 0 while
      k <= NDelay. */
  lemma {:induction false} PositiveStreak(variant: Variant, c: Ctrl, ps: seq<real>, dtmin: real, dtmax: real)
    requires c.npos == 0 && 0.0 <= c.dt <= dtmax
    requires forall k :: 0 <= k < |ps| ==> ps[k] > 0.0
    ensures var d := AdaptAll(variant, c, ps, dtmin, dtmax);
      && d.npos == |ps|
      && d.alpha == Geometric(c.alpha, FA, Excess(|ps|))
      && d.dt == Min(Geometric(c.dt, FInc, Excess(|ps|)), dtmax)
      && (variant == Fire2 && |ps| > 0 ==> d.nneg == 0)
      && d.i == c.i
  {
    if ps != [] {
      var k := |ps|;
      var prefix := ps[..k - 1];
      PositiveStreak(variant, c, prefix, dtmin, dtmax);
      var e := AdaptAll(variant, c, prefix, dtmin, dtmax);
      var m := Excess(k - 1);
      assert |prefix| == k - 1 && Excess(|prefix|) == m;
      if k > NDelay {
        assert Excess(k) == m + 1;
        GeometricNonNegative(c.dt, FInc, m);
        ClampedGrowth(Geometric(c.dt, FInc, m), dtmax);
      }
    }
  }
}
