/**
  The two FIRE minimisers of fire.py. Both run the same iteration: test the sign of
  the dissipated power, adapt the controller, then do a velocity-Verlet step with
  the velocity mixed toward the force. They differ only in what happens when the
  power is not positive. `Step` is one iteration, `Run` is the whole loop as a
  function, and `Minimise` is the loop itself, proved equal to `Run`.
 */
module Fire {
  import opened Vectors
  import opened Control

  /** What one run is given besides the start point: the gradient `df` (with the
      payload `params` already applied), the vector norm, the tolerance `atol` and
      the initial time step `dt0`. */
  datatype Env = Env(df: Vector -> Vector, norm: Vector -> real, atol: real, dt0: real)
  {
    function DtMax(): real { 10.0 * dt0 }
    function DtMin(): real { 0.02 * dt0 }
  }

  /** The gradient returns a vector as long as its argument. */
  ghost predicate PreservesLength(df: Vector -> Vector)
  {
    forall w :: |df(w)| == |w|
  }

  /** What the loop relies on from `np.linalg.norm`: it is never negative and
      vanishes only on the zero vector. */
  ghost predicate IsNormLike(norm: Vector -> real)
  {
    forall w :: 0.0 <= norm(w) && (norm(w) == 0.0 ==> IsZero(w))
  }

  ghost predicate EnvOk(env: Env)
  {
    PreservesLength(env.df) && IsNormLike(env.norm) && env.atol > 0.0
  }

  /** The loop's state at the top of an iteration: position x, velocity V,
      force F and the controller. */
  datatype State = State(x: Vector, v: Vector, f: Vector, ctrl: Ctrl)

  predicate Shaped(s: State, n: nat)
  {
    |s.x| == n && |s.v| == n && |s.f| == n
  }

  /** The state before the first iteration: a copy of x0, zero velocity and the
      force at x0. */
  function Start(env: Env, x0: Vector): (s: State)
    requires PreservesLength(env.df)
    ensures Shaped(s, |x0|) && s.x == x0 && IsZero(s.v) && s.f == Neg(env.df(x0))
    ensures s.ctrl == Initial(env.dt0)
  {
    State(x0, Zeros(|x0|), Neg(env.df(x0)), Initial(env.dt0))
  }

  /** The velocity turned toward the force at unchanged weight:
      (1 - alpha) V + alpha F |V| / |F|. */
  function Mix(v: Vector, f: Vector, alpha: real, norm: Vector -> real): (r: Vector)
    requires |v| == |f| && norm(f) != 0.0
    ensures |r| == |v|
  {
    Add(Scale(1.0 - alpha, v), Scale(alpha * norm(v) / norm(f), f))
  }

  /** The two ends of the blend: alpha = 0 keeps V, alpha = 1 replaces it by the
      force direction scaled to the speed |V|. */
  lemma MixEndpoints(v: Vector, f: Vector, norm: Vector -> real)
    requires |v| == |f| && norm(f) != 0.0
    ensures Mix(v, f, 0.0, norm) == v
    ensures Mix(v, f, 1.0, norm) == Scale(norm(v) / norm(f), f)
  {
  }

  /** A velocity that already points along the force at its own speed is left
      unchanged by mixing, whatever alpha is. */
  lemma MixKeepsAlignedVelocity(v: Vector, f: Vector, alpha: real, norm: Vector -> real)
    requires |v| == |f| && norm(f) != 0.0
    requires v == Scale(norm(v) / norm(f), f)
    ensures Mix(v, f, alpha, norm) == v
  {
    var k := norm(v) / norm(f);
    var r := Mix(v, f, alpha, norm);
    forall j | 0 <= j < |v|
      ensures r[j] == v[j]
    {
      assert v[j] == k * f[j];
      assert r[j] == (1.0 - alpha) * v[j] + (alpha * norm(v) / norm(f)) * f[j];
      assert (alpha * norm(v) / norm(f)) * f[j] == alpha * (k * f[j]);
    }
  }

  /** The integration shared by both variants, with the time step and mixing
      coefficient of `c`: half kick, mixing, drift, new force, half kick. */
  function Leapfrog(env: Env, x: Vector, v: Vector, f: Vector, c: Ctrl): (s: State)
    requires PreservesLength(env.df)
    requires |x| == |v| == |f| && env.norm(f) != 0.0
    ensures Shaped(s, |x|) && s.ctrl == c
    ensures s.f == Neg(env.df(s.x))
  {
    var v1 := Add(v, Scale(0.5 * c.dt, f));
    var v2 := Mix(v1, f, c.alpha, env.norm);
    var x1 := Add(x, Scale(c.dt, v2));
    var f1 := Neg(env.df(x1));
    State(x1, Add(v2, Scale(0.5 * c.dt, f1)), f1, c)
  }

  datatype StepResult = Moved(next: State) | Stopped

  /** One iteration of the loop body, up to (not including) the convergence test. */
  function Step(variant: Variant, env: Env, s: State): (r: StepResult)
    requires PreservesLength(env.df)
    requires Shaped(s, |s.x|) && env.norm(s.f) != 0.0
    ensures r.Stopped? <==> Adapt(variant, s.ctrl, Dot(s.f, s.v), env.DtMin(), env.DtMax()).action == Stall
    ensures r.Moved? ==> Shaped(r.next, |s.x|) && r.next.f == Neg(env.df(r.next.x))
    ensures r.Moved? ==> r.next.ctrl == Adapt(variant, s.ctrl, Dot(s.f, s.v), env.DtMin(), env.DtMax()).ctrl
  {
    var a := Adapt(variant, s.ctrl, Dot(s.f, s.v), env.DtMin(), env.DtMax());
    match a.action
    case Stall => Stopped
    case Coast => Moved(Leapfrog(env, s.x, s.v, s.f, a.ctrl))
    case Reset => Moved(Leapfrog(env, s.x, Zeros(|s.x|), s.f, a.ctrl))
    case Backtrack =>
      Moved(Leapfrog(env, Sub(s.x, Scale(0.5 * a.ctrl.dt, s.v)), Zeros(|s.x|), s.f, a.ctrl))
  }

  /** Positive power, either variant: V is kept and the step integrates from x. */
  lemma PositivePowerCoasts(variant: Variant, env: Env, s: State)
    requires PreservesLength(env.df)
    requires Shaped(s, |s.x|) && env.norm(s.f) != 0.0
    requires Dot(s.f, s.v) > 0.0
    ensures var r := Step(variant, env, s);
      r.Moved? && r.next == Leapfrog(env, s.x, s.v, s.f, r.next.ctrl)
  {
  }

  /** FIRE1, non-positive power: V is zeroed before the half kick and x is not
      corrected. */
  lemma Fire1OvershootResets(env: Env, s: State)
    requires PreservesLength(env.df)
    requires Shaped(s, |s.x|) && env.norm(s.f) != 0.0
    requires Dot(s.f, s.v) <= 0.0
    ensures var r := Step(Fire1, env, s);
      r.Moved? && r.next == Leapfrog(env, s.x, Zeros(|s.x|), s.f, r.next.ctrl)
  {
  }

  /** FIRE2, non-positive power: either the loop stops with nothing moved, or x
      moves back by half a step of the pre-reset V at the already-updated dt and
      the step integrates from zero velocity. */
  lemma Fire2OvershootBacktracks(env: Env, s: State)
    requires PreservesLength(env.df)
    requires Shaped(s, |s.x|) && env.norm(s.f) != 0.0
    requires Dot(s.f, s.v) <= 0.0
    ensures var r := Step(Fire2, env, s);
      && (r.Stopped? <==> s.ctrl.nneg + 1 > NNegMax)
      && (r.Moved? ==>
            r.next == Leapfrog(env, Sub(s.x, Scale(0.5 * r.next.ctrl.dt, s.v)), Zeros(|s.x|), s.f, r.next.ctrl))
  {
  }

  /** The first iteration always sees zero power, because V starts at zero: FIRE1
      halves dt and resets, FIRE2 keeps dt (i = 0 is inside the delay window) and
      its backtrack leaves x where it is. */
  lemma FirstIteration(variant: Variant, env: Env, x0: Vector)
    requires PreservesLength(env.df) && 0.0 <= env.dt0
    requires env.norm(Neg(env.df(x0))) != 0.0
    ensures var s := Start(env, x0);
      var c := match variant
        case Fire1 => Ctrl(FDec * env.dt0, Alpha0, 0, 0, 0)
        case Fire2 => Ctrl(env.dt0, Alpha0, 0, 1, 0);
      Step(variant, env, s) == Moved(Leapfrog(env, x0, Zeros(|x0|), s.f, c))
  {
    var s := Start(env, x0);
    DotWithZero(s.f, s.v);
    assert s.v == Zeros(|x0|);
    if variant == Fire2 {
      var a := Adapt(variant, s.ctrl, Dot(s.f, s.v), env.DtMin(), env.DtMax());
      SubScaledZero(x0, 0.5 * a.ctrl.dt, s.v);
    }
  }

  /** How the loop ended. */
  datatype Outcome = Converged | Exhausted | Stalled

  /** What the loop hands back: how it ended, the final x and the index i of the
      last iteration. */
  datatype RunResult = RunResult(outcome: Outcome, x: Vector, i: nat)

  /** The requirements for running the loop from `s`. */
  ghost predicate Runnable(env: Env, s: State)
  {
    && EnvOk(env)
    && |s.x| > 0 && Shaped(s, |s.x|)
    && env.norm(s.f) != 0.0
    && s.ctrl.i < NMax
  }

  /** A force that fails the convergence test is not zero, so its norm is not
      zero either and the next mixing step is defined. */
  lemma UnconvergedForceHasNorm(env: Env, f: Vector)
    requires EnvOk(env) && |f| > 0 && MaxAbs(f) >= env.atol
    ensures env.norm(f) != 0.0
  {
    NonZeroWhenMaxAbsPositive(f);
  }

  /** The state the loop moves on to after an iteration that did not exit. */
  function Advance(t: State, i: nat): State
  {
    t.(ctrl := t.ctrl.(i := i + 1))
  }

  /** The loop from iteration s.ctrl.i on. It ends by the convergence test, by
      reaching the last index NMax - 1, or (FIRE2 only) by the stall exit; the
      returned x is always as long as the start point. */
  function Run(variant: Variant, env: Env, s: State): (r: RunResult)
    requires Runnable(env, s)
    ensures s.ctrl.i <= r.i < NMax
    ensures |r.x| == |s.x|
    ensures r.outcome == Converged ==> MaxAbs(Neg(env.df(r.x))) < env.atol
    ensures r.outcome == Exhausted ==> r.i == NMax - 1 && MaxAbs(Neg(env.df(r.x))) >= env.atol
    ensures r.outcome == Stalled ==> variant == Fire2
    decreases NMax - s.ctrl.i
  {
    match Step(variant, env, s)
    case Stopped => RunResult(Stalled, s.x, s.ctrl.i)
    case Moved(t) =>
      if MaxAbs(t.f) < env.atol then RunResult(Converged, t.x, s.ctrl.i)
      else if s.ctrl.i + 1 == NMax then RunResult(Exhausted, t.x, s.ctrl.i)
      else
        UnconvergedForceHasNorm(env, t.f);
        Run(variant, env, Advance(t, s.ctrl.i))
  }

  /** The loop leaves at the first exit it meets: an iteration that stalls hands
      back its own top-of-iteration x and index, untouched by the backtrack, and
      the first iteration whose new force passes the test ends the run there. */
  lemma RunStopsAtFirstExit(variant: Variant, env: Env, s: State)
    requires Runnable(env, s)
    ensures var r, st := Run(variant, env, s), Step(variant, env, s);
      && (st.Stopped? ==> r == RunResult(Stalled, s.x, s.ctrl.i))
      && (st.Moved? && MaxAbs(st.next.f) < env.atol ==> r == RunResult(Converged, st.next.x, s.ctrl.i))
  {
  }

  /** The controller at the top of every iteration the loop runs from `s`. */
  function Trace(variant: Variant, env: Env, s: State): (cs: seq<Ctrl>)
    requires Runnable(env, s)
    ensures forall k :: 0 <= k < |cs| ==> cs[k].i == s.ctrl.i + k
    ensures |cs| > 0 && cs[0] == s.ctrl
    decreases NMax - s.ctrl.i
  {
    match Step(variant, env, s)
    case Stopped => [s.ctrl]
    case Moved(t) =>
      if MaxAbs(t.f) < env.atol || s.ctrl.i + 1 == NMax then [s.ctrl]
      else
        UnconvergedForceHasNorm(env, t.f);
        [s.ctrl] + Trace(variant, env, Advance(t, s.ctrl.i))
  }

  /** The trace has one record per iteration, up to the index Run returns. */
  lemma {:induction false} TraceMatchesRun(variant: Variant, env: Env, s: State)
    requires Runnable(env, s)
    ensures var cs := Trace(variant, env, s);
      |cs| == Run(variant, env, s).i - s.ctrl.i + 1 && cs[|cs| - 1].i == Run(variant, env, s).i
    decreases NMax - s.ctrl.i
  {
    match Step(variant, env, s)
    case Stopped =>
    case Moved(t) =>
      if MaxAbs(t.f) >= env.atol && s.ctrl.i + 1 < NMax {
        UnconvergedForceHasNorm(env, t.f);
        TraceMatchesRun(variant, env, Advance(t, s.ctrl.i));
      }
  }

  /** Both controller invariants, with the clamps of this run. */
  predicate ControllerOk(variant: Variant, env: Env, c: Ctrl)
  {
    CountersOk(variant, c) && ScheduleOk(c, env.DtMin(), env.DtMax())
  }

  /** An iteration that does not exit hands the next one a controller that meets
      the invariants again. */
  lemma StepPreserves(variant: Variant, env: Env, s: State)
    requires Runnable(env, s) && 0.0 <= env.dt0
    requires ControllerOk(variant, env, s.ctrl)
    ensures var r := Step(variant, env, s);
      r.Moved? ==> ControllerOk(variant, env, Advance(r.next, s.ctrl.i).ctrl)
  {
    AdaptPreserves(variant, s.ctrl, Dot(s.f, s.v), env.DtMin(), env.DtMax());
  }

  predicate AllOk(variant: Variant, env: Env, cs: seq<Ctrl>)
  {
    forall k :: 0 <= k < |cs| ==> ControllerOk(variant, env, cs[k])
  }

  lemma AllOkCons(variant: Variant, env: Env, c: Ctrl, rest: seq<Ctrl>)
    requires ControllerOk(variant, env, c) && AllOk(variant, env, rest)
    ensures AllOk(variant, env, [c] + rest)
  {
    var cs := [c] + rest;
    forall k | 1 <= k < |cs|
      ensures ControllerOk(variant, env, cs[k])
    {
      assert cs[k] == rest[k - 1];
    }
  }

  /** At every iteration the time step stays within [dtmin, dtmax], alpha within
      (0, Alpha0], and the counters within their bounds, provided that dt0 is not
      negative and the run starts from a controller that meets them. */
  lemma {:induction false} TraceInvariant(variant: Variant, env: Env, s: State)
    requires Runnable(env, s) && 0.0 <= env.dt0
    requires ControllerOk(variant, env, s.ctrl)
    decreases NMax - s.ctrl.i
    ensures AllOk(variant, env, Trace(variant, env, s))
  {
    var r := Step(variant, env, s);
    if r.Moved? && MaxAbs(r.next.f) >= env.atol && s.ctrl.i + 1 < NMax {
      UnconvergedForceHasNorm(env, r.next.f);
      StepPreserves(variant, env, s);
      var s' := Advance(r.next, s.ctrl.i);
      TraceInvariant(variant, env, s');
      var cs, rest := Trace(variant, env, s), Trace(variant, env, s');
      assert cs == [s.ctrl] + rest;
      AllOkCons(variant, env, s.ctrl, rest);
    }
  }

  /** FIRE2 can only stall once NNegMax + 1 non-positive steps have passed in a
      row, so never before iteration NNegMax. */
  lemma {:induction false} StallIsLate(env: Env, s: State)
    requires Runnable(env, s) && CountersOk(Fire2, s.ctrl)
    ensures Run(Fire2, env, s).outcome == Stalled ==> Run(Fire2, env, s).i >= NNegMax
    decreases NMax - s.ctrl.i
  {
    match Step(Fire2, env, s)
    case Stopped =>
    case Moved(t) =>
      if MaxAbs(t.f) >= env.atol && s.ctrl.i + 1 < NMax {
        UnconvergedForceHasNorm(env, t.f);
        StallIsLate(env, Advance(t, s.ctrl.i));
      }
  }

  /** The whole run from the start point x0: the controller stays within its
      bounds at every iteration, and FIRE2 never stalls before iteration NNegMax. */
  lemma RunFromStart(variant: Variant, env: Env, x0: Vector)
    requires EnvOk(env) && |x0| > 0 && 0.0 <= env.dt0
    requires env.norm(Neg(env.df(x0))) != 0.0
    ensures var s := Start(env, x0);
      var cs := Trace(variant, env, s);
      && (forall k :: 0 <= k < |cs| ==>
            && env.DtMin() <= cs[k].dt <= env.DtMax()
            && 0.0 < cs[k].alpha <= Alpha0
            && cs[k].npos <= cs[k].i)
      && (Run(variant, env, s).outcome == Stalled ==> Run(variant, env, s).i >= NNegMax)
  {
    var s := Start(env, x0);
    InitialOk(variant, env.dt0, env.DtMin(), env.DtMax());
    TraceInvariant(variant, env, s);
    if variant == Fire2 {
      StallIsLate(env, s);
    }
  }

  /** The loop of `optimize_fire` (variant Fire1) and `optimize_fire2` (Fire2).
      x0 is only read; x starts as a copy of it. */
  method Minimise(variant: Variant, x0: array<real>, f: Vector -> real, df: Vector -> Vector,
                  norm: Vector -> real, atol: real, dt: real)
    returns (x: Vector, fx: real, i: nat, outcome: Outcome)
    requires x0.Length > 0 && atol > 0.0
    requires PreservesLength(df) && IsNormLike(norm)
    requires norm(Neg(df(x0[..]))) != 0.0
    ensures RunResult(outcome, x, i) == Run(variant, Env(df, norm, atol, dt), Start(Env(df, norm, atol, dt), x0[..]))
    ensures fx == f(x)
  {
    var env := Env(df, norm, atol, dt);
    x := x0[..];
    var v := Zeros(|x|);
    var force := Neg(df(x));
    var ctrl := Initial(dt);
    if 0.0 <= dt {
      InitialOk(variant, dt, env.DtMin(), env.DtMax());
    }
    ghost var goal := Run(variant, env, Start(env, x0[..]));
    while true
      invariant Runnable(env, State(x, v, force, ctrl))
      invariant Run(variant, env, State(x, v, force, ctrl)) == goal
      invariant 0.0 <= dt ==> ControllerOk(variant, env, ctrl)
      decreases NMax - ctrl.i
    {
      var s := State(x, v, force, ctrl);
      var r := Step(variant, env, s);
      if r.Stopped? {
        i, outcome := ctrl.i, Stalled;
        break;
      }
      x, v, force := r.next.x, r.next.v, r.next.f;
      if MaxAbs(force) < atol {
        i, outcome := ctrl.i, Converged;
        break;
      }
      if ctrl.i + 1 == NMax {
        i, outcome := ctrl.i, Exhausted;
        break;
      }
      UnconvergedForceHasNorm(env, force);
      if 0.0 <= dt {
        StepPreserves(variant, env, s);
      }
      ctrl := r.next.ctrl.(i := ctrl.i + 1);
      assert State(x, v, force, ctrl) == Advance(r.next, s.ctrl.i);
    }
    fx := f(x);
  }

  /** `optimize_fire`: FIRE1 from x0. The result never comes from the stall exit;
      a converged result has every force component below atol; an exhausted one
      ran to the last index. */
  method OptimizeFire(x0: array<real>, f: Vector -> real, df: Vector -> Vector,
                      norm: Vector -> real, atol: real := 0.0001, dt: real := 0.002)
    returns (x: Vector, fx: real, i: nat, outcome: Outcome)
    requires x0.Length > 0 && atol > 0.0
    requires PreservesLength(df) && IsNormLike(norm)
    requires norm(Neg(df(x0[..]))) != 0.0
    ensures RunResult(outcome, x, i) == Run(Fire1, Env(df, norm, atol, dt), Start(Env(df, norm, atol, dt), x0[..]))
    ensures fx == f(x)
    ensures |x| == x0.Length && i < NMax
    ensures outcome != Stalled
    ensures outcome == Converged ==> forall j :: 0 <= j < |x| ==> Abs(df(x)[j]) < atol
    ensures outcome == Exhausted ==> i == NMax - 1
  {
    x, fx, i, outcome := Minimise(Fire1, x0, f, df, norm, atol, dt);
    ConvergedComponents(df, x, atol, outcome == Converged);
  }

  /** `optimize_fire2`: FIRE2 from x0. As FIRE1, except that the loop may also
      end by the stall exit, and then not before iteration NNegMax. */
  method OptimizeFire2(x0: array<real>, f: Vector -> real, df: Vector -> Vector,
                       norm: Vector -> real, atol: real := 0.0001, dt: real := 0.002)
    returns (x: Vector, fx: real, i: nat, outcome: Outcome)
    requires x0.Length > 0 && atol > 0.0
    requires PreservesLength(df) && IsNormLike(norm)
    requires norm(Neg(df(x0[..]))) != 0.0
    ensures RunResult(outcome, x, i) == Run(Fire2, Env(df, norm, atol, dt), Start(Env(df, norm, atol, dt), x0[..]))
    ensures fx == f(x)
    ensures |x| == x0.Length && i < NMax
    ensures outcome == Stalled ==> i >= NNegMax
    ensures outcome == Converged ==> forall j :: 0 <= j < |x| ==> Abs(df(x)[j]) < atol
    ensures outcome == Exhausted ==> i == NMax - 1
  {
    x, fx, i, outcome := Minimise(Fire2, x0, f, df, norm, atol, dt);
    var env := Env(df, norm, atol, dt);
    StallIsLate(env, Start(env, x0[..]));
    ConvergedComponents(df, x, atol, outcome == Converged);
  }

  /** Below-tolerance largest force component means every component is below it. */
  lemma ConvergedComponents(df: Vector -> Vector, x: Vector, atol: real, converged: bool)
    requires PreservesLength(df) && |x| > 0
    requires converged ==> MaxAbs(Neg(df(x))) < atol
    ensures converged ==> forall j :: 0 <= j < |x| ==> Abs(df(x)[j]) < atol
  {
    if converged {
      MaxAbsIsMax(Neg(df(x)));
      forall j | 0 <= j < |x|
        ensures Abs(df(x)[j]) < atol
      {
        assert Abs(Neg(df(x))[j]) <= MaxAbs(Neg(df(x)));
      }
    }
  }
}
