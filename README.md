# FIRE minimiser — Dafny model

This project models the Fast Inertial Relaxation Engine of `fire.py`. It covers both
variants: `optimize_fire` (FIRE1) and `optimize_fire2` (FIRE2, which adds a counter
of non-positive power steps, a stall exit and a half-step backtrack of the position).
Each iteration contains a small discrete controller. The model captures it exactly,
over Dafny's unbounded `real`:

- the sign test on the dissipated power `P = F·V`;
- the `Npos`/`Nneg` counters;
- the `dt` schedule, clamped between `dtmin = 0.02·dt0` and `dtmax = 10·dt0`;
- the decay and reset of `alpha`;
- the velocity reset and, in FIRE2, the backtrack;
- the three ways the loop ends.

Three modules:

- `Vectors` (vectors.dfy) stands in for numpy's one-dimensional arrays. Vectors are
  `seq<real>` values, and every operation builds a new one, as numpy's
  non-in-place arithmetic does. It provides the dot product and `max(abs(F))`.
- `Control` (control.dfy) holds the tuning constants `alpha0, Ndelay, Nmax, finc,
  fdec, fa, Nnegmax`, the controller record `Ctrl(dt, alpha, npos, nneg, i)` and
  `Adapt`, the power-sign rule of one iteration. `Adapt` takes the variant as a
  parameter and returns the new record plus an action on the velocity (coast,
  reset, backtrack, stall). Its lemmas cover:
  - the invariants it keeps (`dt` within its clamps, `alpha` in `(0, alpha0]`,
    the counters bounded by the loop index);
  - the branch rules of both variants;
  - the closed form of the acceleration schedule over a streak of positive-power
    steps.
- `Fire` (fire.dfy) holds the loop state `State(x, V, F, ctrl)`, the shared
  velocity-Verlet integration `Leapfrog` (half kick, mixing toward the force,
  drift, new force, half kick) and the pure iteration `Step`. It also holds:
  - `Run`, the whole loop as a tail-recursive function;
  - `Trace`, the controller record at the top of every iteration;
  - the loop method `Minimise`, proved equal to `Run`;
  - the two entry points `OptimizeFire` and `OptimizeFire2`. They return `x`,
    `f(x)`, the last loop index `i` and an explicit outcome tag (`Converged`,
    `Exhausted` or `Stalled`).

`x0` is an `array<real>` that the methods only read: there is no `modifies`
clause. `x` starts as a copy of its contents, which is the `x0.copy()` of the
source. The gradient `df` and the objective `f` are function parameters with the
payload `params` already applied to them. `np.linalg.norm` is a function parameter
too. The loop assumes only two things of it: it is never negative, and it is zero
only on the zero vector. Those two facts are enough to show that the mixing
step's division by `‖F‖` is defined at every iteration once it is defined at the
first. Each later iteration starts from a force that failed the convergence
test, so that force has a component of size at least `atol > 0`.

## Model

| member | source | states |
|---|---|---|
| `Vectors.DotWithZero` | fire.py:36 | the dissipated power `(F*V).sum()` is 0 whenever V is the zero vector, whatever F is |
| `Vectors.MaxAbsIsMax` | fire.py:55 | `max(abs(F))` bounds the absolute value of every component and equals that of some component |
| `Control.Adapt` | fire.py:38-47 | the velocity is left alone exactly when P > 0; the loop index is never changed by the power test |
| `Control.InitialOk` | fire.py:25-28 | the starting record (dt0, alpha0, Npos = Nneg = 0) lies within the clamps and counter bounds |
| `Control.AdaptPreserves` | fire.py:79-91 | every power test that does not stall keeps dt in [dtmin, dtmax], alpha in (0, alpha0], alpha at alpha0 until Npos exceeds Ndelay, Npos and Nneg no larger than the iteration count, Nneg = 0 in FIRE1 and Nneg <= Nnegmax in FIRE2 |
| `Control.ResetRestoresAlpha` | fire.py:86-93 | whenever the velocity is zeroed (FIRE1 reset or FIRE2 backtrack), the new alpha is alpha0, including in FIRE2's early window where alpha is not reassigned |
| `Control.AdaptPositive` | fire.py:38-42 | P > 0: Npos goes up by one, FIRE2 clears Nneg, and dt becomes min(dt·finc, dtmax) and alpha becomes alpha·fa if and only if the new Npos exceeds Ndelay; otherwise both are unchanged |
| `Control.AdaptFire1NonPositive` | fire.py:43-47 | FIRE1 with P <= 0: Npos is 0, dt becomes max(dt·fdec, dtmin), alpha becomes alpha0, the velocity is reset, and nothing else in the record changes |
| `Control.AdaptFire2NonPositive` | fire.py:85-91 | FIRE2 with P <= 0: Nneg goes up by one and the loop stalls exactly when it exceeds Nnegmax; otherwise it backtracks with Npos = 0, cutting dt and resetting alpha only when i > Ndelay and leaving both unchanged when i <= Ndelay |
| `Control.PositiveStreak` | fire.py:79-84 | after k positive-power tests in a row from Npos = 0: Npos = k, alpha = alpha·fa^e, dt = min(dt·finc^e, dtmax) with e = max(0, k - Ndelay), and FIRE2's Nneg = 0 |
| `Fire.Start` | fire.py:30-32 | the initial state holds a copy of x0, the zero velocity and the force -df(x0), all of length len(x0), and the initial controller record (dt0, alpha0, Npos = Nneg = 0, i = 0) |
| `Fire.Mix` | fire.py:50 | the mixing step is defined whenever the force norm is non-zero and keeps the velocity's length n |
| `Fire.MixEndpoints` | fire.py:50 | the blend keeps V when alpha = 0 and gives the force direction scaled to the speed ‖V‖ (F·‖V‖/‖F‖) when alpha = 1 |
| `Fire.MixKeepsAlignedVelocity` | fire.py:96 | a velocity that already equals F·‖V‖/‖F‖ is a fixed point of the mixing step, for every alpha |
| `Fire.Leapfrog` | fire.py:49-53 | the integration step keeps x, V and F at length n and leaves F equal to -df at the new x |
| `Fire.Step` | fire.py:77-99 | one iteration stops exactly on the stall action; otherwise it keeps all three vectors at length n, recomputes F at the new x and carries the controller record that the power test produced |
| `Fire.PositivePowerCoasts` | fire.py:38-49 | with P > 0 the iteration integrates from the unchanged x and V |
| `Fire.Fire1OvershootResets` | fire.py:43-49 | FIRE1 with P <= 0: the half kick starts from the zero vector and x is not corrected |
| `Fire.Fire2OvershootBacktracks` | fire.py:85-95 | FIRE2 with P <= 0: the iteration stops iff Nneg + 1 > Nnegmax; otherwise it integrates from x - 0.5·dt·V (updated dt, pre-reset V) with the zero velocity |
| `Fire.FirstIteration` | fire.py:31-47 | since V starts at zero, the first iteration always takes the P <= 0 branch: FIRE1 halves dt; FIRE2 keeps dt and alpha (i = 0 is in its delay window), counts Nneg = 1, and its backtrack leaves x in place |
| `Fire.UnconvergedForceHasNorm` | fire.py:96 | a force that failed the convergence test has a non-zero norm, so the next mixing division is defined |
| `Fire.Run` | fire.py:75-107 | the returned index satisfies i < Nmax; the returned x has the start's length; Converged implies max abs(F) < atol at the returned x; Exhausted implies i = Nmax - 1 and no convergence there; Stalled happens only in FIRE2 |
| `Fire.RunStopsAtFirstExit` | fire.py:87-102 | the loop leaves at the first exit: an iteration that stalls returns its own top-of-iteration x and i, and the first iteration whose new force passes the test ends the run as Converged with that x and i |
| `Fire.Trace` | fire.py:34-58 | the controller records at the top of successive iterations, the k-th at loop index i0 + k, starting with the record the run starts from |
| `Fire.TraceMatchesRun` | fire.py:34-58 | the trace has exactly one record per iteration run and ends at the index that `Run` returns |
| `Fire.StepPreserves` | fire.py:79-99 | an iteration that does not stall hands the next iteration a record that meets both controller invariants |
| `Fire.TraceInvariant` | fire.py:25-47 | at every iteration of a run, dt is in [dtmin, dtmax], alpha is in (0, alpha0] and the counters are within their bounds, given dt0 >= 0 |
| `Fire.StallIsLate` | fire.py:87-88 | from a record whose counters are within their bounds, a FIRE2 run that ends by the stall exit returns an index i >= Nnegmax |
| `Fire.RunFromStart` | fire.py:64-93 | from any start point and any dt0 >= 0, at every iteration dt lies in [0.02·dt0, 10·dt0], alpha lies in (0, alpha0] and Npos never exceeds i; a FIRE2 stall returns i >= Nnegmax |
| `Fire.ConvergedComponents` | fire.py:55-56 | `max(abs(F)) < atol` means that every component of the gradient is below atol in absolute value |
| `Fire.Minimise` | fire.py:34-61 | the loop returns exactly the outcome, x and i of `Run` from the initial state, and f(x); for dt0 >= 0 its own controller record meets the dt, alpha and counter bounds at every iteration (loop invariant) |
| `Fire.OptimizeFire` | fire.py:23-61 | FIRE1 from x0: result as `Run`; len(x) = len(x0); i < Nmax; never stalled; converged implies every abs(df(x)_j) < atol; exhausted implies i = Nmax - 1 |
| `Fire.OptimizeFire2` | fire.py:63-107 | FIRE2 from x0: result as `Run`; len(x) = len(x0); i < Nmax; a stall returns i >= Nnegmax; converged implies every abs(df(x)_j) < atol; exhausted implies i = Nmax - 1 |

## Left out

- Progress logging (the `logoutput` flag and its `print`) is an I/O side effect and is not modelled. So is the demonstration driver with the Rosenbrock and Eggholder objectives.
- Floating point is not modelled. Arithmetic is exact over `real`, and the constants are the decimal values written in the source (0.1, 1.1, 0.5, 0.99, 0.02). No claim is made about convergence toward a minimum or about descent of the objective.
- The internals of `np.linalg.norm` (a square root) are not modelled. It is a function parameter, assumed non-negative and zero only on the zero vector.
- The division by zero in the mixing step when the force is exactly zero is excluded by a precondition on the initial force, `norm(-df(x0)) != 0`. Every later force is non-zero, as shown above. The source turns this case into NaN rather than an error.
- The objective `f` is an uninterpreted function parameter. It is applied once, to the returned point. `params` is not a separate argument: `f` and `df` are taken with it already applied.
- An empty `x0` is excluded by a precondition. In the source, `max(abs(F))` raises on an empty array.
- `atol > 0` is required. The source has no such check, but the loop relies on it to know that unconverged forces are non-zero.
- The controller bounds over a whole run (`dt` in its clamps, `alpha` in `(0, alpha0]`, and the counter bounds) are proved only for `dt0 >= 0`. The source does not check the sign of `dt0`, and for a negative `dt0` it has `dtmin > dtmax`. The `alpha` and counter bounds are stated together with the `dt` clamps, so they fall under the same requirement.
- The tagged outcome is an addition. The source returns only `[x, f(x), i]` and leaves "converged", "exhausted" and "stalled" to be told apart from `i`.
- Fire.Mix: its own contract states only that the length is kept; what the blend does is stated by `MixEndpoints` and `MixKeepsAlignedVelocity`.
- `del V, F` frees memory. It has no counterpart.
