/**
  Exact real vectors standing in for the one-dimensional numpy arrays that the
  FIRE loops build and rebind on every step: element-wise sums and scalings, the
  dot product behind the dissipated power, and the largest absolute component
  used as the convergence error.
 */
module Vectors {

  type Vector = seq<real>

  function Abs(r: real): real
  {
    if r < 0.0 then -r else r
  }

  function Min(a: real, b: real): real
  {
    if a <= b then a else b
  }

  function Max(a: real, b: real): real
  {
    if a >= b then a else b
  }

  /** Every component is zero. */
  predicate IsZero(v: Vector)
  {
    forall j :: 0 <= j < |v| ==> v[j] == 0.0
  }

  /** `np.zeros(n)`. */
  function Zeros(n: nat): (z: Vector)
    ensures |z| == n && IsZero(z)
  {
    seq(n, _ => 0.0)
  }

  function Add(a: Vector, b: Vector): (r: Vector)
    requires |a| == |b|
    ensures |r| == |a|
  {
    seq(|a|, j requires 0 <= j < |a| => a[j] + b[j])
  }

  function Sub(a: Vector, b: Vector): (r: Vector)
    requires |a| == |b|
    ensures |r| == |a|
  {
    seq(|a|, j requires 0 <= j < |a| => a[j] - b[j])
  }

  function Scale(c: real, a: Vector): (r: Vector)
    ensures |r| == |a|
  {
    seq(|a|, j requires 0 <= j < |a| => c * a[j])
  }

  function Neg(a: Vector): (r: Vector)
    ensures |r| == |a|
    ensures forall j :: 0 <= j < |a| ==> r[j] == -a[j]
  {
    seq(|a|, j requires 0 <= j < |a| => -a[j])
  }

  /** Subtracting a multiple of the zero vector changes nothing. */
  lemma SubScaledZero(a: Vector, c: real, z: Vector)
    requires |a| == |z| && IsZero(z)
    ensures Sub(a, Scale(c, z)) == a
  {
    var r := Sub(a, Scale(c, z));
    forall j | 0 <= j < |a|
      ensures r[j] == a[j]
    {
      assert Scale(c, z)[j] == c * z[j];
    }
  }

  /** `(a*b).sum()`: the sum of the component-wise products. */
  function Dot(a: Vector, b: Vector): real
    requires |a| == |b|
  {
    if |a| == 0 then 0.0 else a[0] * b[0] + Dot(a[1..], b[1..])
  }

  /** The dot product with the zero vector vanishes, whatever the other vector. */
  lemma {:induction false} DotWithZero(a: Vector, z: Vector)
    requires |a| == |z| && IsZero(z)
    ensures Dot(a, z) == 0.0
  {
    if |a| > 0 {
      DotWithZero(a[1..], z[1..]);
    }
  }

  /** `max(abs(a))`: the largest absolute value of a component. Python's `max`
      raises on an empty sequence, hence the precondition. */
  function MaxAbs(a: Vector): real
    requires |a| > 0
  {
    if |a| == 1 then Abs(a[0]) else Max(Abs(a[0]), MaxAbs(a[1..]))
  }

  /** MaxAbs bounds the absolute value of every component and is attained by one. */
  lemma {:induction false} MaxAbsIsMax(a: Vector)
    requires |a| > 0
    ensures forall j :: 0 <= j < |a| ==> Abs(a[j]) <= MaxAbs(a)
    ensures exists j :: 0 <= j < |a| && Abs(a[j]) == MaxAbs(a)
  {
    if |a| > 1 {
      var rest := a[1..];
      MaxAbsIsMax(rest);
      assert MaxAbs(a) == Max(Abs(a[0]), MaxAbs(rest));
      forall j | 1 <= j < |a|
        ensures Abs(a[j]) <= MaxAbs(a)
      {
        assert a[j] == rest[j - 1];
      }
      if Abs(a[0]) < MaxAbs(rest) {
        var j :| 0 <= j < |rest| && Abs(rest[j]) == MaxAbs(rest);
        assert a[j + 1] == rest[j];
      } else {
        assert Abs(a[0]) == MaxAbs(a);
      }
    } else {
      assert Abs(a[0]) == MaxAbs(a);
    }
  }

  /** A vector whose largest absolute component is positive is not the zero vector. */
  lemma NonZeroWhenMaxAbsPositive(a: Vector)
    requires |a| > 0 && MaxAbs(a) > 0.0
    ensures !IsZero(a)
  {
    MaxAbsIsMax(a);
    var j :| 0 <= j < |a| && Abs(a[j]) == MaxAbs(a);
  }
}
