/**
 * The explicit Euler step over a state made of segments of numbers
 * (positions and velocities, flattened), and the midpoint rule built from
 * two such steps.
 */
module Integrator {

  /** `d` has at least the segments of `x`, each at least as long. */
  predicate Covers(d: seq<seq<real>>, x: seq<seq<real>>) {
    |d| >= |x| && forall j :: 0 <= j < |x| ==> |d[j]| >= |x[j]|
  }

  /** Same number of segments and the same segment lengths. */
  predicate SameShape(a: seq<seq<real>>, b: seq<seq<real>>) {
    |a| == |b| && forall j :: 0 <= j < |a| ==> |a[j]| == |b[j]|
  }

  /**
   * One Euler step: every entry moves by `step` times its derivative. The
   * result has the shape of `x0`; derivative entries beyond it are ignored.
   */
  function EulerStep(x0: seq<seq<real>>, dx: seq<seq<real>>, step: real): (r: seq<seq<real>>)
    requires Covers(dx, x0)
    ensures SameShape(r, x0)
    ensures forall j, i :: 0 <= j < |x0| && 0 <= i < |x0[j]| ==> r[j][i] == x0[j][i] + step * dx[j][i]
  {
    seq(|x0|, j requires 0 <= j < |x0| =>
      seq(|x0[j]|, i requires 0 <= i < |x0[j]| => x0[j][i] + step * dx[j][i]))
  }

  /**
   * The same step as the source writes it: copy every segment, then
   * overwrite entry by entry in two nested loops.
   */
  method EulerStepLoop(x0: seq<seq<real>>, dx: seq<seq<real>>, step: real) returns (r: seq<seq<real>>)
    requires Covers(dx, x0)
    ensures SameShape(r, x0)
    ensures forall j, i :: 0 <= j < |x0| && 0 <= i < |x0[j]| ==> r[j][i] == x0[j][i] + step * dx[j][i]
  {
    r := x0;
    var j := 0;
    while j < |x0|
      invariant 0 <= j <= |x0|
      invariant SameShape(r, x0)
      invariant forall k, i :: 0 <= k < j && 0 <= i < |x0[k]| ==> r[k][i] == x0[k][i] + step * dx[k][i]
      invariant forall k :: j <= k < |x0| ==> r[k] == x0[k]
    {
      var i := 0;
      while i < |x0[j]|
        invariant 0 <= i <= |x0[j]|
        invariant SameShape(r, x0)
        invariant forall k, l :: 0 <= k < j && 0 <= l < |x0[k]| ==> r[k][l] == x0[k][l] + step * dx[k][l]
        invariant forall l :: 0 <= l < i ==> r[j][l] == x0[j][l] + step * dx[j][l]
        invariant forall l :: i <= l < |x0[j]| ==> r[j][l] == x0[j][l]
        invariant forall k :: j < k < |x0| ==> r[k] == x0[k]
      {
        r := r[j := r[j][i := x0[j][i] + step * dx[j][i]]];
        i := i + 1;
      }
      j := j + 1;
    }
  }

  /** A zero step leaves the state as it is. */
  lemma EulerZeroStep(x0: seq<seq<real>>, dx: seq<seq<real>>)
    requires Covers(dx, x0)
    ensures EulerStep(x0, dx, 0.0) == x0
  {
    var r := EulerStep(x0, dx, 0.0);
    forall j | 0 <= j < |x0|
      ensures r[j] == x0[j]
    {
    }
  }

  /** A zero derivative leaves the state as it is. */
  lemma EulerZeroDerivative(x0: seq<seq<real>>, dx: seq<seq<real>>, step: real)
    requires Covers(dx, x0)
    requires forall j, i :: 0 <= j < |x0| && 0 <= i < |x0[j]| ==> dx[j][i] == 0.0
    ensures EulerStep(x0, dx, step) == x0
  {
    var r := EulerStep(x0, dx, step);
    forall j | 0 <= j < |x0|
      ensures r[j] == x0[j]
    {
    }
  }

  /** Two steps along the same derivative add their step sizes. */
  lemma EulerCompose(x0: seq<seq<real>>, dx: seq<seq<real>>, a: real, b: real)
    requires Covers(dx, x0)
    ensures EulerStep(EulerStep(x0, dx, a), dx, b) == EulerStep(x0, dx, a + b)
  {
    var r := EulerStep(EulerStep(x0, dx, a), dx, b);
    var s := EulerStep(x0, dx, a + b);
    forall j | 0 <= j < |x0|
      ensures r[j] == s[j]
    {
    }
  }

  /** A step back along the same derivative undoes a step. */
  lemma EulerUndo(x0: seq<seq<real>>, dx: seq<seq<real>>, h: real)
    requires Covers(dx, x0)
    ensures EulerStep(EulerStep(x0, dx, h), dx, -h) == x0
  {
    EulerCompose(x0, dx, h, -h);
    EulerZeroStep(x0, dx);
  }

  /** Only the part of the derivative under the state's shape matters. */
  lemma EulerIgnoresExtra(x0: seq<seq<real>>, dx: seq<seq<real>>, dy: seq<seq<real>>, step: real)
    requires Covers(dx, x0) && Covers(dy, x0)
    requires forall j, i :: 0 <= j < |x0| && 0 <= i < |x0[j]| ==> dx[j][i] == dy[j][i]
    ensures EulerStep(x0, dx, step) == EulerStep(x0, dy, step)
  {
    var r := EulerStep(x0, dx, step);
    var s := EulerStep(x0, dy, step);
    forall j | 0 <= j < |x0|
      ensures r[j] == s[j]
    {
      assert forall i :: 0 <= i < |x0[j]| ==> r[j][i] == s[j][i];
    }
  }

  /**
   * The midpoint rule: a half Euler step along the derivative at `x0`, then
   * a full step from `x0` along the derivative found at that midpoint.
   */
  function Midpoint(x0: seq<seq<real>>, h: real, deriv: seq<seq<real>> -> seq<seq<real>>): (r: seq<seq<real>>)
    requires Covers(deriv(x0), x0)
    requires Covers(deriv(EulerStep(x0, deriv(x0), h * 0.5)), x0)
    ensures SameShape(r, x0)
  {
    var mid := EulerStep(x0, deriv(x0), h * 0.5);
    EulerStep(x0, deriv(mid), h)
  }

  /**
   * For a derivative that ignores the state, the midpoint rule is one Euler
   * step; a zero-length step changes nothing.
   */
  lemma MidpointOfConstant(x0: seq<seq<real>>, h: real, d: seq<seq<real>>)
    requires Covers(d, x0)
    ensures Midpoint(x0, h, _ => d) == EulerStep(x0, d, h)
    ensures Midpoint(x0, 0.0, _ => d) == x0
  {
    EulerZeroStep(x0, d);
  }

  /**
   * On the linear system x' = x (every segment its own derivative), the
   * midpoint rule multiplies each entry by 1 + h + h^2/2.
   */
  lemma MidpointOfLinear(x0: seq<seq<real>>, h: real)
    ensures var r := Midpoint(x0, h, x => x);
      forall j, i :: 0 <= j < |x0| && 0 <= i < |x0[j]| ==> r[j][i] == (1.0 + h + h * h * 0.5) * x0[j][i]
  {
    var mid := EulerStep(x0, x0, h * 0.5);
    var r := Midpoint(x0, h, x => x);
    forall j, i | 0 <= j < |x0| && 0 <= i < |x0[j]|
      ensures r[j][i] == (1.0 + h + h * h * 0.5) * x0[j][i]
    {
      assert mid[j][i] == x0[j][i] + h * 0.5 * x0[j][i];
      assert r[j][i] == x0[j][i] + h * mid[j][i];
    }
  }
}
