/**
 * Kinematics and stress of one tetrahedral element: the edge matrices P and V
 * taken relative to node 4, the deformation gradient F = P * beta and its rate
 * F_dot = V * beta, Green strain, strain rate, and the linear elastic plus
 * Kelvin-Voigt viscous stress. All matrices are row-major: row i of an edge
 * matrix is the edge from node 4 to node i.
 */
module Element {
  import opened LinAlg

  /** One vector per element corner, in node order n1, n2, n3, n4. */
  datatype Corners = Corners(c1: Vec3, c2: Vec3, c3: Vec3, c4: Vec3)

  /** Elastic Lame-like constants and their viscous analogues. */
  const Lambda: real := 200.0
  const Mu: real := 200.0
  const Phi: real := 1.0
  const Psi: real := 1.0

  /** Rows n1 - n4, n2 - n4, n3 - n4: P for positions, V for velocities, B for rest positions. */
  function EdgeMatrix(c: Corners): Mat3 {
    Rows(Sub(c.c1, c.c4), Sub(c.c2, c.c4), Sub(c.c3, c.c4))
  }

  function Translate(c: Corners, t: Vec3): Corners {
    Corners(Add(c.c1, t), Add(c.c2, t), Add(c.c3, t), Add(c.c4, t))
  }

  /** F = P * beta, and likewise F_dot = V * beta. */
  function Gradient(edges: Mat3, beta: Mat3): Mat3 {
    MatMul(edges, beta)
  }

  /** Green strain E = F^T F - I. */
  function Strain(f: Mat3): Mat3 {
    MatSub(MatMul(Transpose(f), f), Identity())
  }

  /** Strain rate F^T F_dot + F_dot^T F. */
  function StrainRate(f: Mat3, fDot: Mat3): Mat3 {
    MatAdd(MatMul(Transpose(f), fDot), MatMul(Transpose(fDot), f))
  }

  /** lambda tr(E) I + 2 mu E */
  function ElasticStress(e: Mat3): Mat3 {
    MatAdd(MatScale(Identity(), Trace(e) * Lambda), MatScale(e, 2.0 * Mu))
  }

  /** phi tr(E_dot) I + 2 psi E_dot */
  function ViscousStress(eDot: Mat3): Mat3 {
    MatAdd(MatScale(Identity(), Trace(eDot) * Phi), MatScale(eDot, 2.0 * Psi))
  }

  /** sigma = F (elastic + viscous). */
  function Sigma(f: Mat3, fDot: Mat3): Mat3 {
    MatMul(f, MatAdd(ElasticStress(Strain(f)), ViscousStress(StrainRate(f, fDot))))
  }

  /** The per-step pipeline of one element: P, V, F, F_dot, then sigma. */
  function ElementSigma(pos: Corners, vel: Corners, beta: Mat3): Mat3 {
    Sigma(Gradient(EdgeMatrix(pos), beta), Gradient(EdgeMatrix(vel), beta))
  }

  /** Moving all four nodes by the same vector leaves the edge matrix unchanged. */
  lemma EdgeMatrixTranslation(c: Corners, t: Vec3)
    ensures EdgeMatrix(Translate(c, t)) == EdgeMatrix(c)
  {
  }

  /** The edge matrix vanishes exactly when all four corners coincide (equal velocities give V = 0). */
  lemma EdgeMatrixZeroIff(c: Corners)
    ensures EdgeMatrix(c) == ZeroMat() <==> (c.c1 == c.c4 && c.c2 == c.c4 && c.c3 == c.c4)
  {
    if EdgeMatrix(c) == ZeroMat() {
      assert Row0(EdgeMatrix(c)) == Zero();
      assert Row1(EdgeMatrix(c)) == Zero();
      assert Row2(EdgeMatrix(c)) == Zero();
    }
  }

  /** At rest (current positions equal to the rest positions) F is the identity. */
  lemma GradientAtRest(rest: Corners, beta: Mat3)
    requires IsInverse(EdgeMatrix(rest), beta)
    ensures Gradient(EdgeMatrix(rest), beta) == Identity()
  {
  }

  /**
   * F * B == P when beta inverts B. With edges stored as rows this is a
   * statement about the matrices, not that F applied to a rest edge gives the
   * current edge (that would be B * F^T == P).
   */
  lemma GradientReproducesEdges(p: Mat3, b: Mat3, beta: Mat3)
    requires IsInverse(b, beta)
    ensures MatMul(Gradient(p, beta), b) == p
  {
    MatMulAssoc(p, beta, b);
    MatMulIdentity(p, Identity());
  }

  /** Green strain and strain rate are symmetric tensors. */
  lemma StrainSymmetric(f: Mat3, fDot: Mat3)
    ensures Symmetric(Strain(f))
    ensures Symmetric(StrainRate(f, fDot))
  {
    GramSymmetric(f, fDot);
  }

  /**
   * Green strain does not see a rigid rotation applied on the left of F.
   * (With column-major matrices this is a rotation of the deformed shape.)
   */
  lemma StrainRotationInvariant(r: Mat3, f: Mat3)
    requires MatMul(Transpose(r), r) == Identity()
    ensures Strain(MatMul(r, f)) == Strain(f)
  {
    calc {
      MatMul(Transpose(MatMul(r, f)), MatMul(r, f));
      { TransposeMul(r, f); }
      MatMul(MatMul(Transpose(f), Transpose(r)), MatMul(r, f));
      { MatMulAssoc(Transpose(f), Transpose(r), MatMul(r, f)); }
      MatMul(Transpose(f), MatMul(Transpose(r), MatMul(r, f)));
      { MatMulAssoc(Transpose(r), r, f); }
      MatMul(Transpose(f), MatMul(MatMul(Transpose(r), r), f));
      { MatMulIdentity(f, MatMul(Transpose(r), r)); }
      MatMul(Transpose(f), f);
    }
  }

  /** sigma splits into an elastic and a viscous part. */
  lemma SigmaSplits(f: Mat3, fDot: Mat3)
    ensures Sigma(f, fDot)
         == MatAdd(MatMul(f, ElasticStress(Strain(f))), MatMul(f, ViscousStress(StrainRate(f, fDot))))
  {
    MatMulDistrib(f, ElasticStress(Strain(f)), ViscousStress(StrainRate(f, fDot)));
  }

  // The lemmas below take the identity and zero matrices as parameters
  // (`i == Identity()`, `z == ZeroMat()`) rather than writing the literals:
  // a named matrix keeps the solver from expanding nine literal entries at
  // every use.

  /** The zero tensor is a fixed point of both stress laws and of the strain rate at zero rate. */
  lemma ZeroStressFacts(f: Mat3, z: Mat3)
    requires z == ZeroMat()
    ensures Transpose(z) == z
    ensures ElasticStress(z) == z
    ensures ViscousStress(z) == z
    ensures StrainRate(f, z) == z
  {
    MatMulZero(f, z);
    MatMulZero(Transpose(f), z);
  }

  /** With F_dot = 0 the viscous term vanishes. */
  lemma SigmaWithoutRate(f: Mat3, z: Mat3)
    requires z == ZeroMat()
    ensures Sigma(f, z) == MatMul(f, ElasticStress(Strain(f)))
  {
    ZeroStressFacts(f, z);
    AddZero(ElasticStress(Strain(f)), z);
  }

  /** Green strain of the identity is zero. */
  lemma StrainOfIdentity(i: Mat3, z: Mat3)
    requires i == Identity() && z == ZeroMat()
    ensures Strain(i) == z
  {
    assert Transpose(i) == i;
    MatMulIdentity(i, i);
  }

  /** With F = I and F_dot = 0 there is no stress. */
  lemma SigmaAtRest(i: Mat3, z: Mat3)
    requires i == Identity() && z == ZeroMat()
    ensures Sigma(i, z) == z
  {
    SigmaWithoutRate(i, z);
    StrainOfIdentity(i, z);
    ZeroStressFacts(i, z);
    MatMulZero(i, z);
  }

  /** A uniform stretch F = sI with no rate gives sigma = (3 lambda + 2 mu) s (s^2 - 1) I. */
  lemma UniformStretchStress(s: real, i: Mat3, z: Mat3)
    requires i == Identity() && z == ZeroMat()
    ensures Sigma(MatScale(i, s), z) == MatScale(i, 1000.0 * s * (s * s - 1.0))
  {
    var f := MatScale(i, s);
    var e := s * s - 1.0;
    calc {
      Sigma(f, z);
      { SigmaWithoutRate(f, z); }
      MatMul(f, ElasticStress(Strain(f)));
      { UniformStretchStrain(s, i); }
      MatMul(f, ElasticStress(MatScale(i, e)));
      { UniformElastic(e, i); }
      MatMul(f, MatScale(i, 1000.0 * e));
      { ScaledIdentityMul(s, 1000.0 * e, i); }
      MatScale(i, s * (1000.0 * e));
      { assert s * (1000.0 * e) == 1000.0 * s * (s * s - 1.0); }
      MatScale(i, 1000.0 * s * (s * s - 1.0));
    }
  }

  /** F = sI has Green strain (s^2 - 1) I. */
  lemma UniformStretchStrain(s: real, i: Mat3)
    requires i == Identity()
    ensures Strain(MatScale(i, s)) == MatScale(i, s * s - 1.0)
  {
    var f := MatScale(i, s);
    assert Transpose(f) == f;
    ScaledIdentityMul(s, s, i);
  }

  /** The elastic law applied to a uniform strain eI gives (3 lambda + 2 mu) e I. */
  lemma UniformElastic(e: real, i: Mat3)
    requires i == Identity()
    ensures ElasticStress(MatScale(i, e)) == MatScale(i, 1000.0 * e)
  {
  }

  /** The viscous law applied to a uniform rate eI gives (3 phi + 2 psi) e I. */
  lemma UniformViscous(e: real, i: Mat3)
    requires i == Identity()
    ensures ViscousStress(MatScale(i, e)) == MatScale(i, 5.0 * e)
  {
  }

  /** At F = I a uniform rate F_dot = dI gives sigma = (6 phi + 4 psi) d I. */
  lemma UniformRateStress(d: real, i: Mat3, z: Mat3)
    requires i == Identity() && z == ZeroMat()
    ensures Sigma(i, MatScale(i, d)) == MatScale(i, 10.0 * d)
  {
    var fd := MatScale(i, d);
    var vis := MatScale(i, 10.0 * d);
    calc {
      Sigma(i, fd);
      MatMul(i, MatAdd(ElasticStress(Strain(i)), ViscousStress(StrainRate(i, fd))));
      { StrainOfIdentity(i, z); ZeroStressFacts(i, z); }
      MatMul(i, MatAdd(z, ViscousStress(StrainRate(i, fd))));
      { UniformRate(d, i); }
      MatMul(i, MatAdd(z, ViscousStress(MatScale(i, 2.0 * d))));
      { UniformViscous(2.0 * d, i); assert 5.0 * (2.0 * d) == 10.0 * d; }
      MatMul(i, MatAdd(z, vis));
      { AddZero(vis, z); }
      MatMul(i, vis);
      { MatMulIdentity(vis, i); }
      vis;
    }
  }

  /** At F = I the strain rate of F_dot = dI is 2dI. */
  lemma UniformRate(d: real, i: Mat3)
    requires i == Identity()
    ensures StrainRate(i, MatScale(i, d)) == MatScale(i, 2.0 * d)
  {
    var fd := MatScale(i, d);
    assert Transpose(i) == i;
    assert Transpose(fd) == fd;
    MatMulIdentity(fd, i);
  }

  /**
   * An undeformed element (possibly translated from its rest place) moving
   * rigidly with one common velocity carries no stress.
   */
  lemma RigidElementUnstressed(rest: Corners, t: Vec3, v: Vec3, beta: Mat3)
    requires IsInverse(EdgeMatrix(rest), beta)
    ensures ElementSigma(Translate(rest, t), Corners(v, v, v, v), beta) == ZeroMat()
  {
    var i, z := Identity(), ZeroMat();
    EdgeMatrixTranslation(rest, t);
    EdgeMatrixZeroIff(Corners(v, v, v, v));
    GradientAtRest(rest, beta);
    MatMulZero(beta, z);
    SigmaAtRest(i, z);
  }
}
