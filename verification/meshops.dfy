/**
 * Per-node bookkeeping on a built mesh: uniform masses, the force
 * accumulator reset to gravity, the assembly of element forces onto the
 * nodes, and the write-back of the integrator's flat arrays into node
 * positions and velocities.
 */
module MeshOps {
  import opened LinAlg
  import opened Element
  import opened Topology

  // ---------------------------------------------------------------------------
  // Masses and the force reset

  const Gravity: Vec3 := Vec3(0.0, -9.8, 0.0)

  /** Every node gets mass 1; positions, velocities, forces and tetrahedra are untouched. */
  function ComputeMass(m: Mesh): (r: Mesh)
    ensures r.tets == m.tets && |r.nodes| == |m.nodes|
    ensures forall i :: 0 <= i < |m.nodes| ==>
      && r.nodes[i].mass == 1.0
      && r.nodes[i].pos == m.nodes[i].pos && r.nodes[i].vel == m.nodes[i].vel
      && r.nodes[i].f == m.nodes[i].f
  {
    m.(nodes := seq(|m.nodes|, i requires 0 <= i < |m.nodes| => m.nodes[i].(mass := 1.0)))
  }

  /** Every force accumulator is cleared and set to gravity; nothing else changes. */
  function ResetForces(m: Mesh): (r: Mesh)
    ensures r.tets == m.tets && |r.nodes| == |m.nodes|
    ensures forall i :: 0 <= i < |m.nodes| ==>
      && r.nodes[i].f == Vec3(0.0, -9.8, 0.0)
      && r.nodes[i].pos == m.nodes[i].pos && r.nodes[i].vel == m.nodes[i].vel
      && r.nodes[i].mass == m.nodes[i].mass
  {
    m.(nodes := seq(|m.nodes|, i requires 0 <= i < |m.nodes| => m.nodes[i].(f := Gravity)))
  }

  /** Setting masses twice is setting them once, and the force reset forgets every earlier force. */
  lemma BookkeepingIdempotent(m: Mesh, m': Mesh)
    requires m'.tets == m.tets && |m'.nodes| == |m.nodes|
    requires forall i :: 0 <= i < |m.nodes| ==> m'.nodes[i] == m.nodes[i].(f := m'.nodes[i].f)
    ensures ComputeMass(ComputeMass(m)) == ComputeMass(m)
    ensures ResetForces(m') == ResetForces(m)
  {
    assert ResetForces(m').nodes == ResetForces(m).nodes;
  }

  // ---------------------------------------------------------------------------
  // Element forces

  /** The four node indices of `t` name existing nodes. */
  predicate TetIn(t: Tet, nodeCount: nat) {
    t.n1 < nodeCount && t.n2 < nodeCount && t.n3 < nodeCount && t.n4 < nodeCount
  }

  predicate WellFormed(m: Mesh) {
    forall k :: 0 <= k < |m.tets| ==> TetIn(m.tets[k], |m.nodes|)
  }

  function PosCorners(nodes: seq<Node>, t: Tet): Corners
    requires TetIn(t, |nodes|)
  {
    Corners(nodes[t.n1].pos, nodes[t.n2].pos, nodes[t.n3].pos, nodes[t.n4].pos)
  }

  function VelCorners(nodes: seq<Node>, t: Tet): Corners
    requires TetIn(t, |nodes|)
  {
    Corners(nodes[t.n1].vel, nodes[t.n2].vel, nodes[t.n3].vel, nodes[t.n4].vel)
  }

  /**
   * The cross product of two edges of a face, with the edges each face uses.
   * Normals take it from the rest positions and areas from the current ones.
   */
  function FaceCross(c: Corners, face: Face): Vec3 {
    match face
    case F142 => Cross(Sub(c.c4, c.c1), Sub(c.c2, c.c4))
    case F243 => Cross(Sub(c.c4, c.c2), Sub(c.c3, c.c4))
    case F312 => Cross(Sub(c.c1, c.c3), Sub(c.c2, c.c1))
    case F413 => Cross(Sub(c.c1, c.c4), Sub(c.c3, c.c1))
  }

  /** The square-root based helpers of the vector library: unit vector and length. */
  datatype Measure = Measure(normalize: Vec3 -> Vec3, magnitude: Vec3 -> real)

  /** Unit vector times length gives the vector back. */
  predicate ExactOn(g: Measure, v: Vec3) {
    Scale(g.normalize(v), g.magnitude(v)) == v
  }

  /**
   * The force a face sends to the corner opposite it: sigma times the face's
   * material normal (the negated unit cross product of the rest edges) times
   * its world area (the length of the current cross product).
   */
  function FaceForce(sigma: Mat3, rest: Corners, pos: Corners, face: Face, g: Measure): Vec3 {
    Scale(MatVec(sigma, Neg(g.normalize(FaceCross(rest, face)))), g.magnitude(FaceCross(pos, face)))
  }

  /** The entry of `c` at corner `k`. */
  function CornerVal(c: Corners, k: Corner): Vec3 {
    match k
    case C1 => c.c1
    case C2 => c.c2
    case C3 => c.c3
    case C4 => c.c4
  }

  /** The forces on corners 1..4: each corner is pushed by the one face that does not contain it. */
  function FaceForces(sigma: Mat3, rest: Corners, pos: Corners, g: Measure): (r: Corners)
    ensures forall k: Corner, face: Face :: k !in CornersOf(face) ==>
      CornerVal(r, k) == FaceForce(sigma, rest, pos, face, g)
  {
    Corners(FaceForce(sigma, rest, pos, Opposite(C1), g), FaceForce(sigma, rest, pos, Opposite(C2), g),
            FaceForce(sigma, rest, pos, Opposite(C3), g), FaceForce(sigma, rest, pos, Opposite(C4), g))
  }

  /** The stress of element `t` at the nodes' current positions and velocities. */
  function Stress(nodes: seq<Node>, t: Tet): Mat3
    requires TetIn(t, |nodes|)
  {
    ElementSigma(PosCorners(nodes, t), VelCorners(nodes, t), t.beta)
  }

  /** What element `t` pushes onto its four nodes in the current state. */
  function NodalForces(nodes: seq<Node>, t: Tet, g: Measure): Corners
    requires TetIn(t, |nodes|)
  {
    FaceForces(Stress(nodes, t), t.rest, PosCorners(nodes, t), g)
  }

  function CornerSum(c: Corners): Vec3 {
    Add(Add(Add(c.c1, c.c2), c.c3), c.c4)
  }

  /** The four face cross products of any tetrahedron add up to zero: its faces close up. */
  lemma FaceCrossesClose(c: Corners)
    ensures CornerSum(Corners(FaceCross(c, F243), FaceCross(c, F413), FaceCross(c, F142), FaceCross(c, F312))) == Zero()
  {
    CrossOfDifferences(c.c4, c.c2, c.c3, c.c4);
    CrossOfDifferences(c.c1, c.c4, c.c3, c.c1);
    CrossOfDifferences(c.c4, c.c1, c.c2, c.c4);
    CrossOfDifferences(c.c1, c.c3, c.c2, c.c1);
    CrossComponentCloses(c.c1.y, c.c1.z, c.c2.y, c.c2.z, c.c3.y, c.c3.z, c.c4.y, c.c4.z);
    CrossComponentCloses(c.c1.z, c.c1.x, c.c2.z, c.c2.x, c.c3.z, c.c3.x, c.c4.z, c.c4.x);
    CrossComponentCloses(c.c1.x, c.c1.y, c.c2.x, c.c2.y, c.c3.x, c.c3.y, c.c4.x, c.c4.y);
  }

  /** Each component of Cross(a - b, c - d) in the two other coordinates. */
  lemma CrossOfDifferences(a: Vec3, b: Vec3, c: Vec3, d: Vec3)
    ensures Cross(Sub(a, b), Sub(c, d)).x == CrossPart(a.y, a.z, b.y, b.z, c.y, c.z, d.y, d.z)
    ensures Cross(Sub(a, b), Sub(c, d)).y == CrossPart(a.z, a.x, b.z, b.x, c.z, c.x, d.z, d.x)
    ensures Cross(Sub(a, b), Sub(c, d)).z == CrossPart(a.x, a.y, b.x, b.y, c.x, c.y, d.x, d.y)
  {
  }

  /**
   * One component of Cross(a - b, c - d), written in the two other
   * coordinates of the four points.
   */
  function CrossPart(a1: real, a2: real, b1: real, b2: real, c1: real, c2: real, d1: real, d2: real): real {
    (a1 - b1) * (c2 - d2) - (a2 - b2) * (c1 - d1)
  }

  lemma CrossComponentCloses(y1: real, z1: real, y2: real, z2: real, y3: real, z3: real, y4: real, z4: real)
    ensures CrossPart(y4, z4, y2, z2, y3, z3, y4, z4) + CrossPart(y1, z1, y4, z4, y3, z3, y1, z1)
          + CrossPart(y4, z4, y1, z1, y2, z2, y4, z4) + CrossPart(y1, z1, y3, z3, y2, z2, y1, z1) == 0.0
  {
  }

  /** Translating every corner leaves every face cross product as it was. */
  lemma FaceCrossTranslation(c: Corners, t: Vec3, face: Face)
    ensures FaceCross(Translate(c, t), face) == FaceCross(c, face)
  {
  }

  /** At a shifted rest shape, a face's force is minus sigma applied to its cross product. */
  lemma FaceForceAtRest(sigma: Mat3, rest: Corners, shift: Vec3, face: Face, g: Measure)
    requires ExactOn(g, FaceCross(rest, face))
    ensures FaceForce(sigma, rest, Translate(rest, shift), face, g) == Neg(MatVec(sigma, FaceCross(rest, face)))
  {
    var w := FaceCross(rest, face);
    FaceCrossTranslation(rest, shift, face);
    NegatedScaledImage(sigma, g.normalize(w), g.magnitude(w));
  }

  /** Scaling the image of a negated vector is negating the image of the scaled vector. */
  lemma NegatedScaledImage(sigma: Mat3, u: Vec3, s: real)
    ensures Scale(MatVec(sigma, Neg(u)), s) == Neg(MatVec(sigma, Scale(u, s)))
  {
    MatVecLinear(sigma, u, u, -1.0);
    MatVecLinear(sigma, u, u, s);
  }

  /** The four corner forces written out: corner 1 from face 243, 2 from 413, 3 from 142, 4 from 312. */
  lemma FaceForcesByCorner(sigma: Mat3, rest: Corners, pos: Corners, g: Measure)
    ensures var r := FaceForces(sigma, rest, pos, g);
      && r.c1 == FaceForce(sigma, rest, pos, F243, g) && r.c2 == FaceForce(sigma, rest, pos, F413, g)
      && r.c3 == FaceForce(sigma, rest, pos, F142, g) && r.c4 == FaceForce(sigma, rest, pos, F312, g)
  {
  }

  /**
   * Whatever the stress, an element whose nodes sit at its rest positions
   * shifted by one vector pushes its four nodes with forces that cancel.
   */
  lemma ElementForcesBalance(sigma: Mat3, rest: Corners, shift: Vec3, g: Measure)
    requires forall face :: ExactOn(g, FaceCross(rest, face))
    ensures CornerSum(FaceForces(sigma, rest, Translate(rest, shift), g)) == Zero()
  {
    var a, b, d, e := FaceCross(rest, F243), FaceCross(rest, F413), FaceCross(rest, F142), FaceCross(rest, F312);
    var cf := FaceForces(sigma, rest, Translate(rest, shift), g);
    FaceForcesByCorner(sigma, rest, Translate(rest, shift), g);
    FaceForceAtRest(sigma, rest, shift, F243, g);
    FaceForceAtRest(sigma, rest, shift, F413, g);
    FaceForceAtRest(sigma, rest, shift, F142, g);
    FaceForceAtRest(sigma, rest, shift, F312, g);
    assert cf == Corners(Neg(MatVec(sigma, a)), Neg(MatVec(sigma, b)), Neg(MatVec(sigma, d)), Neg(MatVec(sigma, e)));
    FaceCrossesClose(rest);
    NegatedImagesCancel(sigma, a, b, d, e);
  }

  /** If four vectors add up to zero, so do their negated images under any matrix. */
  lemma NegatedImagesCancel(sigma: Mat3, a: Vec3, b: Vec3, d: Vec3, e: Vec3)
    requires CornerSum(Corners(a, b, d, e)) == Zero()
    ensures CornerSum(Corners(Neg(MatVec(sigma, a)), Neg(MatVec(sigma, b)), Neg(MatVec(sigma, d)), Neg(MatVec(sigma, e)))) == Zero()
  {
    var sa, sb, sd, se := MatVec(sigma, a), MatVec(sigma, b), MatVec(sigma, d), MatVec(sigma, e);
    MatVecLinear(sigma, a, b, 1.0);
    MatVecLinear(sigma, Add(a, b), d, 1.0);
    MatVecLinear(sigma, Add(Add(a, b), d), e, 1.0);
    assert Add(Add(Add(sa, sb), sd), se) == MatVec(sigma, Add(Add(Add(a, b), d), e));
    assert MatVec(sigma, Zero()) == Zero();
    assert Add(Add(Add(sa, sb), sd), se) == Zero();
  }

  // ---------------------------------------------------------------------------
  // Assembly over precomputed corner forces

  /** Add `v` to the accumulator of node `i`. */
  function AddAt(fs: seq<Vec3>, i: nat, v: Vec3): (r: seq<Vec3>)
    requires i < |fs|
    ensures |r| == |fs|
  {
    fs[i := Add(fs[i], v)]
  }

  /** Element `t` adds its four corner forces `cf` in the source's order, n1 first and n4 last. */
  function ApplyInOrder(fs: seq<Vec3>, t: Tet, cf: Corners): (r: seq<Vec3>)
    requires TetIn(t, |fs|)
    ensures |r| == |fs|
  {
    AddAt(AddAt(AddAt(AddAt(fs, t.n1, cf.c1), t.n2, cf.c2), t.n3, cf.c3), t.n4, cf.c4)
  }

  /** Element `t` adds to every node the corner forces of the corners naming it. */
  function ApplyElement(fs: seq<Vec3>, t: Tet, cf: Corners): (r: seq<Vec3>)
    ensures |r| == |fs|
  {
    seq(|fs|, i requires 0 <= i < |fs| => Add(fs[i], Contribution(t, cf, i)))
  }

  predicate AllIn(tets: seq<Tet>, nodeCount: nat) {
    forall k :: 0 <= k < |tets| ==> TetIn(tets[k], nodeCount)
  }

  /** Apply the elements in order, element `k` with corner forces `cfs[k]`. */
  function Assemble(fs: seq<Vec3>, tets: seq<Tet>, cfs: seq<Corners>): (r: seq<Vec3>)
    requires |cfs| == |tets|
    ensures |r| == |fs|
    decreases |tets|
  {
    if |tets| == 0 then fs
    else
      var n := |tets| - 1;
      ApplyElement(Assemble(fs, tets[..n], cfs[..n]), tets[n], cfs[n])
  }

  /** Reference: what one element contributes to node `i`, summed over the corners naming `i`. */
  function Contribution(t: Tet, cf: Corners, i: nat): Vec3 {
    var p1 := if t.n1 == i then cf.c1 else Zero();
    var p2 := if t.n2 == i then cf.c2 else Zero();
    var p3 := if t.n3 == i then cf.c3 else Zero();
    var p4 := if t.n4 == i then cf.c4 else Zero();
    Add(Add(Add(p1, p2), p3), p4)
  }

  /** Reference: the sum of every element's contribution to node `i`. */
  function TotalContribution(tets: seq<Tet>, cfs: seq<Corners>, i: nat): Vec3
    requires |cfs| == |tets|
    decreases |tets|
  {
    if |tets| == 0 then Zero()
    else
      var n := |tets| - 1;
      Add(TotalContribution(tets[..n], cfs[..n], i), Contribution(tets[n], cfs[n], i))
  }

  /**
   * The four in-order updates change exactly the accumulators of the
   * element's own nodes, each by the corner forces of the corners naming it.
   */
  lemma ApplyInOrderAdds(fs: seq<Vec3>, t: Tet, cf: Corners, i: nat)
    requires TetIn(t, |fs|) && i < |fs|
    ensures ApplyInOrder(fs, t, cf)[i] == Add(fs[i], Contribution(t, cf, i))
  {
    var f1 := AddAt(fs, t.n1, cf.c1);
    var f2 := AddAt(f1, t.n2, cf.c2);
    var f3 := AddAt(f2, t.n3, cf.c3);
    AddAtReads(fs, t.n1, cf.c1, i);
    AddAtReads(f1, t.n2, cf.c2, i);
    AddAtReads(f2, t.n3, cf.c3, i);
    AddAtReads(f3, t.n4, cf.c4, i);
  }

  /** The source's four in-order updates are the per-node application. */
  lemma ApplyInOrderIsApplyElement(fs: seq<Vec3>, t: Tet, cf: Corners)
    requires TetIn(t, |fs|)
    ensures ApplyInOrder(fs, t, cf) == ApplyElement(fs, t, cf)
  {
    forall i | 0 <= i < |fs|
      ensures ApplyInOrder(fs, t, cf)[i] == ApplyElement(fs, t, cf)[i]
    {
      ApplyInOrderAdds(fs, t, cf, i);
    }
  }

  /** Adding at `j` adds `v` to entry `i` when they coincide and nothing otherwise. */
  lemma AddAtReads(fs: seq<Vec3>, j: nat, v: Vec3, i: nat)
    requires j < |fs| && i < |fs|
    ensures AddAt(fs, j, v)[i] == Add(fs[i], if j == i then v else Zero())
  {
  }

  lemma AllInPrefix(tets: seq<Tet>, nodeCount: nat, n: nat)
    requires AllIn(tets, nodeCount) && n <= |tets|
    ensures AllIn(tets[..n], nodeCount)
  {
    assert forall k :: 0 <= k < n ==> tets[..n][k] == tets[k];
  }

  /** Assembly leaves each node with its starting force plus every element's contribution to it. */
  lemma {:induction false} AssembleIsSum(fs: seq<Vec3>, tets: seq<Tet>, cfs: seq<Corners>, i: nat)
    requires |cfs| == |tets| && i < |fs|
    ensures Assemble(fs, tets, cfs)[i] == Add(fs[i], TotalContribution(tets, cfs, i))
    decreases |tets|
  {
    if |tets| > 0 {
      var n := |tets| - 1;
      AssembleIsSum(fs, tets[..n], cfs[..n], i);
      AddAssoc(fs[i], TotalContribution(tets[..n], cfs[..n], i), Contribution(tets[n], cfs[n], i));
    }
  }

  /** A node that no element names receives nothing. */
  lemma {:induction false} UntouchedGetsNothing(tets: seq<Tet>, cfs: seq<Corners>, i: nat)
    requires |cfs| == |tets|
    requires forall k :: 0 <= k < |tets| ==> !Touches(tets[k], i)
    ensures TotalContribution(tets, cfs, i) == Zero()
    decreases |tets|
  {
    if |tets| > 0 {
      var n := |tets| - 1;
      assert forall k :: 0 <= k < n ==> tets[..n][k] == tets[k];
      UntouchedGetsNothing(tets[..n], cfs[..n], i);
    }
  }

  /** The sum of a sequence of vectors. */
  function SumVec(vs: seq<Vec3>): Vec3
    decreases |vs|
  {
    if |vs| == 0 then Zero() else Add(SumVec(vs[..|vs| - 1]), vs[|vs| - 1])
  }

  /** Adding `v` to one entry adds `v` to the sum. */
  lemma {:induction false} SumVecAddAt(fs: seq<Vec3>, i: nat, v: Vec3)
    requires i < |fs|
    ensures SumVec(AddAt(fs, i, v)) == Add(SumVec(fs), v)
    decreases |fs|
  {
    var n := |fs| - 1;
    var r := AddAt(fs, i, v);
    if i < n {
      assert r[..n] == AddAt(fs[..n], i, v);
      SumVecAddAt(fs[..n], i, v);
    } else {
      assert r[..n] == fs[..n];
    }
  }

  /** Reference: the sum of every element's four corner forces. */
  function SumElements(cfs: seq<Corners>): Vec3
    decreases |cfs|
  {
    if |cfs| == 0 then Zero() else Add(SumElements(cfs[..|cfs| - 1]), CornerSum(cfs[|cfs| - 1]))
  }

  /** One element adds its four corner forces to the sum of all node forces. */
  lemma ApplyElementTotal(fs: seq<Vec3>, t: Tet, cf: Corners)
    requires TetIn(t, |fs|)
    ensures SumVec(ApplyElement(fs, t, cf)) == Add(SumVec(fs), CornerSum(cf))
  {
    var fs1 := AddAt(fs, t.n1, cf.c1);
    var fs2 := AddAt(fs1, t.n2, cf.c2);
    var fs3 := AddAt(fs2, t.n3, cf.c3);
    calc {
      SumVec(ApplyElement(fs, t, cf));
      { ApplyInOrderIsApplyElement(fs, t, cf); }
      SumVec(ApplyInOrder(fs, t, cf));
      SumVec(AddAt(fs3, t.n4, cf.c4));
      { SumVecAddAt(fs3, t.n4, cf.c4); }
      Add(SumVec(fs3), cf.c4);
      { SumVecAddAt(fs2, t.n3, cf.c3); }
      Add(Add(SumVec(fs2), cf.c3), cf.c4);
      { SumVecAddAt(fs1, t.n2, cf.c2); }
      Add(Add(Add(SumVec(fs1), cf.c2), cf.c3), cf.c4);
      { SumVecAddAt(fs, t.n1, cf.c1); }
      Add(Add(Add(Add(SumVec(fs), cf.c1), cf.c2), cf.c3), cf.c4);
      { AddRegroup(SumVec(fs), cf); }
      Add(SumVec(fs), CornerSum(cf));
    }
  }

  lemma AddAssoc(a: Vec3, b: Vec3, c: Vec3)
    ensures Add(Add(a, b), c) == Add(a, Add(b, c))
  {
  }

  lemma AddRegroup(s: Vec3, cf: Corners)
    ensures Add(Add(Add(Add(s, cf.c1), cf.c2), cf.c3), cf.c4) == Add(s, CornerSum(cf))
  {
  }

  /** Assembly adds exactly the elements' totals to the sum of all node forces. */
  lemma {:induction false} AssembleTotal(fs: seq<Vec3>, tets: seq<Tet>, cfs: seq<Corners>)
    requires AllIn(tets, |fs|) && |cfs| == |tets|
    ensures SumVec(Assemble(fs, tets, cfs)) == Add(SumVec(fs), SumElements(cfs))
    decreases |tets|
  {
    if |tets| > 0 {
      var n := |tets| - 1;
      var fs0 := Assemble(fs, tets[..n], cfs[..n]);
      AllInPrefix(tets, |fs|, n);
      calc {
        SumVec(Assemble(fs, tets, cfs));
        SumVec(ApplyElement(fs0, tets[n], cfs[n]));
        { ApplyElementTotal(fs0, tets[n], cfs[n]); }
        Add(SumVec(fs0), CornerSum(cfs[n]));
        { AssembleTotal(fs, tets[..n], cfs[..n]); }
        Add(Add(SumVec(fs), SumElements(cfs[..n])), CornerSum(cfs[n]));
        Add(SumVec(fs), Add(SumElements(cfs[..n]), CornerSum(cfs[n])));
        Add(SumVec(fs), SumElements(cfs));
      }
    }
  }

  // ---------------------------------------------------------------------------
  // Force assembly on the mesh

  /** The accumulators of a mesh's nodes. */
  function Forces(nodes: seq<Node>): (r: seq<Vec3>)
    ensures |r| == |nodes|
  {
    seq(|nodes|, i requires 0 <= i < |nodes| => nodes[i].f)
  }

  /** Every element's corner forces in the mesh's current state. */
  function AllNodalForces(m: Mesh, g: Measure): (r: seq<Corners>)
    requires WellFormed(m)
    ensures |r| == |m.tets|
  {
    seq(|m.tets|, k requires 0 <= k < |m.tets| => NodalForces(m.nodes, m.tets[k], g))
  }

  /**
   * Force assembly over the whole mesh: only forces change, and a node no
   * element names keeps its force.
   */
  function ComputeForces(m: Mesh, g: Measure): (r: Mesh)
    requires WellFormed(m)
    ensures r.tets == m.tets && |r.nodes| == |m.nodes|
    ensures forall i :: 0 <= i < |m.nodes| ==> r.nodes[i] == m.nodes[i].(f := r.nodes[i].f)
    ensures forall i :: 0 <= i < |m.nodes| && (forall k :: 0 <= k < |m.tets| ==> !Touches(m.tets[k], i)) ==>
      r.nodes[i] == m.nodes[i]
  {
    var cfs := AllNodalForces(m, g);
    var fs := Assemble(Forces(m.nodes), m.tets, cfs);
    forall i | 0 <= i < |m.nodes| && (forall k :: 0 <= k < |m.tets| ==> !Touches(m.tets[k], i))
      ensures fs[i] == m.nodes[i].f
    {
      AssembleUntouched(Forces(m.nodes), m.tets, cfs, i);
    }
    m.(nodes := WithForces(m.nodes, fs))
  }

  /** The nodes with their accumulators replaced by `fs`. */
  function WithForces(nodes: seq<Node>, fs: seq<Vec3>): (r: seq<Node>)
    requires |fs| == |nodes|
    ensures |r| == |nodes|
    ensures forall i :: 0 <= i < |nodes| ==> r[i] == nodes[i].(f := fs[i])
  {
    seq(|nodes|, i requires 0 <= i < |nodes| => nodes[i].(f := fs[i]))
  }

  /** Assembly leaves the accumulator of a node no element names as it was. */
  lemma AssembleUntouched(fs: seq<Vec3>, tets: seq<Tet>, cfs: seq<Corners>, i: nat)
    requires |cfs| == |tets| && i < |fs|
    requires forall k :: 0 <= k < |tets| ==> !Touches(tets[k], i)
    ensures Assemble(fs, tets, cfs)[i] == fs[i]
  {
    AssembleIsSum(fs, tets, cfs, i);
    UntouchedGetsNothing(tets, cfs, i);
  }

  /** Each node's force grows by exactly the sum of every element's contribution to it. */
  lemma ComputeForcesAddsContributions(m: Mesh, g: Measure, i: nat)
    requires WellFormed(m) && i < |m.nodes|
    ensures ComputeForces(m, g).nodes[i].f == Add(m.nodes[i].f, TotalContribution(m.tets, AllNodalForces(m, g), i))
  {
    AssembleIsSum(Forces(m.nodes), m.tets, AllNodalForces(m, g), i);
  }

  /** Element forces that each cancel add up to nothing. */
  lemma {:induction false} BalancedElementsSumToZero(cfs: seq<Corners>)
    requires forall k :: 0 <= k < |cfs| ==> CornerSum(cfs[k]) == Zero()
    ensures SumElements(cfs) == Zero()
    decreases |cfs|
  {
    if |cfs| > 0 {
      var n := |cfs| - 1;
      assert forall k :: 0 <= k < n ==> cfs[..n][k] == cfs[k];
      BalancedElementsSumToZero(cfs[..n]);
    }
  }

  /** Every entry equal to gravity: the sum is gravity times the count. */
  lemma {:induction false} GravitySum(fs: seq<Vec3>)
    requires forall i :: 0 <= i < |fs| ==> fs[i] == Gravity
    ensures SumVec(fs) == Scale(Gravity, |fs| as real)
    decreases |fs|
  {
    if |fs| > 0 {
      var n := |fs| - 1;
      assert forall i :: 0 <= i < n ==> fs[..n][i] == fs[i];
      GravitySum(fs[..n]);
    }
  }

  /** The element's nodes sit at its rest positions, all shifted by one vector. */
  ghost predicate AtShiftedRest(nodes: seq<Node>, t: Tet)
    requires TetIn(t, |nodes|)
  {
    exists shift :: PosCorners(nodes, t) == Translate(t.rest, shift)
  }

  /** An element at a shifted copy of its rest shape pushes its nodes with forces that cancel. */
  lemma RigidElementBalanced(nodes: seq<Node>, t: Tet, g: Measure)
    requires TetIn(t, |nodes|)
    requires AtShiftedRest(nodes, t)
    requires forall face :: ExactOn(g, FaceCross(t.rest, face))
    ensures CornerSum(NodalForces(nodes, t, g)) == Zero()
  {
    var shift :| PosCorners(nodes, t) == Translate(t.rest, shift);
    ElementForcesBalance(Stress(nodes, t), t.rest, shift, g);
  }

  /**
   * With every element at a shifted copy of its rest shape, the internal
   * forces cancel: after the reset and the assembly the node forces add up
   * to gravity once per node, whatever the velocities.
   */
  lemma RigidMeshFeelsOnlyGravity(m: Mesh, g: Measure)
    requires WellFormed(m)
    requires forall k :: 0 <= k < |m.tets| ==>
      AtShiftedRest(m.nodes, m.tets[k])
    requires forall k, face :: 0 <= k < |m.tets| ==> ExactOn(g, FaceCross(m.tets[k].rest, face))
    ensures SumVec(Forces(ComputeForces(ResetForces(m), g).nodes)) == Scale(Gravity, |m.nodes| as real)
  {
    var m0 := ResetForces(m);
    var cfs := AllNodalForces(m0, g);
    RigidElementsBalanced(m, g);
    BalancedElementsSumToZero(cfs);
    GravitySum(Forces(m0.nodes));
    AssembleTotal(Forces(m0.nodes), m0.tets, cfs);
    ForcesAfterCompute(m0, g);
  }

  /** After the reset, every element of a mesh at shifted rest shapes has forces that cancel. */
  lemma RigidElementsBalanced(m: Mesh, g: Measure)
    requires WellFormed(m)
    requires forall k :: 0 <= k < |m.tets| ==>
      AtShiftedRest(m.nodes, m.tets[k])
    requires forall k, face :: 0 <= k < |m.tets| ==> ExactOn(g, FaceCross(m.tets[k].rest, face))
    ensures forall k :: 0 <= k < |m.tets| ==> CornerSum(AllNodalForces(ResetForces(m), g)[k]) == Zero()
  {
    var m0 := ResetForces(m);
    forall k | 0 <= k < |m.tets|
      ensures CornerSum(AllNodalForces(m0, g)[k]) == Zero()
    {
      var t := m0.tets[k];
      assert PosCorners(m0.nodes, t) == PosCorners(m.nodes, t);
      RigidElementBalanced(m0.nodes, t, g);
    }
  }

  /** The force assembly's accumulators are the assembled element forces. */
  lemma ForcesAfterCompute(m: Mesh, g: Measure)
    requires WellFormed(m)
    ensures Forces(ComputeForces(m, g).nodes) == Assemble(Forces(m.nodes), m.tets, AllNodalForces(m, g))
  {
  }

  // ---------------------------------------------------------------------------
  // Flat arrays and the write-back

  /** Which node vector a flat array is read from or written to. */
  datatype Slot = Position | Velocity

  function Read(n: Node, s: Slot): Vec3 {
    match s
    case Position => n.pos
    case Velocity => n.vel
  }

  function Write(n: Node, s: Slot, v: Vec3): (r: Node)
    ensures Read(r, s) == v
  {
    match s
    case Position => n.(pos := v)
    case Velocity => n.(vel := v)
  }

  /** x, y, z of every vector in turn. */
  function Flatten(vs: seq<Vec3>): (r: seq<real>)
    ensures |r| == 3 * |vs|
  {
    seq(3 * |vs|, k requires 0 <= k < 3 * |vs| => Coord(vs[k / 3], k % 3))
  }

  /** Entries 3i, 3i+1 and 3i+2 belong to triple `i`, at offsets 0, 1 and 2. */
  lemma Triple(i: nat)
    ensures (3 * i) / 3 == i && (3 * i) % 3 == 0
    ensures (3 * i + 1) / 3 == i && (3 * i + 1) % 3 == 1
    ensures (3 * i + 2) / 3 == i && (3 * i + 2) % 3 == 2
  {
  }

  /** Every index is 3i + c for its triple `i` and offset `c`. */
  lemma Split3(k: nat)
    ensures k == 3 * (k / 3) + k % 3 && k % 3 < 3
  {
  }

  /** Vector `i` occupies entries 3i..3i+2 of the flat array. */
  lemma FlattenAt(vs: seq<Vec3>, i: nat)
    requires i < |vs|
    ensures var f := Flatten(vs);
      3 * i + 2 < |f| && f[3 * i] == vs[i].x && f[3 * i + 1] == vs[i].y && f[3 * i + 2] == vs[i].z
  {
    Triple(i);
  }

  /** Consecutive triples of a flat array as vectors. */
  function Unflatten(s: seq<real>): (r: seq<Vec3>)
    requires |s| % 3 == 0
    ensures |r| == |s| / 3
  {
    seq(|s| / 3, i requires 0 <= i < |s| / 3 => Vec3(s[3 * i], s[3 * i + 1], s[3 * i + 2]))
  }

  /** Regrouping a flattened sequence gives the vectors back. */
  lemma UnflattenFlatten(vs: seq<Vec3>)
    ensures Unflatten(Flatten(vs)) == vs
  {
    var v := Unflatten(Flatten(vs));
    forall i | 0 <= i < |vs|
      ensures v[i] == vs[i]
    {
      FlattenAt(vs, i);
    }
  }

  /** Flattening a regrouped array gives the array back. */
  lemma FlattenUnflatten(s: seq<real>)
    requires |s| % 3 == 0
    ensures Flatten(Unflatten(s)) == s
  {
    var u := Unflatten(s);
    var f := Flatten(u);
    forall j | 0 <= j < |s|
      ensures f[j] == s[j]
    {
      var i, c := j / 3, j % 3;
      Split3(j);
      assert f[j] == Coord(u[i], c);
      assert u[i] == Vec3(s[3 * i], s[3 * i + 1], s[3 * i + 2]);
    }
  }

  /** Flattening and regrouping into triples are inverse to each other. */
  lemma FlattenRoundTrip(vs: seq<Vec3>, s: seq<real>)
    requires |s| % 3 == 0
    ensures Unflatten(Flatten(vs)) == vs
    ensures Flatten(Unflatten(s)) == s
  {
    UnflattenFlatten(vs);
    FlattenUnflatten(s);
  }

  /** One vector of every node. */
  function Reads(nodes: seq<Node>, s: Slot): (r: seq<Vec3>)
    ensures |r| == |nodes|
  {
    seq(|nodes|, i requires 0 <= i < |nodes| => Read(nodes[i], s))
  }

  /** The flat array of one vector of every node, as the integrator receives it. */
  function Snapshot(nodes: seq<Node>, s: Slot): (r: seq<real>)
    ensures |r| == 3 * |nodes|
  {
    Flatten(Reads(nodes, s))
  }

  /** Nodes that agree on a slot have the same snapshot of it. */
  lemma SnapshotAgrees(a: seq<Node>, b: seq<Node>, s: Slot)
    requires |a| == |b|
    requires forall i :: 0 <= i < |a| ==> Read(a[i], s) == Read(b[i], s)
    ensures Snapshot(a, s) == Snapshot(b, s)
  {
    assert Reads(a, s) == Reads(b, s);
  }

  /** The write-back: node `i` takes entries 3i..3i+2, nodes past the array's end keep theirs. */
  function WriteBack(nodes: seq<Node>, flat: seq<real>, s: Slot): (r: seq<Node>)
    requires |flat| % 3 == 0 && |flat| / 3 <= |nodes|
    ensures |r| == |nodes|
    ensures forall i :: 0 <= i < |nodes| ==> r[i] == Write(nodes[i], s, Read(r[i], s))
  {
    var vs := Unflatten(flat);
    seq(|nodes|, i requires 0 <= i < |nodes| => if i < |vs| then Write(nodes[i], s, vs[i]) else nodes[i])
  }

  /**
   * The source's loop: for i = 0, 3, 6, ... below the array's length, node
   * i/3 takes the triple at i.
   */
  method UpdateVectors(nodes: seq<Node>, flat: seq<real>, s: Slot) returns (r: seq<Node>)
    requires |flat| % 3 == 0 && |flat| / 3 <= |nodes|
    ensures |r| == |nodes|
    ensures forall i :: 0 <= i < |flat| / 3 ==>
      r[i] == Write(nodes[i], s, Vec3(flat[3 * i], flat[3 * i + 1], flat[3 * i + 2]))
    ensures forall i :: |flat| / 3 <= i < |nodes| ==> r[i] == nodes[i]
  {
    r := nodes;
    var i := 0;
    while i < |flat|
      invariant 0 <= i <= |flat| && i % 3 == 0
      invariant |r| == |nodes|
      invariant forall j :: 0 <= j < i / 3 ==>
        r[j] == Write(nodes[j], s, Vec3(flat[3 * j], flat[3 * j + 1], flat[3 * j + 2]))
      invariant forall j :: i / 3 <= j < |nodes| ==> r[j] == nodes[j]
    {
      var i3 := i / 3;
      r := r[i3 := Write(r[i3], s, Vec3(flat[i], flat[i + 1], flat[i + 2]))];
      i := i + 3;
    }
  }

  /** The write-back as a function agrees entry by entry with the loop's contract. */
  lemma WriteBackEntries(nodes: seq<Node>, flat: seq<real>, s: Slot, i: nat)
    requires |flat| % 3 == 0 && |flat| / 3 <= |nodes| && i < |nodes|
    ensures i < |flat| / 3 ==> WriteBack(nodes, flat, s)[i] == Write(nodes[i], s, Vec3(flat[3 * i], flat[3 * i + 1], flat[3 * i + 2]))
    ensures |flat| / 3 <= i ==> WriteBack(nodes, flat, s)[i] == nodes[i]
  {
  }

  /** Writing back a node's own snapshot changes nothing. */
  lemma WriteBackOwnSnapshot(nodes: seq<Node>, s: Slot)
    ensures WriteBack(nodes, Snapshot(nodes, s), s) == nodes
  {
    var vs := Reads(nodes, s);
    UnflattenFlatten(vs);
    var r := WriteBack(nodes, Flatten(vs), s);
    forall i | 0 <= i < |nodes|
      ensures r[i] == nodes[i]
    {
      assert r[i] == Write(nodes[i], s, vs[i]);
      WriteOwn(nodes[i], s);
    }
  }

  /** Writing a node's own vector back changes nothing. */
  lemma WriteOwn(n: Node, s: Slot)
    ensures Write(n, s, Read(n, s)) == n
  {
  }

  /** Snapshotting after a full write-back gives the written array. */
  lemma SnapshotOfWritten(nodes: seq<Node>, flat: seq<real>, s: Slot)
    requires |flat| == 3 * |nodes|
    ensures Snapshot(WriteBack(nodes, flat, s), s) == flat
  {
    var r := WriteBack(nodes, flat, s);
    FlattenUnflatten(flat);
    var vs := Unflatten(flat);
    assert Reads(r, s) == vs;
  }

  /** A write-back leaves the other slot's snapshot as it was. */
  lemma SnapshotOfOther(nodes: seq<Node>, flat: seq<real>, s: Slot, other: Slot)
    requires |flat| == 3 * |nodes| && other != s
    ensures Snapshot(WriteBack(nodes, flat, s), other) == Snapshot(nodes, other)
  {
    var r := WriteBack(nodes, flat, s);
    forall i | 0 <= i < |r|
      ensures Read(r[i], other) == Read(nodes[i], other)
    {
      match s
      case Position =>
      case Velocity =>
    }
    SnapshotAgrees(r, nodes, other);
  }

  /** Snapshotting after a full write-back gives the written array; the other slot is untouched. */
  lemma SnapshotAfterWriteBack(nodes: seq<Node>, flat: seq<real>, s: Slot, other: Slot)
    requires |flat| == 3 * |nodes| && other != s
    ensures Snapshot(WriteBack(nodes, flat, s), s) == flat
    ensures Snapshot(WriteBack(nodes, flat, s), other) == Snapshot(nodes, other)
  {
    SnapshotOfWritten(nodes, flat, s);
    SnapshotOfOther(nodes, flat, s, other);
  }
}
