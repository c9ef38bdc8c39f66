/**
 * One step of the main loop: the collider tests of the second scenario (a
 * closed box joined with a closed ellipsoid), the velocity and force flips
 * for nodes inside them, and the midpoint step made of two Euler steps that
 * both start from the snapshot taken before the first.
 */
module Simulation {
  import opened LinAlg
  import opened Element
  import opened Topology
  import opened MeshOps
  import opened Integrator

  // ---------------------------------------------------------------------------
  // Colliders

  function Abs(a: real): real { if a < 0.0 then -a else a }

  /** Inside the closed axis-aligned box with centre `c` and edge lengths `s`. */
  function SdBox(p: Vec3, c: Vec3, s: Vec3): bool {
    var lb := Vec3(c.x - s.x * 0.5, c.y - s.y * 0.5, c.z - s.z * 0.5);
    var hb := Vec3(c.x + s.x * 0.5, c.y + s.y * 0.5, c.z + s.z * 0.5);
    lb.x <= p.x && p.x <= hb.x &&
    lb.y <= p.y && p.y <= hb.y &&
    lb.z <= p.z && p.z <= hb.z
  }

  /** Inside the closed axis-aligned ellipsoid with centre `c` and semi-axes `s`. */
  function SdSphere(p: Vec3, c: Vec3, s: Vec3): bool
    requires s.x != 0.0 && s.y != 0.0 && s.z != 0.0
  {
    var a, b, d := (p.x - c.x) / s.x, (p.y - c.y) / s.y, (p.z - c.z) / s.z;
    a * a + b * b + d * d <= 1.0
  }

  function SdUnion(d1: bool, d2: bool): bool { d1 || d2 }

  const BoxPos: Vec3 := Vec3(0.0, 0.0, 0.0)
  const BoxSize: Vec3 := Vec3(6.0, 1.0, 5.0)
  const SpherePos: Vec3 := Vec3(0.0, 0.31, 0.0)
  const SphereSize: Vec3 := Vec3(2.0, 1.0, 2.0)

  /** The colliders of the second scenario: the box joined with the ellipsoid. */
  function InsideCollider(p: Vec3): bool {
    SdUnion(SdBox(p, BoxPos, BoxSize), SdSphere(p, SpherePos, SphereSize))
  }

  /** The box test is a bound on each coordinate's distance from the centre. */
  lemma SdBoxIsDistanceBound(p: Vec3, c: Vec3, s: Vec3)
    ensures SdBox(p, c, s) <==>
      Abs(p.x - c.x) <= s.x * 0.5 && Abs(p.y - c.y) <= s.y * 0.5 && Abs(p.z - c.z) <= s.z * 0.5
  {
  }

  /** A number whose square is at most 1 lies in [-1, 1]. */
  lemma UnitSquare(b: real)
    requires b * b <= 1.0
    ensures -1.0 <= b <= 1.0
  {
  }

  /**
   * The ellipsoid test accepts exactly the closed unit ball stretched by the
   * semi-axes: the point c + (s.x w.x, s.y w.y, s.z w.z) is inside iff |w| <= 1.
   */
  lemma SdSphereIsScaledBall(c: Vec3, s: Vec3, w: Vec3)
    requires s.x != 0.0 && s.y != 0.0 && s.z != 0.0
    ensures SdSphere(Vec3(c.x + s.x * w.x, c.y + s.y * w.y, c.z + s.z * w.z), c, s) <==> Dot(w, w) <= 1.0
  {
    var p := Vec3(c.x + s.x * w.x, c.y + s.y * w.y, c.z + s.z * w.z);
    assert (p.x - c.x) / s.x == w.x;
    assert (p.y - c.y) / s.y == w.y;
    assert (p.z - c.z) / s.z == w.z;
  }

  /** Each test is its own union with itself, and the union is symmetric. */
  lemma UnionLaws(a: bool, b: bool)
    ensures SdUnion(a, b) == SdUnion(b, a)
    ensures SdUnion(a, a) == a
    ensures SdUnion(a, b) <==> a || b
  {
  }

  /** Whatever collides lies in the height band -0.69 <= y <= 1.31. */
  lemma ColliderHeightBand(p: Vec3)
    ensures InsideCollider(p) ==> -0.69 <= p.y <= 1.31
  {
    if InsideCollider(p) && !SdBox(p, BoxPos, BoxSize) {
      var a, b, d := (p.x - 0.0) / 2.0, (p.y - 0.31) / 1.0, (p.z - 0.0) / 2.0;
      assert a * a + b * b + d * d <= 1.0;
      UnitSquare(b);
    }
  }

  /** The scene's start-up lift: every node is raised by 3.3 along y. */
  const SceneLift: Vec3 := Vec3(0.0, 3.3, 0.0)

  /** Any point above height -1.99 is clear of the colliders once lifted. */
  lemma LiftClearsColliders(p: Vec3)
    requires p.y > -1.99
    ensures !InsideCollider(Add(p, SceneLift))
  {
    ColliderHeightBand(Add(p, SceneLift));
  }

  /** The collider is mirror symmetric in x and in z. */
  lemma ColliderMirror(p: Vec3)
    ensures InsideCollider(Vec3(-p.x, p.y, p.z)) == InsideCollider(p)
    ensures InsideCollider(Vec3(p.x, p.y, -p.z)) == InsideCollider(p)
  {
  }

  /** The height band is tight: on the vertical axis the collider is exactly -0.69 <= y <= 1.31. */
  lemma ColliderBandOnAxis(y: real)
    ensures InsideCollider(Vec3(0.0, y, 0.0)) <==> -0.69 <= y <= 1.31
  {
    var p := Vec3(0.0, y, 0.0);
    ColliderHeightBand(p);
    if -0.69 <= y <= 1.31 {
      var b := (y - 0.31) / 1.0;
      assert -1.0 <= b <= 1.0;
      assert b * b <= 1.0 by { SquareBelowOne(b); }
      assert SdSphere(p, SpherePos, SphereSize);
    }
  }

  /** A number in [-1, 1] has square at most 1. */
  lemma SquareBelowOne(b: real)
    requires -1.0 <= b <= 1.0
    ensures b * b <= 1.0
  {
    if b >= 0.0 {
      assert b * b <= b * 1.0;
    } else {
      assert b * b <= (-b) * 1.0;
    }
  }

  // ---------------------------------------------------------------------------
  // Node state as the integrator sees it


  predicate Massive(nodes: seq<Node>) {
    forall i :: 0 <= i < |nodes| ==> nodes[i].mass != 0.0
  }

  /** A node inside the collider has its stored velocity reversed. */
  function Flip(n: Node, inside: Vec3 -> bool): Node {
    if inside(n.pos) then n.(vel := Neg(n.vel)) else n
  }

  function FlipInside(nodes: seq<Node>, inside: Vec3 -> bool): (r: seq<Node>)
    ensures |r| == |nodes|
    ensures forall i :: 0 <= i < |nodes| ==>
      && r[i] == nodes[i].(vel := r[i].vel)
      && (inside(nodes[i].pos) ==> r[i].vel == Neg(nodes[i].vel))
      && (!inside(nodes[i].pos) ==> r[i].vel == nodes[i].vel)
  {
    seq(|nodes|, i requires 0 <= i < |nodes| => Flip(nodes[i], inside))
  }

  /** Flipping twice restores every node. */
  lemma FlipInvolution(nodes: seq<Node>, inside: Vec3 -> bool)
    ensures FlipInside(FlipInside(nodes, inside), inside) == nodes
  {
    var r := FlipInside(FlipInside(nodes, inside), inside);
    forall i | 0 <= i < |nodes|
      ensures r[i] == nodes[i]
    {
      var n := nodes[i];
      assert Neg(Neg(n.vel)) == n.vel;
    }
  }

  /** Force over mass, reversed for a node inside the collider. */
  function Accel(n: Node, inside: Vec3 -> bool): Vec3
    requires n.mass != 0.0
  {
    Scale(if inside(n.pos) then Neg(n.f) else n.f, 1.0 / n.mass)
  }

  function Accels(nodes: seq<Node>, inside: Vec3 -> bool): (r: seq<Vec3>)
    requires Massive(nodes)
    ensures |r| == |nodes|
  {
    seq(|nodes|, i requires 0 <= i < |nodes| => Accel(nodes[i], inside))
  }

  /** The state x0: flat positions, then flat velocities. */
  function State(nodes: seq<Node>): (r: seq<seq<real>>)
    ensures |r| == 2 && |r[0]| == 3 * |nodes| && |r[1]| == 3 * |nodes|
  {
    [Snapshot(nodes, Position), Snapshot(nodes, Velocity)]
  }

  /** The derivative of the state: flat velocities, then flat accelerations. */
  function Derivative(nodes: seq<Node>, inside: Vec3 -> bool): (r: seq<seq<real>>)
    requires Massive(nodes)
    ensures |r| == 2 && |r[0]| == 3 * |nodes| && |r[1]| == 3 * |nodes|
  {
    [Snapshot(nodes, Velocity), Flatten(Accels(nodes, inside))]
  }

  predicate Fits(m: Mesh, x: seq<seq<real>>) {
    |x| == 2 && |x[0]| == 3 * |m.nodes| && |x[1]| == 3 * |m.nodes|
  }

  /** Write a state back: positions first, then velocities. */
  function WithState(m: Mesh, x: seq<seq<real>>): (r: Mesh)
    requires Fits(m, x)
    ensures r.tets == m.tets && |r.nodes| == |m.nodes|
    ensures forall i :: 0 <= i < |m.nodes| ==> r.nodes[i] == m.nodes[i].(pos := r.nodes[i].pos, vel := r.nodes[i].vel)
  {
    m.(nodes := WriteBack(WriteBack(m.nodes, x[0], Position), x[1], Velocity))
  }

  /** The force pipeline: reset to gravity, then assemble the element forces. */
  function Recompute(m: Mesh, g: Measure): (r: Mesh)
    requires WellFormed(m)
    ensures r.tets == m.tets && |r.nodes| == |m.nodes|
    ensures forall i :: 0 <= i < |m.nodes| ==> r.nodes[i] == m.nodes[i].(f := r.nodes[i].f)
  {
    ComputeForces(ResetForces(m), g)
  }

  /** A state written into the mesh, with the forces recomputed there. */
  function Evaluate(m: Mesh, g: Measure, x: seq<seq<real>>): (r: Mesh)
    requires WellFormed(m) && Fits(m, x)
    ensures r.tets == m.tets && |r.nodes| == |m.nodes|
    ensures forall i :: 0 <= i < |m.nodes| ==> r.nodes[i].mass == m.nodes[i].mass
    ensures forall i :: 0 <= i < |m.nodes| ==> r.nodes[i] == WithState(m, x).nodes[i].(f := r.nodes[i].f)
  {
    var v := WithState(m, x);
    assert forall i :: 0 <= i < |m.nodes| ==> v.nodes[i].mass == m.nodes[i].mass;
    var w := Recompute(v, g);
    assert forall i :: 0 <= i < |m.nodes| ==> w.nodes[i].mass == v.nodes[i].mass;
    w
  }

  /** Node `i` of a snapshot occupies entries 3i..3i+2. */
  lemma SnapshotAt(nodes: seq<Node>, s: Slot, i: nat)
    requires i < |nodes|
    ensures var f := Snapshot(nodes, s);
      f[3 * i] == Read(nodes[i], s).x && f[3 * i + 1] == Read(nodes[i], s).y && f[3 * i + 2] == Read(nodes[i], s).z
  {
    var vs := seq(|nodes|, j requires 0 <= j < |nodes| => Read(nodes[j], s));
    assert vs[i] == Read(nodes[i], s);
  }

  /** Writing a state into a mesh gives node `i` the position and velocity at entries 3i..3i+2. */
  lemma WithStateAt(m: Mesh, x: seq<seq<real>>, i: nat)
    requires Fits(m, x) && i < |m.nodes|
    ensures WithState(m, x).nodes[i] ==
      m.nodes[i].(pos := Vec3(x[0][3 * i], x[0][3 * i + 1], x[0][3 * i + 2]),
                  vel := Vec3(x[1][3 * i], x[1][3 * i + 1], x[1][3 * i + 2]))
  {
    WriteBackEntries(m.nodes, x[0], Position, i);
    WriteBackEntries(WriteBack(m.nodes, x[0], Position), x[1], Velocity, i);
  }

  /** Entry by entry, an Euler step on snapshots moves each node's vector along its derivative. */
  lemma EulerAt(x: seq<seq<real>>, d: seq<seq<real>>, h: real, j: nat, i: nat, base: Vec3, rate: Vec3)
    requires Covers(d, x) && j < |x| && 3 * i + 2 < |x[j]|
    requires x[j][3 * i] == base.x && x[j][3 * i + 1] == base.y && x[j][3 * i + 2] == base.z
    requires d[j][3 * i] == rate.x && d[j][3 * i + 1] == rate.y && d[j][3 * i + 2] == rate.z
    ensures var r := EulerStep(x, d, h);
      Vec3(r[j][3 * i], r[j][3 * i + 1], r[j][3 * i + 2]) == Add(base, Scale(rate, h))
  {
  }

  /** The state of `from` moved `h` along the derivative read off `rates`. */
  function Advanced(from: seq<Node>, rates: seq<Node>, inside: Vec3 -> bool, h: real): (r: seq<seq<real>>)
    requires Massive(rates) && |rates| == |from|
    ensures |r| == 2 && |r[0]| == 3 * |from| && |r[1]| == 3 * |from|
  {
    EulerStep(State(from), Derivative(rates, inside), h)
  }

  /**
   * Node by node, the advanced state holds the position moved along the
   * rate node's velocity and the velocity moved along its acceleration.
   */
  lemma AdvancedAt(from: seq<Node>, rates: seq<Node>, inside: Vec3 -> bool, h: real, i: nat)
    requires Massive(rates) && |rates| == |from| && i < |from|
    ensures var r := Advanced(from, rates, inside, h);
      && Vec3(r[0][3 * i], r[0][3 * i + 1], r[0][3 * i + 2]) == Add(from[i].pos, Scale(rates[i].vel, h))
      && Vec3(r[1][3 * i], r[1][3 * i + 1], r[1][3 * i + 2]) == Add(from[i].vel, Scale(Accel(rates[i], inside), h))
  {
    var x0, d := State(from), Derivative(rates, inside);
    SnapshotAt(from, Position, i);
    SnapshotAt(from, Velocity, i);
    SnapshotAt(rates, Velocity, i);
    FlattenAt(Accels(rates, inside), i);
    assert Accels(rates, inside)[i] == Accel(rates[i], inside);
    EulerAt(x0, d, h, 0, i, from[i].pos, rates[i].vel);
    EulerAt(x0, d, h, 1, i, from[i].vel, Accel(rates[i], inside));
  }

  // ---------------------------------------------------------------------------
  // The midpoint step

  /** Forces recomputed, then the velocities of nodes inside the collider reversed. */
  function Prepare(m: Mesh, g: Measure, inside: Vec3 -> bool): (r: Mesh)
    requires WellFormed(m)
    ensures r.tets == m.tets && |r.nodes| == |m.nodes|
    ensures forall i :: 0 <= i < |m.nodes| ==>
      r.nodes[i].pos == m.nodes[i].pos && r.nodes[i].mass == m.nodes[i].mass
    ensures forall i :: 0 <= i < |m.nodes| ==>
      && r.nodes[i].f == Recompute(m, g).nodes[i].f
      && r.nodes[i].vel == (if inside(m.nodes[i].pos) then Neg(m.nodes[i].vel) else m.nodes[i].vel)
  {
    var m1 := Recompute(m, g);
    m1.(nodes := FlipInside(m1.nodes, inside))
  }

  /**
   * The mesh at the midpoint, `half` (half the step) from the prepared
   * state, with forces recomputed there. Each node sits `half` along its
   * (possibly reversed) velocity, and that velocity has moved `half` along
   * the node's acceleration, which uses the forces found before the flip.
   */
  function MidpointMesh(m: Mesh, half: real, g: Measure, inside: Vec3 -> bool): (r: Mesh)
    requires WellFormed(m) && Massive(m.nodes)
    ensures r.tets == m.tets && |r.nodes| == |m.nodes|
    ensures forall i :: 0 <= i < |m.nodes| ==> r.nodes[i].mass == m.nodes[i].mass
    ensures forall i :: 0 <= i < |m.nodes| ==>
      var n := Prepare(m, g, inside).nodes[i];
      && n.mass != 0.0
      && r.nodes[i].pos == Add(m.nodes[i].pos, Scale(n.vel, half))
      && r.nodes[i].vel == Add(n.vel, Scale(Accel(n, inside), half))
    ensures WellFormed(r) && Recompute(r, g) == r
  {
    var p := Prepare(m, g, inside);
    assert Massive(p.nodes);
    var adv := Advanced(p.nodes, p.nodes, inside, half);
    var r := Evaluate(p, g, adv);
    BookkeepingIdempotent(r, WithState(p, adv));
    assert forall i :: 0 <= i < |m.nodes| ==>
      && r.nodes[i].pos == Add(m.nodes[i].pos, Scale(p.nodes[i].vel, half))
      && r.nodes[i].vel == Add(p.nodes[i].vel, Scale(Accel(p.nodes[i], inside), half)) by {
      forall i | 0 <= i < |m.nodes|
        ensures r.nodes[i].pos == Add(m.nodes[i].pos, Scale(p.nodes[i].vel, half))
        ensures r.nodes[i].vel == Add(p.nodes[i].vel, Scale(Accel(p.nodes[i], inside), half))
      {
        EvaluateAdvancedAt(p, g, inside, half, i);
      }
    }
    r
  }

  /**
   * The whole step: a full step from the prepared state along the
   * midpoint's derivative. Each node moves a full step along its midpoint
   * velocity, and its velocity is its (possibly reversed) starting velocity
   * plus a full step of the midpoint acceleration. Adaptive stepping is
   * off, so the step scale is 1 and `step` is used as it is.
   */
  function MidpointStep(m: Mesh, step: real, g: Measure, inside: Vec3 -> bool): (r: Mesh)
    requires WellFormed(m) && Massive(m.nodes)
    ensures r.tets == m.tets && |r.nodes| == |m.nodes|
    ensures forall i :: 0 <= i < |m.nodes| ==> r.nodes[i].mass == m.nodes[i].mass
    ensures forall i :: 0 <= i < |m.nodes| ==>
      var q := MidpointMesh(m, step * 0.5, g, inside).nodes[i];
      && q.mass != 0.0
      && r.nodes[i].pos == Add(m.nodes[i].pos, Scale(q.vel, step))
      && r.nodes[i].vel == Add(Prepare(m, g, inside).nodes[i].vel, Scale(Accel(q, inside), step))
  {
    var p := Prepare(m, g, inside);
    var md := MidpointMesh(m, step * 0.5, g, inside);
    assert Massive(md.nodes);
    var adv := Advanced(p.nodes, md.nodes, inside, step);
    var r := WithState(md, adv);
    assert forall i :: 0 <= i < |m.nodes| ==>
      && r.nodes[i].mass == md.nodes[i].mass
      && r.nodes[i].pos == Add(m.nodes[i].pos, Scale(md.nodes[i].vel, step))
      && r.nodes[i].vel == Add(p.nodes[i].vel, Scale(Accel(md.nodes[i], inside), step)) by {
      forall i | 0 <= i < |m.nodes|
        ensures r.nodes[i].mass == md.nodes[i].mass
        ensures r.nodes[i].pos == Add(m.nodes[i].pos, Scale(md.nodes[i].vel, step))
        ensures r.nodes[i].vel == Add(p.nodes[i].vel, Scale(Accel(md.nodes[i], inside), step))
      {
        AdvancedAt(p.nodes, md.nodes, inside, step, i);
        WithStateAt(md, adv, i);
      }
    }
    r
  }

  // ---------------------------------------------------------------------------
  // Per-node reading of the step

  /** After evaluation at an advanced state, each node holds the advanced position and velocity. */
  lemma EvaluateAdvancedAt(p: Mesh, g: Measure, inside: Vec3 -> bool, h: real, i: nat)
    requires WellFormed(p) && Massive(p.nodes) && i < |p.nodes|
    ensures var r := Evaluate(p, g, Advanced(p.nodes, p.nodes, inside, h));
      && r.nodes[i].pos == Add(p.nodes[i].pos, Scale(p.nodes[i].vel, h))
      && r.nodes[i].vel == Add(p.nodes[i].vel, Scale(Accel(p.nodes[i], inside), h))
  {
    var adv := Advanced(p.nodes, p.nodes, inside, h);
    AdvancedAt(p.nodes, p.nodes, inside, h, i);
    WithStateAt(p, adv, i);
  }

  // ---------------------------------------------------------------------------
  // The step as the textbook midpoint rule

  /**
   * The derivative of a state: write it into the mesh, recompute the forces
   * and read off velocities and (collider-reversed) accelerations.
   */
  function StateDerivative(m: Mesh, g: Measure, inside: Vec3 -> bool, x: seq<seq<real>>): (r: seq<seq<real>>)
    ensures Covers(r, x)
  {
    if WellFormed(m) && Massive(m.nodes) && Fits(m, x) then
      var v := WithState(m, x);
      assert forall i :: 0 <= i < |m.nodes| ==> v.nodes[i].mass == m.nodes[i].mass;
      var w := Recompute(v, g);
      assert Massive(w.nodes);
      var d := Derivative(w.nodes, inside);
      CoversPair(d, x);
      d
    else x
  }

  /** Two segments at least as long as the state's two segments cover it. */
  lemma CoversPair(d: seq<seq<real>>, x: seq<seq<real>>)
    requires |d| == 2 && |x| == 2 && |d[0]| >= |x[0]| && |d[1]| >= |x[1]|
    ensures Covers(d, x)
  {
  }

  /** Writing a whole state into two meshes that differ only in forces gives the same forces after the reset. */
  lemma ResetHidesForces(a: Mesh, b: Mesh, x: seq<seq<real>>)
    requires a.tets == b.tets && |a.nodes| == |b.nodes|
    requires forall i :: 0 <= i < |a.nodes| ==> a.nodes[i].mass == b.nodes[i].mass
    requires Fits(a, x)
    ensures ResetForces(WithState(a, x)) == ResetForces(WithState(b, x))
  {
    var wa, wb := WithState(a, x), WithState(b, x);
    FlattenRoundTrip([], x[0]);
    FlattenRoundTrip([], x[1]);
    forall i | 0 <= i < |a.nodes|
      ensures wa.nodes[i] == wb.nodes[i].(f := wa.nodes[i].f)
    {
      WriteBackEntries(a.nodes, x[0], Position, i);
      WriteBackEntries(b.nodes, x[0], Position, i);
      WriteBackEntries(WriteBack(a.nodes, x[0], Position), x[1], Velocity, i);
      WriteBackEntries(WriteBack(b.nodes, x[0], Position), x[1], Velocity, i);
    }
    BookkeepingIdempotent(wb, wa);
  }

  /** The state read back from a mesh a state was written into is that state. */
  lemma StateOfWithState(m: Mesh, x: seq<seq<real>>)
    requires Fits(m, x)
    ensures State(WithState(m, x).nodes) == x
  {
    var n1 := WriteBack(m.nodes, x[0], Position);
    SnapshotAfterWriteBack(m.nodes, x[0], Position, Velocity);
    SnapshotAfterWriteBack(n1, x[1], Velocity, Position);
  }

  /** Writing a mesh's own state into it changes nothing. */
  lemma WithOwnState(m: Mesh)
    ensures WithState(m, State(m.nodes)) == m
  {
    WriteBackOwnSnapshot(m.nodes, Position);
    WriteBackOwnSnapshot(m.nodes, Velocity);
  }

  /**
   * When no node starts inside the collider, the step is the midpoint rule
   * x0 + h * D(x0 + (h/2) * D(x0)) for the state derivative D, with both
   * Euler steps taken from the original state x0.
   */
  lemma NoContactIsMidpointRule(m: Mesh, step: real, g: Measure, inside: Vec3 -> bool)
    requires WellFormed(m) && Massive(m.nodes)
    requires forall i :: 0 <= i < |m.nodes| ==> !inside(m.nodes[i].pos)
    ensures State(MidpointStep(m, step, g, inside).nodes) == Midpoint(State(m.nodes), step, x => StateDerivative(m, g, inside, x))
  {
    var D := x => StateDerivative(m, g, inside, x);
    var h := step;
    var m1 := Recompute(m, g);
    var p := Prepare(m, g, inside);
    assert p == m1 by {
      forall i | 0 <= i < |m.nodes|
        ensures p.nodes[i] == m1.nodes[i]
      {
      }
    }
    var x0 := State(m.nodes);
    assert State(p.nodes) == x0 by {
      SnapshotAgrees(p.nodes, m.nodes, Position);
      SnapshotAgrees(p.nodes, m.nodes, Velocity);
    }
    WithOwnState(m);
    assert D(x0) == Derivative(p.nodes, inside);
    var mid := EulerStep(x0, Derivative(p.nodes, inside), step * 0.5);
    assert mid == EulerStep(x0, D(x0), h * 0.5);
    var md := MidpointMesh(m, step * 0.5, g, inside);
    ResetHidesForces(p, m, mid);
    assert md == Evaluate(m, g, mid);
    assert D(mid) == Derivative(md.nodes, inside);
    var res := EulerStep(x0, Derivative(md.nodes, inside), h);
    StateOfWithState(md, res);
  }

  // ---------------------------------------------------------------------------
  // Scene set-up

  /** Every node lifted by `shift`, as the scene setup does before the first step. */
  function Lift(m: Mesh, shift: Vec3): (r: Mesh)
    ensures r.tets == m.tets && |r.nodes| == |m.nodes|
    ensures forall i :: 0 <= i < |m.nodes| ==> r.nodes[i] == m.nodes[i].(pos := Add(m.nodes[i].pos, shift))
  {
    m.(nodes := seq(|m.nodes|, i requires 0 <= i < |m.nodes| => m.nodes[i].(pos := Add(m.nodes[i].pos, shift))))
  }

  /**
   * A freshly built mesh, lifted by any vector, is unstressed: every element
   * sits at a shifted copy of its rest shape and no node moves, provided the
   * inversion really inverts each element's rest edge matrix.
   */
  lemma LiftedMeshUnstressed(vertices: seq<Vec3>, indices: seq<seq<int>>, invert: Mat3 -> Mat3, shift: Vec3, k: nat)
    requires BuildMesh(vertices, indices, invert).Success?
    requires forall q :: 0 <= q < |indices| && ValidQuad(indices[q], |vertices|) ==>
      var rest := Corners(vertices[indices[q][0]], vertices[indices[q][1]], vertices[indices[q][2]], vertices[indices[q][3]]);
      IsInverse(EdgeMatrix(rest), invert(EdgeMatrix(rest)))
    requires k < |indices|
    ensures var m := Lift(BuildMesh(vertices, indices, invert).value, shift);
      && WellFormed(m)
      && PosCorners(m.nodes, m.tets[k]) == Translate(m.tets[k].rest, shift)
      && Stress(m.nodes, m.tets[k]) == ZeroMat()
  {
    var m0 := BuildMesh(vertices, indices, invert).value;
    var m := Lift(m0, shift);
    var t := m.tets[k];
    assert WellFormed(m) by {
      forall q | 0 <= q < |m.tets|
        ensures TetIn(m.tets[q], |m.nodes|)
      {
      }
    }
    assert PosCorners(m.nodes, t) == Translate(t.rest, shift);
    assert VelCorners(m.nodes, t) == Corners(Zero(), Zero(), Zero(), Zero());
    RigidElementUnstressed(t.rest, shift, Zero(), t.beta);
  }
}
