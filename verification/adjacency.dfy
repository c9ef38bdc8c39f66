/**
 * What the face-neighbour search of mesh construction guarantees: a recorded
 * neighbour is another tetrahedron holding the face's three nodes and is the
 * only one; an empty slot means no other tetrahedron holds them; construction
 * fails exactly when some face is held by two or more others; and on meshes
 * whose tetrahedra have four distinct nodes, adjacency is symmetric.
 */
module Adjacency {
  import opened Wrappers
  import opened LinAlg
  import opened Element
  import opened Topology

  /** Tetrahedron `u` is another tetrahedron holding all three nodes of face `face` of `k`. */
  predicate Shares(tets: seq<Tet>, k: nat, face: Face, u: nat) {
    k < |tets| && u < |tets| && u != k &&
    var (a, b, c) := FaceNodes(tets[k], face);
    Touches(tets[u], a) && Touches(tets[u], b) && Touches(tets[u], c)
  }

  /** The slot is empty iff nobody shares the face, and holds `u` iff `u` is the only one who does. */
  ghost predicate SlotSound(tets: seq<Tet>, k: nat, face: Face)
    requires k < |tets|
  {
    match tets[k].neighbors.Get(face)
    case None => forall u :: !Shares(tets, k, face, u)
    case Some(u) => Shares(tets, k, face, u) && forall v :: Shares(tets, k, face, v) ==> v == u
  }

  ghost predicate AdjacencySound(m: Mesh) {
    forall k, face :: 0 <= k < |m.tets| ==> SlotSound(m.tets, k, face)
  }

  // The same notions read directly off the input quadruples.

  function CornerIndex(c: Corner): nat {
    match c
    case C1 => 0
    case C2 => 1
    case C3 => 2
    case C4 => 3
  }

  predicate QuadTouches(q: seq<int>, n: int) {
    |q| >= 4 && (n == q[0] || n == q[1] || n == q[2] || n == q[3])
  }

  /** Quadruple `u` holds every vertex index of face `face` of quadruple `k`. */
  predicate QuadShares(indices: seq<seq<int>>, k: nat, face: Face, u: nat) {
    k < |indices| && u < |indices| && u != k && |indices[k]| >= 4 &&
    var (p, q, r) := FaceCorners(face);
    QuadTouches(indices[u], indices[k][CornerIndex(p)]) &&
    QuadTouches(indices[u], indices[k][CornerIndex(q)]) &&
    QuadTouches(indices[u], indices[k][CornerIndex(r)])
  }

  predicate AllValid(vertexCount: nat, indices: seq<seq<int>>) {
    forall k :: 0 <= k < |indices| ==> ValidQuad(indices[k], vertexCount)
  }

  /** No face of any quadruple is held by two different other quadruples. */
  ghost predicate QuadManifold(indices: seq<seq<int>>) {
    forall k, face, u, v :: QuadShares(indices, k, face, u) && QuadShares(indices, k, face, v) ==> u == v
  }

  // ---------------------------------------------------------------------------

  /** A candidate of the incidence-map search is exactly a tetrahedron sharing the face. */
  lemma CandidateIffShares(tets: seq<Tet>, nodeCount: nat, k: nat, face: Face, u: nat)
    requires NodesIn(tets, nodeCount) && k < |tets|
    ensures var (a, b, c) := FaceNodes(tets[k], face);
      u < |tets| && Candidate(Incidence(tets, nodeCount), k, a, b, c, u) <==> Shares(tets, k, face, u)
  {
    var (a, b, c) := FaceNodes(tets[k], face);
    assert a < nodeCount && b < nodeCount && c < nodeCount by {
      match face
      case F142 =>
      case F243 =>
      case F312 =>
      case F413 =>
    }
  }

  /**
   * What a face search may return, given who shares the face: a
   * non-manifold error exactly when two others do, an empty slot exactly
   * when nobody does, and otherwise the one tetrahedron that does.
   */
  ghost predicate NeighborOutcome(tets: seq<Tet>, k: nat, face: Face, r: Result<Option<nat>, BuildError>) {
    && (r.Failure? <==> exists u, v :: u != v && Shares(tets, k, face, u) && Shares(tets, k, face, v))
    && (r.Failure? ==> r.error == NonManifold(k, face))
    && (r == Success(None) <==> forall u :: !Shares(tets, k, face, u))
    && (r.Success? && r.value.Some? ==>
          Shares(tets, k, face, r.value.value) &&
          forall v :: Shares(tets, k, face, v) ==> v == r.value.value)
  }

  /** What a single face search returns, in terms of the tetrahedra sharing the face. */
  lemma FindNeighborSpec(tets: seq<Tet>, nodeCount: nat, k: nat, face: Face)
    requires NodesIn(tets, nodeCount) && k < |tets|
    ensures NeighborOutcome(tets, k, face, FindNeighbor(Incidence(tets, nodeCount), tets, k, face))
  {
    var inc := Incidence(tets, nodeCount);
    var (a, b, c) := FaceNodes(tets[k], face);
    forall u: nat
      ensures u in Matches(inc, k, a, b, c, |tets|) <==> Shares(tets, k, face, u)
    {
      CandidateIffShares(tets, nodeCount, k, face, u);
    }
    SearchOutcome(tets, inc, k, face);
  }

  /** The face search gives the outcome above whenever its matches are exactly the sharers. */
  lemma SearchOutcome(tets: seq<Tet>, inc: seq<seq<nat>>, k: nat, face: Face)
    requires k < |tets|
    requires var (a, b, c) := FaceNodes(tets[k], face);
      forall u: nat :: u in Matches(inc, k, a, b, c, |tets|) <==> Shares(tets, k, face, u)
    ensures NeighborOutcome(tets, k, face, FindNeighbor(inc, tets, k, face))
  {
    var (a, b, c) := FaceNodes(tets[k], face);
    var m := Matches(inc, k, a, b, c, |tets|);
    if |m| > 1 {
      assert m[0] in m && m[1] in m && m[0] < m[1];
    } else if |m| == 1 {
      assert m[0] in m;
      forall v | Shares(tets, k, face, v)
        ensures v == m[0]
      {
        assert v in m;
      }
    } else {
      forall u
        ensures !Shares(tets, k, face, u)
      {
        assert u !in m;
      }
    }
    if exists u, v :: u != v && Shares(tets, k, face, u) && Shares(tets, k, face, v) {
      var u, v :| u != v && Shares(tets, k, face, u) && Shares(tets, k, face, v);
      assert u in m && v in m;
    }
  }

  /** The tetrahedra built from valid quadruples share faces exactly as the quadruples do. */
  lemma SharesIffQuadShares(vertices: seq<Vec3>, indices: seq<seq<int>>, invert: Mat3 -> Mat3,
                            tets: seq<Tet>, k: nat, face: Face, u: nat)
    requires |tets| == |indices|
    requires forall j :: 0 <= j < |indices| ==>
      ValidQuad(indices[j], |vertices|) &&
      tets[j].n1 == indices[j][0] && tets[j].n2 == indices[j][1] &&
      tets[j].n3 == indices[j][2] && tets[j].n4 == indices[j][3]
    ensures Shares(tets, k, face, u) <==> QuadShares(indices, k, face, u)
  {
  }

  /** The tetrahedra built from valid quadruples are manifold exactly when the quadruples are. */
  lemma ManifoldIffQuadManifold(vertices: seq<Vec3>, indices: seq<seq<int>>, invert: Mat3 -> Mat3, tets: seq<Tet>)
    requires |tets| == |indices|
    requires forall j :: 0 <= j < |indices| ==>
      ValidQuad(indices[j], |vertices|) &&
      tets[j].n1 == indices[j][0] && tets[j].n2 == indices[j][1] &&
      tets[j].n3 == indices[j][2] && tets[j].n4 == indices[j][3]
    ensures forall k, face, u :: Shares(tets, k, face, u) <==> QuadShares(indices, k, face, u)
    ensures Manifold(tets) <==> QuadManifold(indices)
  {
    forall k, face, u
      ensures Shares(tets, k, face, u) <==> QuadShares(indices, k, face, u)
    {
      SharesIffQuadShares(vertices, indices, invert, tets, k, face, u);
    }
  }

  /** Two tetrahedron sequences with the same node indices share faces alike. */
  lemma SharesOnlyNeedsNodes(tets: seq<Tet>, tets': seq<Tet>, k: nat, face: Face, u: nat)
    requires |tets| == |tets'|
    requires forall j :: 0 <= j < |tets| ==> tets'[j] == tets[j].(neighbors := tets'[j].neighbors)
    ensures Shares(tets, k, face, u) <==> Shares(tets', k, face, u)
  {
    if k < |tets| && u < |tets| {
      assert tets'[k] == tets[k].(neighbors := tets'[k].neighbors);
      assert tets'[u] == tets[u].(neighbors := tets'[u].neighbors);
    }
  }

  /** No face of any tetrahedron is held by two different other tetrahedra. */
  ghost predicate Manifold(tets: seq<Tet>) {
    forall k, face, u, v :: Shares(tets, k, face, u) && Shares(tets, k, face, v) ==> u == v
  }

  /**
   * The neighbour pass succeeds exactly on manifold tetrahedra, then keeps
   * every tetrahedron's nodes and fills each slot soundly; it fails with a
   * face that really is held by two others.
   */
  lemma ResolveCharacterised(tets: seq<Tet>, nodeCount: nat)
    requires NodesIn(tets, nodeCount)
    ensures var r := Resolve(Incidence(tets, nodeCount), tets, |tets|);
      && (r.Success? <==> Manifold(tets))
      && (r.Success? ==>
            && |r.value| == |tets|
            && (forall j :: 0 <= j < |tets| ==> r.value[j] == tets[j].(neighbors := r.value[j].neighbors))
            && forall k, face :: 0 <= k < |tets| ==> SlotSound(r.value, k, face))
      && (r.Failure? ==>
            && r.error.NonManifold? && r.error.tet < |tets|
            && exists u, v :: u != v && Shares(tets, r.error.tet, r.error.face, u)
                                     && Shares(tets, r.error.tet, r.error.face, v))
  {
    var inc := Incidence(tets, nodeCount);
    var resolved := Resolve(inc, tets, |tets|);
    if resolved.Failure? {
      var j, face :| 0 <= j < |tets| && FindNeighbor(inc, tets, j, face) == Failure(resolved.error);
      FindNeighborSpec(tets, nodeCount, j, face);
      assert !Manifold(tets);
    } else {
      var out := resolved.value;
      forall k, face, u, v | Shares(tets, k, face, u) && Shares(tets, k, face, v)
        ensures u == v
      {
        assert FindNeighbor(inc, tets, k, face).Success?;
        FindNeighborSpec(tets, nodeCount, k, face);
      }
      forall k, face | 0 <= k < |tets|
        ensures SlotSound(out, k, face)
      {
        FindNeighborSpec(tets, nodeCount, k, face);
        forall u
          ensures Shares(tets, k, face, u) <==> Shares(out, k, face, u)
        {
          SharesOnlyNeedsNodes(tets, out, k, face, u);
        }
        assert out[k].neighbors.Get(face) == FindNeighbor(inc, tets, k, face).value;
      }
    }
  }

  /**
   * Mesh construction succeeds exactly when every quadruple is usable and no
   * face is held by two other quadruples; a successful mesh records sound
   * neighbours; a non-manifold failure names a face that really has two.
   */
  lemma BuildMeshCharacterised(vertices: seq<Vec3>, indices: seq<seq<int>>, invert: Mat3 -> Mat3)
    ensures var r := BuildMesh(vertices, indices, invert);
      && (r.Success? <==> AllValid(|vertices|, indices) && QuadManifold(indices))
      && (r.Success? ==> AdjacencySound(r.value))
      && (r.Failure? && r.error.BadIndex? ==>
            && r.error.tet < |indices|
            && !ValidQuad(indices[r.error.tet], |vertices|)
            && forall j :: 0 <= j < r.error.tet ==> ValidQuad(indices[j], |vertices|))
      && (r.Failure? && r.error.NonManifold? ==>
            && AllValid(|vertices|, indices)
            && exists u, v :: u != v && QuadShares(indices, r.error.tet, r.error.face, u)
                                     && QuadShares(indices, r.error.tet, r.error.face, v))
  {
    var r := BuildMesh(vertices, indices, invert);
    var made := MakeTets(vertices, indices, invert, |indices|);
    if made.Failure? {
      assert !AllValid(|vertices|, indices);
      return;
    }
    var tets := made.value;
    assert AllValid(|vertices|, indices);
    var resolved := Resolve(Incidence(tets, |vertices|), tets, |tets|);
    ResolveCharacterised(tets, |vertices|);
    ManifoldIffQuadManifold(vertices, indices, invert, tets);
    if resolved.Success? {
      assert r.value.tets == resolved.value;
    } else {
      assert r.error == resolved.error;
      var u, v :| u != v && Shares(tets, r.error.tet, r.error.face, u) && Shares(tets, r.error.tet, r.error.face, v);
      assert QuadShares(indices, r.error.tet, r.error.face, u);
    }
  }

  /** Three distinct nodes of a tetrahedron with four distinct nodes always form one of its named faces. */
  lemma ThreeNodesFormFace(t: Tet, a: nat, b: nat, c: nat)
    requires DistinctNodes(t)
    requires a != b && a != c && b != c
    requires Touches(t, a) && Touches(t, b) && Touches(t, c)
    ensures exists g :: FaceSet(t, g) == {a, b, c}
  {
    if !(t.n1 in {a, b, c}) {
      assert FaceSet(t, F243) == {a, b, c};
    } else if !(t.n2 in {a, b, c}) {
      assert FaceSet(t, F413) == {a, b, c};
    } else if !(t.n3 in {a, b, c}) {
      assert FaceSet(t, F142) == {a, b, c};
    } else {
      assert FaceSet(t, F312) == {a, b, c};
    }
  }

  /**
   * Adjacency is symmetric: if `k` records `u` across a face, then `u`
   * records `k` across its own face holding the same three nodes.
   */
  lemma AdjacencySymmetric(m: Mesh, k: nat, face: Face)
    requires AdjacencySound(m)
    requires forall j :: 0 <= j < |m.tets| ==> DistinctNodes(m.tets[j])
    requires k < |m.tets| && m.tets[k].neighbors.Get(face).Some?
    ensures var u := m.tets[k].neighbors.Get(face).value;
      u < |m.tets| &&
      exists g :: m.tets[u].neighbors.Get(g) == Some(k) && FaceSet(m.tets[u], g) == FaceSet(m.tets[k], face)
  {
    var u := m.tets[k].neighbors.Get(face).value;
    assert SlotSound(m.tets, k, face);
    assert Shares(m.tets, k, face, u);
    var (a, b, c) := FaceNodes(m.tets[k], face);
    assert a != b && a != c && b != c by {
      assert DistinctNodes(m.tets[k]);
    }
    ThreeNodesFormFace(m.tets[u], a, b, c);
    var g :| FaceSet(m.tets[u], g) == {a, b, c};
    assert FaceSet(m.tets[k], face) == {a, b, c};
    var (x, y, z) := FaceNodes(m.tets[u], g);
    assert {x, y, z} == {a, b, c};
    assert Shares(m.tets, u, g, k) by {
      assert x in {a, b, c} && y in {a, b, c} && z in {a, b, c};
    }
    assert SlotSound(m.tets, u, g);
  }

  /** A mesh made of one tetrahedron has no neighbours: all four faces are boundary. */
  lemma SingleTetIsAllBoundary(vertices: seq<Vec3>, q: seq<int>, invert: Mat3 -> Mat3)
    requires ValidQuad(q, |vertices|)
    ensures var r := BuildMesh(vertices, [q], invert);
      r.Success? && |r.value.tets| == 1 &&
      forall face :: r.value.tets[0].neighbors.Get(face) == None
  {
    var indices := [q];
    BuildMeshCharacterised(vertices, indices, invert);
    assert AllValid(|vertices|, indices);
    assert QuadManifold(indices);
    var mesh := BuildMesh(vertices, indices, invert).value;
    forall face
      ensures mesh.tets[0].neighbors.Get(face) == None
    {
      assert SlotSound(mesh.tets, 0, face);
    }
  }
}
