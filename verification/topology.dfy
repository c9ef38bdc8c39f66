/**
 * Tetrahedral mesh topology: one node per vertex, one tetrahedron per index
 * quadruple, a node -> incident-tetrahedra map, and for each of a
 * tetrahedron's four named faces the unique other tetrahedron holding all
 * three of the face's nodes. Nodes and tetrahedra are identified by their
 * position in the mesh's arrays.
 */
module Topology {
  import opened Wrappers
  import opened LinAlg
  import opened Element

  /** A point mass. */
  datatype Node = Node(pos: Vec3, vel: Vec3, f: Vec3, mass: real)

  /** The four corners of a tetrahedron, named after its nodes n1..n4. */
  datatype Corner = C1 | C2 | C3 | C4

  /** The four faces, named by their corners in the order the source lists them. */
  datatype Face = F142 | F243 | F312 | F413

  /** One value per face. */
  datatype FaceQuad<T> = FaceQuad(f142: T, f243: T, f312: T, f413: T) {
    function Get(face: Face): T {
      match face
      case F142 => f142
      case F243 => f243
      case F312 => f312
      case F413 => f413
    }
  }

  /** A tetrahedron: node indices, rest positions m1..m4, beta, and one neighbour slot per face. */
  datatype Tet = Tet(n1: nat, n2: nat, n3: nat, n4: nat,
                     rest: Corners, beta: Mat3,
                     neighbors: FaceQuad<Option<nat>>)

  datatype Mesh = Mesh(nodes: seq<Node>, tets: seq<Tet>)

  /** Why mesh construction fails. */
  datatype BuildError =
    | BadIndex(tet: nat)               // a quadruple too short or naming a missing vertex
    | NonManifold(tet: nat, face: Face) // a face shared by two or more other tetrahedra

  function NodeAt(t: Tet, c: Corner): nat {
    match c
    case C1 => t.n1
    case C2 => t.n2
    case C3 => t.n3
    case C4 => t.n4
  }

  /** The corners of each face, in the order used for the neighbour search. */
  function FaceCorners(face: Face): (Corner, Corner, Corner) {
    match face
    case F142 => (C1, C4, C2)
    case F243 => (C2, C4, C3)
    case F312 => (C3, C1, C2)
    case F413 => (C4, C1, C3)
  }

  function FaceNodes(t: Tet, face: Face): (nat, nat, nat) {
    var (p, q, r) := FaceCorners(face);
    (NodeAt(t, p), NodeAt(t, q), NodeAt(t, r))
  }

  function FaceSet(t: Tet, face: Face): set<nat> {
    var (a, b, c) := FaceNodes(t, face);
    {a, b, c}
  }

  predicate Touches(t: Tet, n: nat) {
    n == t.n1 || n == t.n2 || n == t.n3 || n == t.n4
  }

  predicate DistinctNodes(t: Tet) {
    t.n1 != t.n2 && t.n1 != t.n3 && t.n1 != t.n4 &&
    t.n2 != t.n3 && t.n2 != t.n4 && t.n3 != t.n4
  }

  /** The face a corner's force contribution comes from: the one not containing it. */
  function Opposite(c: Corner): Face {
    match c
    case C1 => F243
    case C2 => F413
    case C3 => F142
    case C4 => F312
  }

  function CornersOf(face: Face): set<Corner> {
    var (p, q, r) := FaceCorners(face);
    {p, q, r}
  }

  /** Each named face is the set of the three corners other than the one it is opposite to. */
  lemma OppositeIsComplement(c: Corner)
    ensures CornersOf(Opposite(c)) == {C1, C2, C3, C4} - {c}
  {
  }

  /** Every face is opposite exactly one corner, so the four faces are the four 3-subsets. */
  lemma FacesAreOpposites(face: Face)
    ensures exists c :: Opposite(c) == face
    ensures forall c, d :: Opposite(c) == face && Opposite(d) == face ==> c == d
  {
    match face
    case F142 => assert Opposite(C3) == face;
    case F243 => assert Opposite(C1) == face;
    case F312 => assert Opposite(C4) == face;
    case F413 => assert Opposite(C2) == face;
  }

  // ---------------------------------------------------------------------------
  // Construction of nodes and tetrahedra

  function NewNode(v: Vec3): Node {
    Node(v, Zero(), Zero(), 0.0)
  }

  /** At least four entries, the first four naming existing vertices. */
  predicate ValidQuad(q: seq<int>, vertexCount: nat) {
    |q| >= 4 && (forall i :: 0 <= i < 4 ==> 0 <= q[i] < vertexCount)
  }

  function EmptySlots(): FaceQuad<Option<nat>> {
    FaceQuad(None, None, None, None)
  }

  /** A fresh tetrahedron: rest positions snapshot the vertices, beta inverts their edge matrix. */
  function NewTet(vertices: seq<Vec3>, q: seq<int>, invert: Mat3 -> Mat3): (t: Tet)
    requires ValidQuad(q, |vertices|)
    ensures t.rest == Corners(vertices[q[0]], vertices[q[1]], vertices[q[2]], vertices[q[3]])
  {
    var rest := Corners(vertices[q[0]], vertices[q[1]], vertices[q[2]], vertices[q[3]]);
    Tet(q[0], q[1], q[2], q[3], rest, invert(EdgeMatrix(rest)), EmptySlots())
  }

  /** Tetrahedra for `indices[..n]`, failing at the first unusable quadruple. */
  function MakeTets(vertices: seq<Vec3>, indices: seq<seq<int>>, invert: Mat3 -> Mat3, n: nat): (r: Result<seq<Tet>, BuildError>)
    requires n <= |indices|
    ensures r.Success? <==> forall j :: 0 <= j < n ==> ValidQuad(indices[j], |vertices|)
    ensures r.Success? ==>
      && |r.value| == n
      && (forall j :: 0 <= j < n ==> r.value[j] == NewTet(vertices, indices[j], invert))
      && NodesIn(r.value, |vertices|)
    ensures r.Failure? ==>
      && r.error.BadIndex?
      && r.error.tet < n
      && !ValidQuad(indices[r.error.tet], |vertices|)
      && forall j :: 0 <= j < r.error.tet ==> ValidQuad(indices[j], |vertices|)
  {
    if n == 0 then Success([])
    else
      match MakeTets(vertices, indices, invert, n - 1)
      case Failure(e) => Failure(e)
      case Success(done) =>
        if !ValidQuad(indices[n - 1], |vertices|) then Failure(BadIndex(n - 1))
        else
          var v := done + [NewTet(vertices, indices[n - 1], invert)];
          assert forall j :: 0 <= j < n - 1 ==> v[j] == done[j];
          Success(v)
  }

  // ---------------------------------------------------------------------------
  // Node -> incident tetrahedra

  /** Append tetrahedron `k` to node `n`'s list. */
  function Push(inc: seq<seq<nat>>, n: nat, k: nat): (r: seq<seq<nat>>)
    requires n < |inc|
    ensures |r| == |inc|
    ensures forall m, u :: 0 <= m < |r| ==> (u in r[m] <==> u in inc[m] || (m == n && u == k))
  {
    inc[n := inc[n] + [k]]
  }

  predicate NodesIn(tets: seq<Tet>, nodeCount: nat) {
    forall k :: 0 <= k < |tets| ==>
      tets[k].n1 < nodeCount && tets[k].n2 < nodeCount && tets[k].n3 < nodeCount && tets[k].n4 < nodeCount
  }

  /**
   * The incidence map: every tetrahedron, in order, is appended to the lists
   * of its four nodes (twice to a node it names twice).
   */
  function Incidence(tets: seq<Tet>, nodeCount: nat): (inc: seq<seq<nat>>)
    requires NodesIn(tets, nodeCount)
    ensures |inc| == nodeCount
    ensures forall n: nat, u: nat :: n < nodeCount ==>
      (u in inc[n] <==> u < |tets| && Touches(tets[u], n))
    decreases |tets|
  {
    if |tets| == 0 then
      var none: seq<nat> := [];
      seq(nodeCount, _ => none)
    else
      var k := |tets| - 1;
      var t := tets[k];
      var prev := Incidence(tets[..k], nodeCount);
      assert forall u :: 0 <= u < k ==> tets[..k][u] == tets[u];
      Push(Push(Push(Push(prev, t.n1, k), t.n2, k), t.n3, k), t.n4, k)
  }

  // ---------------------------------------------------------------------------
  // Face-neighbour search

  /** `u` is another tetrahedron listed under all three nodes `a`, `b`, `c`. */
  predicate Candidate(inc: seq<seq<nat>>, t: nat, a: nat, b: nat, c: nat, u: nat) {
    u != t && a < |inc| && b < |inc| && c < |inc| &&
    u in inc[a] && u in inc[b] && u in inc[c]
  }

  /**
   * The candidates among tetrahedra `0..n`, in increasing order and each once.
   * (The source enumerates the de-duplicated union of the three lists; the
   * set of matches is the same, and only its size and sole element are used.)
   */
  function Matches(inc: seq<seq<nat>>, t: nat, a: nat, b: nat, c: nat, n: nat): (r: seq<nat>)
    ensures forall u: nat :: u in r <==> u < n && Candidate(inc, t, a, b, c, u)
    ensures forall i, j :: 0 <= i < j < |r| ==> r[i] < r[j]
  {
    if n == 0 then []
    else
      var prev := Matches(inc, t, a, b, c, n - 1);
      assert forall i :: 0 <= i < |prev| ==> prev[i] in prev;
      if Candidate(inc, t, a, b, c, n - 1) then prev + [n - 1] else prev
  }

  /** The neighbour across one face: none, the single match, or a non-manifold error. */
  function FindNeighbor(inc: seq<seq<nat>>, tets: seq<Tet>, t: nat, face: Face): (r: Result<Option<nat>, BuildError>)
    requires t < |tets|
    ensures r.Failure? ==> r.error == NonManifold(t, face)
    ensures r.Success? && r.value.Some? ==> r.value.value < |tets| && r.value.value != t
  {
    var (a, b, c) := FaceNodes(tets[t], face);
    var m := Matches(inc, t, a, b, c, |tets|);
    assert |m| > 0 ==> m[0] in m;
    if |m| > 1 then Failure(NonManifold(t, face))
    else if |m| == 1 then Success(Some(m[0]))
    else Success(None)
  }

  /** All four slots of tetrahedron `t`, searched in the order 142, 243, 312, 413. */
  function ResolveTet(inc: seq<seq<nat>>, tets: seq<Tet>, t: nat): (r: Result<FaceQuad<Option<nat>>, BuildError>)
    requires t < |tets|
    ensures r.Success? <==> forall face :: FindNeighbor(inc, tets, t, face).Success?
    ensures r.Success? ==> forall face :: r.value.Get(face) == FindNeighbor(inc, tets, t, face).value
    ensures r.Failure? ==> exists face :: FindNeighbor(inc, tets, t, face) == Failure(r.error)
  {
    var r142, r243 := FindNeighbor(inc, tets, t, F142), FindNeighbor(inc, tets, t, F243);
    var r312, r413 := FindNeighbor(inc, tets, t, F312), FindNeighbor(inc, tets, t, F413);
    if r142.Failure? then Failure(r142.error)
    else if r243.Failure? then Failure(r243.error)
    else if r312.Failure? then Failure(r312.error)
    else if r413.Failure? then Failure(r413.error)
    else Success(FaceQuad(r142.value, r243.value, r312.value, r413.value))
  }

  /**
   * Tetrahedra `0..n` with their neighbour slots filled, in order, failing at
   * the first non-manifold face.
   */
  function Resolve(inc: seq<seq<nat>>, tets: seq<Tet>, n: nat): (r: Result<seq<Tet>, BuildError>)
    requires n <= |tets|
    ensures r.Success? <==> forall j, face :: 0 <= j < n ==> FindNeighbor(inc, tets, j, face).Success?
    ensures r.Success? ==>
      && |r.value| == n
      && forall j :: 0 <= j < n ==>
           && r.value[j] == tets[j].(neighbors := r.value[j].neighbors)
           && forall face :: r.value[j].neighbors.Get(face) == FindNeighbor(inc, tets, j, face).value
    ensures r.Failure? ==> exists j, face :: 0 <= j < n && FindNeighbor(inc, tets, j, face) == Failure(r.error)
  {
    if n == 0 then Success([])
    else
      match Resolve(inc, tets, n - 1)
      case Failure(e) => Failure(e)
      case Success(done) =>
        match ResolveTet(inc, tets, n - 1)
        case Failure(e) => Failure(e)
        case Success(slots) =>
          var v := done + [tets[n - 1].(neighbors := slots)];
          assert forall j :: 0 <= j < n - 1 ==> v[j] == done[j];
          Success(v)
  }

  /**
   * Build the mesh: nodes with zero velocity and force, one tetrahedron per
   * quadruple (extra entries of a quadruple are ignored), then the face
   * neighbours. `invert` is the 3x3 inversion of the matrix library.
   */
  function BuildMesh(vertices: seq<Vec3>, indices: seq<seq<int>>, invert: Mat3 -> Mat3): (r: Result<Mesh, BuildError>)
    ensures r.Success? ==>
      && |r.value.nodes| == |vertices|
      && (forall i :: 0 <= i < |vertices| ==> r.value.nodes[i] == Node(vertices[i], Zero(), Zero(), 0.0))
      && |r.value.tets| == |indices|
      && forall k :: 0 <= k < |indices| ==>
           var t := r.value.tets[k];
           && ValidQuad(indices[k], |vertices|)
           && t.n1 == indices[k][0] && t.n2 == indices[k][1]
           && t.n3 == indices[k][2] && t.n4 == indices[k][3]
           && t.rest == Corners(vertices[t.n1], vertices[t.n2], vertices[t.n3], vertices[t.n4])
           && t.beta == invert(EdgeMatrix(t.rest))
  {
    var tets :- MakeTets(vertices, indices, invert, |indices|);
    var inc := Incidence(tets, |vertices|);
    var resolved :- Resolve(inc, tets, |tets|);
    Success(Mesh(seq(|vertices|, i requires 0 <= i < |vertices| => NewNode(vertices[i])), resolved))
  }
}
