/**
 * The wireframe of a mesh: each tetrahedron's six edges as pairs of
 * endpoint coordinates, split into an interior list and a boundary list
 * when a boundary colour is given. An edge is a boundary edge when one of
 * the two faces it lies on has no neighbour.
 */
module View {
  import opened Wrappers
  import opened LinAlg
  import opened Topology
  import opened MeshOps

  // ---------------------------------------------------------------------------
  // Edges and their classification

  /** The six edges in drawing order: 1-2, 2-3, 3-4, 4-1, 1-3, 2-4. */
  function EdgeCorners(e: nat): (Corner, Corner)
    requires e < 6
  {
    if e == 0 then (C1, C2)
    else if e == 1 then (C2, C3)
    else if e == 2 then (C3, C4)
    else if e == 3 then (C4, C1)
    else if e == 4 then (C1, C3)
    else (C2, C4)
  }

  function EdgeSet(e: nat): set<Corner>
    requires e < 6
  {
    var (p, q) := EdgeCorners(e);
    {p, q}
  }

  /** The six edges are the six distinct pairs of corners. */
  lemma EdgesArePairs(e: nat, d: nat)
    requires e < 6 && d < 6
    ensures |EdgeSet(e)| == 2
    ensures EdgeSet(e) == EdgeSet(d) <==> e == d
  {
  }

  /** Every edge lies on exactly two faces. */
  lemma EdgeOnTwoFaces(e: nat)
    requires e < 6
    ensures |set face: Face | EdgeSet(e) <= CornersOf(face)| == 2
  {
    var on := set face: Face | EdgeSet(e) <= CornersOf(face);
    if e == 0 { assert on == {F142, F312}; }
    else if e == 1 { assert on == {F243, F312}; }
    else if e == 2 { assert on == {F243, F413}; }
    else if e == 3 { assert on == {F142, F413}; }
    else if e == 4 { assert on == {F312, F413}; }
    else { assert on == {F142, F243}; }
  }

  /** The reference reading: an edge is on the boundary when some face holding it has no neighbour. */
  predicate OnBoundary(t: Tet, e: nat)
    requires e < 6
  {
    exists face: Face :: EdgeSet(e) <= CornersOf(face) && t.neighbors.Get(face).None?
  }

  /**
   * The flags as the drawing code sets them: all clear, then for each face
   * without a neighbour, in the order 142, 243, 312, 413, the flags of its
   * three edges.
   */
  function BoundaryFlags(t: Tet): (r: seq<bool>)
    ensures |r| == 6
  {
    var b0 := [false, false, false, false, false, false];
    var b1 := if t.neighbors.f142.None? then b0[3 := true][5 := true][0 := true] else b0;
    var b2 := if t.neighbors.f243.None? then b1[5 := true][2 := true][1 := true] else b1;
    var b3 := if t.neighbors.f312.None? then b2[4 := true][0 := true][1 := true] else b2;
    if t.neighbors.f413.None? then b3[3 := true][4 := true][2 := true] else b3
  }

  /** The flags set by hand are exactly the edges on a face without a neighbour. */
  lemma BoundaryFlagsIff(t: Tet, e: nat)
    requires e < 6
    ensures BoundaryFlags(t)[e] <==> OnBoundary(t, e)
  {
    var r := BoundaryFlags(t);
    if e == 0 {
      assert EdgeSet(e) <= CornersOf(F142) && EdgeSet(e) <= CornersOf(F312);
      assert !(EdgeSet(e) <= CornersOf(F243)) && !(EdgeSet(e) <= CornersOf(F413));
    } else if e == 1 {
      assert EdgeSet(e) <= CornersOf(F243) && EdgeSet(e) <= CornersOf(F312);
      assert !(EdgeSet(e) <= CornersOf(F142)) && !(EdgeSet(e) <= CornersOf(F413));
    } else if e == 2 {
      assert EdgeSet(e) <= CornersOf(F243) && EdgeSet(e) <= CornersOf(F413);
      assert !(EdgeSet(e) <= CornersOf(F142)) && !(EdgeSet(e) <= CornersOf(F312));
    } else if e == 3 {
      assert EdgeSet(e) <= CornersOf(F142) && EdgeSet(e) <= CornersOf(F413);
      assert !(EdgeSet(e) <= CornersOf(F243)) && !(EdgeSet(e) <= CornersOf(F312));
    } else if e == 4 {
      assert EdgeSet(e) <= CornersOf(F312) && EdgeSet(e) <= CornersOf(F413);
      assert !(EdgeSet(e) <= CornersOf(F142)) && !(EdgeSet(e) <= CornersOf(F243));
    } else {
      assert EdgeSet(e) <= CornersOf(F142) && EdgeSet(e) <= CornersOf(F243);
      assert !(EdgeSet(e) <= CornersOf(F312)) && !(EdgeSet(e) <= CornersOf(F413));
    }
  }

  /** A tetrahedron with all four neighbours has no boundary edge; one with none has six. */
  lemma FlagsAtExtremes(t: Tet)
    ensures (forall face: Face :: t.neighbors.Get(face).Some?) ==> BoundaryFlags(t) == [false, false, false, false, false, false]
    ensures (forall face: Face :: t.neighbors.Get(face).None?) ==> BoundaryFlags(t) == [true, true, true, true, true, true]
  {
    assert t.neighbors.Get(F142) == t.neighbors.f142;
    assert t.neighbors.Get(F243) == t.neighbors.f243;
    assert t.neighbors.Get(F312) == t.neighbors.f312;
    assert t.neighbors.Get(F413) == t.neighbors.f413;
  }

  // ---------------------------------------------------------------------------
  // Emission

  /** The interior and boundary line lists, as flat coordinate arrays. */
  datatype Lines = Lines(plain: seq<real>, boundary: seq<real>)

  function Coords(v: Vec3): seq<real> { [v.x, v.y, v.z] }

  /** Edge `e` as six numbers: the first endpoint's position, then the second's. */
  function EdgeCoords(nodes: seq<Node>, t: Tet, e: nat): (r: seq<real>)
    requires TetIn(t, |nodes|) && e < 6
    ensures |r| == 6
    ensures Vec3(r[0], r[1], r[2]) == nodes[NodeAt(t, EdgeCorners(e).0)].pos
    ensures Vec3(r[3], r[4], r[5]) == nodes[NodeAt(t, EdgeCorners(e).1)].pos
  {
    var (p, q) := EdgeCorners(e);
    Coords(nodes[NodeAt(t, p)].pos) + Coords(nodes[NodeAt(t, q)].pos)
  }

  /** Append `xs` to the boundary list when `toBoundary`, otherwise to the interior list. */
  function Emit(acc: Lines, toBoundary: bool, xs: seq<real>): Lines {
    if toBoundary then acc.(boundary := acc.boundary + xs) else acc.(plain := acc.plain + xs)
  }

  /** No edge flagged: the choice used when the boundary is not coloured. */
  const NoBoundary: seq<bool> := [false, false, false, false, false, false]

  /**
   * One tetrahedron's edges, appended in drawing order. With a boundary
   * colour each edge goes to the list its flag picks; without one every
   * edge goes to the interior list.
   */
  function EmitTet(acc: Lines, nodes: seq<Node>, t: Tet, coloured: bool): Lines
    requires TetIn(t, |nodes|)
  {
    EmitEdges(acc, nodes, t, if coloured then BoundaryFlags(t) else NoBoundary, 6)
  }

  /**
   * The reference split: the coordinates of the first `n` edges whose
   * choice `pick` gives is `want`, in edge order.
   */
  function Selected(nodes: seq<Node>, t: Tet, pick: seq<bool>, want: bool, n: nat): (r: seq<real>)
    requires TetIn(t, |nodes|) && |pick| == 6 && n <= 6
  {
    if n == 0 then []
    else Selected(nodes, t, pick, want, n - 1) + (if pick[n - 1] == want then EdgeCoords(nodes, t, n - 1) else [])
  }

  /** Together the two selections hold every edge once: 6 numbers per edge. */
  lemma SelectedSplit(nodes: seq<Node>, t: Tet, pick: seq<bool>, n: nat)
    requires TetIn(t, |nodes|) && |pick| == 6 && n <= 6
    ensures |Selected(nodes, t, pick, true, n)| + |Selected(nodes, t, pick, false, n)| == 6 * n
  {
    if n > 0 {
      SelectedSplit(nodes, t, pick, n - 1);
    }
  }

  /** Selecting with every choice equal to `want` keeps all edges; with none equal, nothing. */
  lemma SelectedUniform(nodes: seq<Node>, t: Tet, pick: seq<bool>, want: bool, n: nat)
    requires TetIn(t, |nodes|) && |pick| == 6 && n <= 6
    ensures (forall e :: 0 <= e < 6 ==> pick[e] == want) ==> |Selected(nodes, t, pick, want, n)| == 6 * n
    ensures (forall e :: 0 <= e < 6 ==> pick[e] != want) ==> Selected(nodes, t, pick, want, n) == []
  {
    if n > 0 {
      SelectedUniform(nodes, t, pick, want, n - 1);
    }
  }

  /** The coloured emission of the first `n` edges, one edge after another. */
  function EmitEdges(acc: Lines, nodes: seq<Node>, t: Tet, pick: seq<bool>, n: nat): Lines
    requires TetIn(t, |nodes|) && |pick| == 6 && n <= 6
  {
    if n == 0 then acc
    else Emit(EmitEdges(acc, nodes, t, pick, n - 1), pick[n - 1], EdgeCoords(nodes, t, n - 1))
  }

  /** Edge by edge, each edge's coordinates join exactly the list its choice names. */
  lemma {:induction false} EmitEdgesSplits(acc: Lines, nodes: seq<Node>, t: Tet, pick: seq<bool>, n: nat)
    requires TetIn(t, |nodes|) && |pick| == 6 && n <= 6
    ensures EmitEdges(acc, nodes, t, pick, n) ==
      Lines(acc.plain + Selected(nodes, t, pick, false, n), acc.boundary + Selected(nodes, t, pick, true, n))
  {
    if n > 0 {
      EmitEdgesSplits(acc, nodes, t, pick, n - 1);
      var xs := EdgeCoords(nodes, t, n - 1);
      assert acc.plain + Selected(nodes, t, pick, false, n - 1) + (if pick[n - 1] == false then xs else [])
        == acc.plain + Selected(nodes, t, pick, false, n);
      assert acc.boundary + Selected(nodes, t, pick, true, n - 1) + (if pick[n - 1] == true then xs else [])
        == acc.boundary + Selected(nodes, t, pick, true, n);
    }
  }

  /**
   * With a boundary colour, each edge lands in exactly one list, in drawing
   * order: the interior list gains the unflagged edges and the boundary
   * list the flagged ones.
   */
  lemma EmitTetSplits(acc: Lines, nodes: seq<Node>, t: Tet)
    requires TetIn(t, |nodes|)
    ensures var b := BoundaryFlags(t);
      EmitTet(acc, nodes, t, true) ==
        Lines(acc.plain + Selected(nodes, t, b, false, 6), acc.boundary + Selected(nodes, t, b, true, 6))
  {
    EmitEdgesSplits(acc, nodes, t, BoundaryFlags(t), 6);
  }

  /** `Selected` over the first three edges, written out. */
  lemma Unfold3(nodes: seq<Node>, t: Tet, pick: seq<bool>, want: bool)
    requires TetIn(t, |nodes|) && |pick| == 6
    ensures Selected(nodes, t, pick, want, 3) ==
      (if pick[0] == want then EdgeCoords(nodes, t, 0) else []) + (if pick[1] == want then EdgeCoords(nodes, t, 1) else [])
      + (if pick[2] == want then EdgeCoords(nodes, t, 2) else [])
  {
    var s0, s1 := if pick[0] == want then EdgeCoords(nodes, t, 0) else [], if pick[1] == want then EdgeCoords(nodes, t, 1) else [];
    assert Selected(nodes, t, pick, want, 1) == s0;
    assert Selected(nodes, t, pick, want, 2) == s0 + s1;
  }

  /** `Selected` over all six edges, written out. */
  lemma Unfold6(nodes: seq<Node>, t: Tet, pick: seq<bool>, want: bool)
    requires TetIn(t, |nodes|) && |pick| == 6
    ensures Selected(nodes, t, pick, want, 6) ==
      (if pick[0] == want then EdgeCoords(nodes, t, 0) else []) + (if pick[1] == want then EdgeCoords(nodes, t, 1) else [])
      + (if pick[2] == want then EdgeCoords(nodes, t, 2) else []) + (if pick[3] == want then EdgeCoords(nodes, t, 3) else [])
      + (if pick[4] == want then EdgeCoords(nodes, t, 4) else []) + (if pick[5] == want then EdgeCoords(nodes, t, 5) else [])
  {
    Unfold3(nodes, t, pick, want);
    var s012 := Selected(nodes, t, pick, want, 3);
    var s3, s4 := if pick[3] == want then EdgeCoords(nodes, t, 3) else [], if pick[4] == want then EdgeCoords(nodes, t, 4) else [];
    assert Selected(nodes, t, pick, want, 4) == s012 + s3;
    assert Selected(nodes, t, pick, want, 5) == s012 + s3 + s4;
  }

  /** Without a boundary colour the six edges are appended to the interior list as one run. */
  lemma EmitTetUncoloured(acc: Lines, nodes: seq<Node>, t: Tet)
    requires TetIn(t, |nodes|)
    ensures EmitTet(acc, nodes, t, false) ==
      acc.(plain := acc.plain + EdgeCoords(nodes, t, 0) + EdgeCoords(nodes, t, 1) + EdgeCoords(nodes, t, 2)
                              + EdgeCoords(nodes, t, 3) + EdgeCoords(nodes, t, 4) + EdgeCoords(nodes, t, 5))
  {
    EmitEdgesSplits(acc, nodes, t, NoBoundary, 6);
    Unfold6(nodes, t, NoBoundary, false);
    SelectedUniform(nodes, t, NoBoundary, true, 6);
  }

  /** Either way a tetrahedron contributes 36 numbers (six edges of two points) in all. */
  lemma EmitTetCount(acc: Lines, nodes: seq<Node>, t: Tet, coloured: bool)
    requires TetIn(t, |nodes|)
    ensures var r := EmitTet(acc, nodes, t, coloured);
      |r.plain| + |r.boundary| == |acc.plain| + |acc.boundary| + 36
  {
    var pick := if coloured then BoundaryFlags(t) else NoBoundary;
    EmitEdgesSplits(acc, nodes, t, pick, 6);
    SelectedSplit(nodes, t, pick, 6);
  }

  /**
   * The boundary list grows only with a boundary colour and a missing
   * neighbour; a tetrahedron with no neighbour at all sends all six edges there.
   */
  lemma EmitTetBoundary(acc: Lines, nodes: seq<Node>, t: Tet, coloured: bool)
    requires TetIn(t, |nodes|)
    ensures !coloured ==> EmitTet(acc, nodes, t, coloured).boundary == acc.boundary
    ensures (forall face: Face :: t.neighbors.Get(face).Some?) ==> EmitTet(acc, nodes, t, coloured).boundary == acc.boundary
    ensures coloured && (forall face: Face :: t.neighbors.Get(face).None?) ==>
      EmitTet(acc, nodes, t, coloured).plain == acc.plain && |EmitTet(acc, nodes, t, coloured).boundary| == |acc.boundary| + 36
  {
    var pick := if coloured then BoundaryFlags(t) else NoBoundary;
    EmitEdgesSplits(acc, nodes, t, pick, 6);
    FlagsAtExtremes(t);
    SelectedUniform(nodes, t, pick, true, 6);
    SelectedUniform(nodes, t, pick, false, 6);
  }

  // ---------------------------------------------------------------------------
  // The whole mesh

  /** The line lists after drawing the first `n` tetrahedra, starting from empty lists. */
  function ViewPrefix(m: Mesh, coloured: bool, n: nat): Lines
    requires WellFormed(m) && n <= |m.tets|
  {
    if n == 0 then Lines([], [])
    else EmitTet(ViewPrefix(m, coloured, n - 1), m.nodes, m.tets[n - 1], coloured)
  }

  /** The line lists for the whole mesh. */
  function ViewMesh(m: Mesh, coloured: bool): Lines
    requires WellFormed(m)
  {
    ViewPrefix(m, coloured, |m.tets|)
  }

  /**
   * The mesh's lists hold 36 numbers per tetrahedron; without a boundary
   * colour the boundary list stays empty, and so it does when every
   * tetrahedron has all four neighbours.
   */
  lemma {:induction false} ViewPrefixFacts(m: Mesh, coloured: bool, n: nat)
    requires WellFormed(m) && n <= |m.tets|
    ensures var r := ViewPrefix(m, coloured, n);
      |r.plain| + |r.boundary| == 36 * n
    ensures !coloured ==> ViewPrefix(m, coloured, n).boundary == []
    ensures (forall k, face: Face :: 0 <= k < |m.tets| ==> m.tets[k].neighbors.Get(face).Some?) ==>
      ViewPrefix(m, coloured, n).boundary == []
  {
    if n > 0 {
      var acc := ViewPrefix(m, coloured, n - 1);
      var t := m.tets[n - 1];
      ViewPrefixFacts(m, coloured, n - 1);
      EmitTetCount(acc, m.nodes, t, coloured);
      EmitTetBoundary(acc, m.nodes, t, coloured);
    }
  }

  lemma ViewMeshFacts(m: Mesh, coloured: bool)
    requires WellFormed(m)
    ensures |ViewMesh(m, coloured).plain| + |ViewMesh(m, coloured).boundary| == 36 * |m.tets|
    ensures !coloured ==> ViewMesh(m, coloured).boundary == []
    ensures (forall k, face: Face :: 0 <= k < |m.tets| ==> m.tets[k].neighbors.Get(face).Some?) ==>
      ViewMesh(m, coloured).boundary == []
  {
    ViewPrefixFacts(m, coloured, |m.tets|);
  }
}
