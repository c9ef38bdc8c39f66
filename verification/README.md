# Tetrahedral finite elements: a Dafny model

This project models the simulation core of a small finite-element
program. The program loads a tetrahedral mesh from a text file and lets it
fall onto colliders. It integrates the nodes with a midpoint rule built
from explicit Euler steps. Each element's force comes from a Green strain
with a linear elastic law and a Kelvin-Voigt viscous law.

The model covers these parts:

- **Mesh construction** (`topology.dfy`, `adjacency.dfy`). There is one node
  per vertex and one tetrahedron per index quadruple. A node-to-tetrahedra
  incidence map is built. For each of the four named faces 142, 243, 312
  and 413, the search finds the single other tetrahedron holding the face's
  three nodes. When there is none the face is a boundary face. When there
  are two or more, construction fails. Nodes and tetrahedra are identified
  by their index.
- **Element kinematics and stress** (`element.dfy`). This covers:
  - the edge matrices P, V and B, taken relative to node 4;
  - F = P beta and F_dot = V beta;
  - the strain F^T F - I and the strain rate F^T F_dot + F_dot^T F;
  - sigma = F (lambda tr(E) I + 2 mu E + phi tr(E_dot) I + 2 psi E_dot),
    with lambda = mu = 200 and phi = psi = 1.
- **Per-node bookkeeping** (`meshops.dfy`). This covers:
  - unit masses;
  - the force reset to gravity (0, -9.8, 0);
  - force assembly, where corner i receives sigma times the material normal
    times the world area of the face opposite it;
  - the write-back of flat integrator arrays into node positions and
    velocities.
- **The Euler step** (`integrator.dfy`). It exists both as a function and as
  the source's nested loop. The midpoint rule is built from it.
- **One step of the main loop** (`simulation.dfy`). This covers:
  - the second scenario's colliders, a closed box joined with a closed
    ellipsoid;
  - the reversal of velocity and force for nodes inside the colliders;
  - the midpoint step, whose two Euler steps both start from the state
    taken before the first.
- **Wireframe edges** (`view.dfy`). Each of a tetrahedron's six edges is
  classed as boundary or interior from its empty neighbour slots. The edges
  are then emitted to the two coordinate lists.
- **The mesh text parser** (`parser.dfy`). It follows JavaScript's `split`,
  whitespace class, `trim` and regular-expression replacements. Number
  parsing is a pair of function parameters.

Vectors are `real` triples. Matrices are 9-entry row-major records in
`linalg.dfy`. Row i of an edge matrix is the edge from node 4 to node i, as
in the flat arrays the program builds. The matrix library's products are
read as row-major; "## Left out" says what that reading means for the
deformation gradient.

## Model

| member | source | states |
|---|---|---|
| Topology.BuildMesh | src/geo/tetrahedralmesh.ts:23-88 | On success: one node per vertex, in order, with that position and zero velocity, force and mass. One tetrahedron per quadruple, in order. Its n1..n4 are the quadruple's first four indices. Its rest corners m1..m4 are the vertices at those indices, the snapshot the tetrahedron constructor takes (src/geo/atom_tetrahedron.ts:43-58). Its beta is the inversion of their edge matrix. |
| Topology.MakeTets | src/geo/tetrahedralmesh.ts:36-49 | Creating the tetrahedra succeeds iff every quadruple names four existing vertices. A failure points at the first quadruple that does not. |
| Topology.Incidence | src/geo/tetrahedralmesh.ts:33-49 | Tetrahedron u is listed under node n iff one of u's four corners is n. |
| Topology.Matches | src/geo/tetrahedralmesh.ts:53-62 | The matches are exactly the other tetrahedra listed under all three face nodes, each once, in increasing order. |
| Topology.FindNeighbor | src/geo/tetrahedralmesh.ts:52-65 | A failure is the non-manifold error for this tetrahedron and face. A found neighbour is an existing tetrahedron other than this one. Which one is found, and when none or an error results, is stated against the sharing relation by `Adjacency.FindNeighborSpec`. |
| Topology.ResolveTet | src/geo/tetrahedralmesh.ts:68-82 | The four slots are filled by the searches for faces 142, 243, 312 and 413. The result fails iff one of those searches fails. |
| Topology.Resolve | src/geo/tetrahedralmesh.ts:51-83 | The neighbour pass succeeds iff every face search of every tetrahedron succeeds. It keeps each tetrahedron's nodes and fills its slots from those searches. |
| Topology.OppositeIsComplement | src/geo/tetrahedralmesh.ts:129-137 | The face whose force reaches corner i holds the three other corners: n1 gets 243, n2 gets 413, n3 gets 142 and n4 gets 312. |
| Topology.FacesAreOpposites | src/geo/tetrahedralmesh.ts:68-82 | Each of the four named faces is opposite exactly one corner. So the named faces are the four 3-subsets of the corners. |
| Adjacency.CandidateIffShares | src/geo/tetrahedralmesh.ts:53-62 | A tetrahedron is a candidate in the incidence-map search iff it is another tetrahedron holding all three nodes of the face. |
| Adjacency.FindNeighborSpec | src/geo/tetrahedralmesh.ts:52-65 | A face search fails iff two or more other tetrahedra hold the face. It returns no neighbour iff none does. Otherwise it returns the single one that does, which is never the tetrahedron itself. |
| Adjacency.SearchOutcome | src/geo/tetrahedralmesh.ts:58-65 | When the matches are exactly the tetrahedra sharing the face, the search gives the outcome above. |
| Adjacency.SharesIffQuadShares | src/geo/tetrahedralmesh.ts:36-49 | Built tetrahedra share a face exactly as their index quadruples do. |
| Adjacency.ManifoldIffQuadManifold | src/geo/tetrahedralmesh.ts:63 | No face of the built tetrahedra is held by two others iff the same holds for the quadruples. |
| Adjacency.SharesOnlyNeedsNodes | src/geo/tetrahedralmesh.ts:69-82 | Filling neighbour slots does not change which tetrahedra share a face. |
| Adjacency.ResolveCharacterised | src/geo/tetrahedralmesh.ts:51-83 | The neighbour pass succeeds iff no face is held by two others. On success every slot is sound: it names the one sharer, or it is empty and there is no sharer. A failure names a face held by two others. |
| Adjacency.BuildMeshCharacterised | src/geo/tetrahedralmesh.ts:23-88 | Construction succeeds iff every quadruple is usable and no face is held by two other quadruples. A successful mesh has sound slots. A bad-index failure names the first bad quadruple. A non-manifold failure names a face with two other holders. |
| Adjacency.ThreeNodesFormFace | src/geo/tetrahedralmesh.ts:68-82 | When a tetrahedron has four distinct nodes, any three of its nodes form one of its four named faces. |
| Adjacency.AdjacencySymmetric | src/geo/tetrahedralmesh.ts:69-82 | Take a sound mesh whose tetrahedra have distinct nodes. If k records u across a face, u records k across the face of u holding the same three nodes. |
| Adjacency.SingleTetIsAllBoundary | src/geo/tetrahedralmesh.ts:52-65 | A mesh with a single quadruple builds, and all four neighbour slots are empty. |
| Element.EdgeMatrixTranslation | src/geo/atom_tetrahedron.ts:70-76 | Moving all four nodes by one vector leaves P unchanged. |
| Element.EdgeMatrixZeroIff | src/geo/atom_tetrahedron.ts:78-84 | The edge matrix is zero iff all four corners coincide. So equal velocities give V = 0, and only they do. |
| Element.GradientAtRest | src/geo/atom_tetrahedron.ts:60-108 | At the rest positions P equals B. So F = P beta is the identity when beta inverts B. |
| Element.GradientReproducesEdges | src/geo/atom_tetrahedron.ts:106-108 | F B = P when beta inverts B, as a product of row-major matrices. With edges stored as rows this does not say that F maps each rest edge onto the current one; see "## Left out". |
| Element.StrainSymmetric | src/geo/atom_tetrahedron.ts:168-172 | The strain F^T F - I and the strain rate F^T F_dot + F_dot^T F are symmetric. |
| Element.StrainRotationInvariant | src/geo/atom_tetrahedron.ts:168 | The strain is unchanged when F is multiplied on the left by an orthogonal matrix. |
| Element.SigmaSplits | src/geo/atom_tetrahedron.ts:184-193 | sigma = F times the elastic stress plus F times the viscous stress. |
| Element.SigmaWithoutRate | src/geo/atom_tetrahedron.ts:169-193 | When F_dot = 0 the viscous term vanishes, and sigma = F (lambda tr(E) I + 2 mu E). |
| Element.StrainOfIdentity | src/geo/atom_tetrahedron.ts:167-168 | F = I has zero strain. |
| Element.SigmaAtRest | src/geo/atom_tetrahedron.ts:164-193 | When F = I and F_dot = 0, sigma is the zero matrix. |
| Element.UniformStretchStress | src/geo/atom_tetrahedron.ts:179-193 | For F = sI and F_dot = 0, sigma = 1000 s (s^2 - 1) I, where 1000 = 3 lambda + 2 mu with the source's constants. |
| Element.UniformStretchStrain | src/geo/atom_tetrahedron.ts:168 | F = sI has strain (s^2 - 1) I. |
| Element.UniformElastic | src/geo/atom_tetrahedron.ts:179-187 | The elastic law maps eI to 1000 e I, using lambda = mu = 200. |
| Element.UniformViscous | src/geo/atom_tetrahedron.ts:181-191 | The viscous law maps eI to 5 e I, using phi = psi = 1. |
| Element.UniformRate | src/geo/atom_tetrahedron.ts:169-172 | At F = I the strain rate of F_dot = dI is 2dI. |
| Element.UniformRateStress | src/geo/atom_tetrahedron.ts:164-193 | At F = I and F_dot = dI, sigma = 10 d I. |
| Element.RigidElementUnstressed | src/geo/atom_tetrahedron.ts:70-193 | An element at a translated copy of its rest shape, with all four nodes at one velocity, has sigma = 0. |
| MeshOps.ComputeMass | src/geo/tetrahedralmesh.ts:90-93 | Every node's mass becomes 1. Positions, velocities, forces and tetrahedra are unchanged. |
| MeshOps.ResetForces | src/geo/tetrahedralmesh.ts:104-106 | Every node's force becomes exactly (0, -9.8, 0), whatever it was. Nothing else changes. |
| MeshOps.BookkeepingIdempotent | src/geo/tetrahedralmesh.ts:90-106 | Setting the masses twice equals setting them once. The force reset gives the same mesh whatever the earlier forces were. |
| MeshOps.FaceForces | src/geo/tetrahedralmesh.ts:128-132 | Each corner is pushed by the one face that does not contain it. `MeshOps.FaceForcesByCorner` spells this out: n1 receives the force of face 243, n2 of face 413, n3 of face 142 and n4 of face 312. |
| MeshOps.FaceForcesByCorner | src/geo/tetrahedralmesh.ts:128-132 | Corner n1 receives the force of face 243, n2 of face 413, n3 of face 142 and n4 of face 312, as the four lines of compute_forces pair them. |
| MeshOps.FaceCrossesClose | src/geo/atom_tetrahedron.ts:128-161 | The four face cross products of any tetrahedron, with the edges each face uses, add up to zero. |
| MeshOps.FaceCrossTranslation | src/geo/atom_tetrahedron.ts:146-161 | Translating all corners leaves every face cross product unchanged. |
| MeshOps.FaceForceAtRest | src/geo/tetrahedralmesh.ts:129-132 | At a translated rest shape, a face's force is minus sigma times the face cross product, provided unit vector times length gives that cross product back. |
| MeshOps.ElementForcesBalance | src/geo/tetrahedralmesh.ts:127-137 | For any sigma, an element at a translated rest shape pushes its four nodes with forces that sum to zero. |
| MeshOps.ApplyInOrderAdds | src/geo/tetrahedralmesh.ts:134-137 | The four in-order additions change node i's force by the corner forces of exactly the corners naming i. |
| MeshOps.ApplyInOrderIsApplyElement | src/geo/tetrahedralmesh.ts:134-137 | The four in-order additions equal the per-node application of the element's corner forces. |
| MeshOps.AssembleIsSum | src/geo/tetrahedralmesh.ts:127-138 | After assembly, each node's force is its starting force plus the sum of every element's contribution to it. |
| MeshOps.UntouchedGetsNothing | src/geo/tetrahedralmesh.ts:127-138 | A node that no element names receives a zero contribution. |
| MeshOps.AssembleUntouched | src/geo/tetrahedralmesh.ts:127-138 | A node that no element names keeps its force through assembly. |
| MeshOps.SumVecAddAt | src/geo/tetrahedralmesh.ts:134-137 | Adding a vector to one node's force adds it to the total force. |
| MeshOps.ApplyElementTotal | src/geo/tetrahedralmesh.ts:134-137 | One element adds its four corner forces to the total force. |
| MeshOps.AssembleTotal | src/geo/tetrahedralmesh.ts:124-141 | Assembly adds exactly the sum of all elements' corner forces to the total force. |
| MeshOps.ComputeForces | src/geo/tetrahedralmesh.ts:124-141 | Force assembly over the mesh changes only forces. A node that no element names keeps its force. |
| MeshOps.ComputeForcesAddsContributions | src/geo/tetrahedralmesh.ts:124-141 | Each node's force grows by exactly the sum of every element's contribution to it. |
| MeshOps.ForcesAfterCompute | src/geo/tetrahedralmesh.ts:124-141 | The mesh's forces after assembly are the assembled element forces. |
| MeshOps.BalancedElementsSumToZero | src/geo/tetrahedralmesh.ts:127-138 | When each element's corner forces cancel, all of them together sum to zero. |
| MeshOps.GravitySum | src/geo/tetrahedralmesh.ts:105-106 | After the reset, the total force is gravity times the node count. |
| MeshOps.RigidElementBalanced | src/geo/tetrahedralmesh.ts:127-137 | An element whose nodes sit at a translated rest shape gets corner forces that cancel. |
| MeshOps.RigidElementsBalanced | src/geo/tetrahedralmesh.ts:103-137 | After the reset, every element of a mesh at translated rest shapes has corner forces that cancel. |
| MeshOps.RigidMeshFeelsOnlyGravity | src/geo/tetrahedralmesh.ts:103-141 | With every element at a translated rest shape, the force reset followed by assembly leaves a total force of gravity times the node count, whatever the velocities. |
| MeshOps.Write | src/geo/tetrahedralmesh.ts:146-153 | Writing a vector into a node's position or velocity slot stores exactly that vector there. |
| MeshOps.UnflattenFlatten | src/index.ts:253 | Regrouping a flattened vector list into triples gives the list back. |
| MeshOps.FlattenUnflatten | src/geo/tetrahedralmesh.ts:143-148 | Flattening the triples of an array whose length is a multiple of 3 gives the array back. |
| MeshOps.FlattenRoundTrip | src/geo/tetrahedralmesh.ts:143-155 | Flattening and regrouping into triples are inverse to each other. |
| MeshOps.WriteBack | src/geo/tetrahedralmesh.ts:143-155 | The write-back changes only the named slot of each node. |
| MeshOps.UpdateVectors | src/geo/tetrahedralmesh.ts:143-155 | The source's loop sets node i from entries 3i, 3i+1 and 3i+2 for every i below len/3. Nodes at index len/3 or above are unchanged. |
| MeshOps.WriteBackEntries | src/geo/tetrahedralmesh.ts:143-155 | The functional write-back agrees entry by entry with the loop's contract. |
| MeshOps.WriteBackOwnSnapshot | src/geo/tetrahedralmesh.ts:143-155 | Writing back a mesh's own flat array changes nothing. |
| MeshOps.SnapshotAfterWriteBack | src/geo/tetrahedralmesh.ts:143-155 | After a full write-back, the slot's flat array is the written array, and the other slot's array is unchanged. |
| MeshOps.SnapshotOfWritten | src/geo/tetrahedralmesh.ts:143-155 | After a full write-back, reading the slot gives the written array. |
| MeshOps.SnapshotOfOther | src/geo/tetrahedralmesh.ts:143-155 | A write-back leaves the other slot's flat array unchanged. |
| Integrator.EulerStepLoop | src/math/integrator_euler.ts:1-15 | The nested loops give a result with x0's segment count and segment lengths, where result[j][i] = x0[j][i] + step * delta_x[j][i]. This is the contract of the function `Integrator.EulerStep`, which the rest of the model calls and about which the Euler laws below are stated. |
| Integrator.EulerZeroStep | src/math/integrator_euler.ts:8 | A zero step returns x0. |
| Integrator.EulerZeroDerivative | src/math/integrator_euler.ts:8 | An all-zero delta_x returns x0. |
| Integrator.EulerCompose | src/math/integrator_euler.ts:8 | Two steps a and b along the same derivative equal one step a + b. |
| Integrator.EulerUndo | src/math/integrator_euler.ts:8 | A step of -h along the same derivative undoes a step of h. |
| Integrator.EulerIgnoresExtra | src/math/integrator_euler.ts:5-8 | Derivative entries outside x0's shape do not affect the result. |
| Integrator.Midpoint | src/index.ts:280-311 | The midpoint rule keeps the state's shape. |
| Integrator.MidpointOfConstant | src/index.ts:280-311 | With a constant derivative the midpoint rule is one Euler step, and a zero step changes nothing. |
| Integrator.MidpointOfLinear | src/index.ts:280-311 | For x' = x the midpoint rule multiplies every entry by 1 + h + h^2/2. |
| Simulation.SdBoxIsDistanceBound | src/index.ts:124-130 | The box test holds iff every coordinate of p is within half the edge length of the centre, with the bounds included. |
| Simulation.SdSphereIsScaledBall | src/index.ts:131-133 | The ellipsoid test accepts exactly the closed unit ball stretched by the semi-axes. |
| Simulation.UnionLaws | src/index.ts:147 | The union is OR: it is symmetric and idempotent. |
| Simulation.ColliderHeightBand | src/index.ts:156-161 | With the box at the origin of size (6, 1, 5) and the ellipsoid at (0, 0.31, 0) with semi-axes (2, 1, 2), every colliding point has -0.69 <= y <= 1.31. |
| Simulation.LiftClearsColliders | src/index.ts:32 | After the start-up lift of 3.3 along y, every point that started above y = -1.99 is clear of the colliders. |
| Simulation.ColliderMirror | src/index.ts:156-161 | The scenario-2 collider is mirror symmetric in x and in z. |
| Simulation.ColliderBandOnAxis | src/index.ts:156-161 | The height band is tight: on the vertical axis a point collides iff -0.69 <= y <= 1.31, so both ends of the band are reached. |
| Simulation.FlipInside | src/index.ts:254-259 | A node inside the collider has its stored velocity negated. Other nodes, and every other field, are unchanged. |
| Simulation.FlipInvolution | src/index.ts:254-257 | Flipping twice restores every node. |
| Simulation.State | src/index.ts:253-260 | x0 is two segments of 3 entries per node: positions, then velocities. |
| Simulation.Derivative | src/index.ts:262-279 | delta_x is two segments of 3 entries per node: velocities, then accelerations. |
| Simulation.WithState | src/index.ts:285-286 | Writing a state back changes only positions and velocities. |
| Simulation.WithStateAt | src/index.ts:285-286 | Writing a state back gives node i the position and velocity at entries 3i..3i+2 of the two segments. |
| Simulation.StateOfWithState | src/index.ts:285-290 | Reading the state of a mesh that a state was written into gives that state. |
| Simulation.WithOwnState | src/index.ts:285-286 | Writing a mesh's own state into it changes nothing. |
| Simulation.Recompute | src/index.ts:249-250 | The force pipeline changes only forces. |
| Simulation.Evaluate | src/index.ts:285-288 | Evaluating at a state changes only positions, velocities and forces. Masses are kept. |
| Simulation.EulerAt | src/index.ts:280 | Entry by entry, an Euler step on flat arrays moves each node's vector along its rate. |
| Simulation.AdvancedAt | src/index.ts:280-284 | Node by node, the advanced state holds the position moved along the velocity, and the velocity moved along force over mass. That force is negated inside the collider. |
| Simulation.EvaluateAdvancedAt | src/index.ts:283-288 | After evaluation at an advanced state, each node holds the advanced position and velocity. |
| Simulation.Prepare | src/index.ts:249-259 | Each node's force is the one the force pipeline computes for the unchanged mesh. Its velocity is negated iff its position is inside the collider. Positions, masses and tetrahedra are kept. |
| Simulation.MidpointMesh | src/index.ts:280-288 | At the midpoint each node sits half a step along its possibly negated velocity. That velocity has moved half a step along force over mass, negated inside the collider. Forces are then recomputed there: the result is a fixed point of the force pipeline, so the midpoint forces belong to the midpoint positions and velocities. Masses and tetrahedra are kept. |
| Simulation.MidpointStep | src/index.ts:249-313 | Each node moves a full step from its start along its midpoint velocity, read without a flip. Its velocity is its possibly negated starting velocity plus a full step of the midpoint force over mass, negated inside the collider. Masses and tetrahedra are kept, so the step never alters the rest corners m1..m4 or beta. |
| Simulation.StateDerivative | src/index.ts:287-307 | The derivative of any state covers that state's shape. |
| Simulation.ResetHidesForces | src/index.ts:285-287 | Meshes that differ only in forces give the same mesh once a state is written in and the forces are reset. |
| Simulation.NoContactIsMidpointRule | src/index.ts:253-311 | When no node starts inside the collider, the step's state is x0 + h D(x0 + (h/2) D(x0)). D is the state derivative, and both Euler steps start from x0. |
| Simulation.Lift | src/index.ts:32 | The start-up lift moves every node's position by the shift and changes nothing else. The tetrahedra are kept, so moving the nodes never alters the rest corners m1..m4. |
| Simulation.LiftedMeshUnstressed | src/index.ts:30-32 | A freshly built and lifted mesh is well formed. Every element sits at a translated copy of its rest shape and has zero stress, provided beta inverts the rest edge matrix. |
| View.EdgesArePairs | src/vis/view_tetrahedralmesh.ts:10-11 | The six edges 12, 23, 34, 41, 13 and 24 are the six distinct corner pairs. |
| View.EdgeOnTwoFaces | src/vis/view_tetrahedralmesh.ts:10-16 | Every edge lies on exactly two of the four named faces. |
| View.BoundaryFlags | src/vis/view_tetrahedralmesh.ts:11-16 | There are six flags, one per edge. |
| View.BoundaryFlagsIff | src/vis/view_tetrahedralmesh.ts:10-16 | An edge is flagged iff one of the two named faces containing it has an empty neighbour slot. |
| View.FlagsAtExtremes | src/vis/view_tetrahedralmesh.ts:11-16 | With all four neighbours no edge is flagged. With none, all six are flagged. |
| View.EdgeCoords | src/vis/view_tetrahedralmesh.ts:18-23 | Each edge is written as six numbers. The first three are the position of the edge's first endpoint and the last three that of its second. |
| View.SelectedSplit | src/vis/view_tetrahedralmesh.ts:18-23 | The flagged and unflagged edges together hold 6 numbers per edge. |
| View.SelectedUniform | src/vis/view_tetrahedralmesh.ts:18-23 | When every choice matches, all edges are selected. When none does, nothing is. |
| View.EmitEdgesSplits | src/vis/view_tetrahedralmesh.ts:18-23 | Edge by edge, in order, each edge goes to exactly the list its flag names. The interior list gains the unflagged edges and the boundary list the flagged ones. |
| View.EmitTetSplits | src/vis/view_tetrahedralmesh.ts:17-23 | With a boundary colour, a tetrahedron adds its unflagged edges to the interior list and its flagged edges to the boundary list, each in edge order. |
| View.EmitTetUncoloured | src/vis/view_tetrahedralmesh.ts:24-33 | Without a boundary colour, all six edges are appended to the interior list as one run, in the order 12, 23, 34, 41, 13, 24. The boundary list is untouched. |
| View.EmitTetCount | src/vis/view_tetrahedralmesh.ts:17-33 | Either way, a tetrahedron adds 36 numbers across the two lists. |
| View.EmitTetBoundary | src/vis/view_tetrahedralmesh.ts:9-33 | The boundary list grows only with a boundary colour and an empty slot. A tetrahedron with no neighbours sends all 36 numbers there. |
| View.ViewPrefixFacts | src/vis/view_tetrahedralmesh.ts:8-34 | After n tetrahedra the lists hold 36n numbers. Without a boundary colour, or when every slot is filled, the boundary list is empty. |
| View.ViewMeshFacts | src/vis/view_tetrahedralmesh.ts:5-35 | For the whole mesh the lists hold 36 numbers per tetrahedron, and the boundary list is empty in the two cases above. |
| Parser.Split | src/util/parse-mesh.ts:10 | Splitting gives at least one piece, and no piece contains the separator. |
| Parser.JoinSplit | src/util/parse-mesh.ts:10 | Joining the pieces with the separator gives the text back. |
| Parser.SplitJoin | src/util/parse-mesh.ts:22 | Splitting pieces that are free of the separator, once joined, gives the pieces back. |
| Parser.DropSpaces | src/util/parse-mesh.ts:17 | trimStart returns a suffix. Everything removed is whitespace, and the suffix does not start with whitespace. |
| Parser.DropTrailing | src/util/parse-mesh.ts:17 | trimEnd returns a prefix. Everything removed is whitespace, and the prefix does not end with whitespace. |
| Parser.Collapse | src/util/parse-mesh.ts:17 | Collapsing whitespace runs never lengthens the text, and it empties only the empty text. |
| Parser.CollapseIsCollapsed | src/util/parse-mesh.ts:17 | After collapsing, the only whitespace is single spaces. The result starts with a space iff the text starts with whitespace. |
| Parser.CollapseChars | src/util/parse-mesh.ts:17 | Collapsing introduces no character other than the space. |
| Parser.CollapseKeepsText | src/util/parse-mesh.ts:17 | Collapsing keeps every non-whitespace character, in order. |
| Parser.CollapseIdempotent | src/util/parse-mesh.ts:17 | Collapsing an already collapsed text changes nothing. |
| Parser.CollapseAppend | src/util/parse-mesh.ts:17 | Collapsing works piecewise across a non-whitespace character. |
| Parser.StripComment | src/util/parse-mesh.ts:17 | Comment removal keeps the prefix before the first `#`. The result has no `#`. |
| Parser.TrimShape | src/util/parse-mesh.ts:17 | Trimming a collapsed text keeps it collapsed, uses only its characters, and leaves no whitespace at either end. |
| Parser.CleanLineShape | src/util/parse-mesh.ts:17 | A cleaned line has no `#`, only single spaces, and no space at either end. |
| Parser.HashTestNeverFires | src/util/parse-mesh.ts:19 | A non-empty cleaned line never starts with `#`. |
| Parser.BlankLineIsEmpty | src/util/parse-mesh.ts:17-18 | A whitespace-only line is empty once cleaned, so it is skipped. |
| Parser.CommentDropped | src/util/parse-mesh.ts:17 | A line reads exactly as its part before the first `#`. |
| Parser.CleanLineIdempotent | src/util/parse-mesh.ts:17 | Cleaning a cleaned line changes nothing. |
| Parser.ClassifyLine | src/util/parse-mesh.ts:18-29 | A vertex line contributes at most three numbers. |
| Parser.Classify | src/util/parse-mesh.ts:16-29 | A raw vertex line contributes at most three numbers. |
| Parser.ClassifyLineCases | src/util/parse-mesh.ts:21-29 | A line counts as a vertex line iff it starts with `v `, and as a tetrahedron line iff it starts with `t `. A vertex line gives its first min(3, n) parsed tokens. A tetrahedron line gives all n tokens parsed, in order. |
| Parser.TokensAreWords | src/util/parse-mesh.ts:22-27 | A directive's tokens joined with single spaces give the rest of the line. Every token is non-empty and free of whitespace. |
| Parser.WordsOfCollapsed | src/util/parse-mesh.ts:22 | Splitting a collapsed, trimmed, non-empty text at spaces gives non-empty words. |
| Parser.GatherAppend | src/util/parse-mesh.ts:16-30 | Reading a file in two parts concatenates the parts' numbers and index lists, in file order. |
| Parser.GatherOne | src/util/parse-mesh.ts:16-30 | A single line contributes exactly its own reading. |
| Parser.GatherCounts | src/util/parse-mesh.ts:16-32 | There is one index list per tetrahedron line, and at most three numbers per vertex line. |
| Parser.TetLinesSnoc | src/util/parse-mesh.ts:26-29 | One more line adds one tetrahedron line iff it reads as one. |
| Parser.VertexLinesSnoc | src/util/parse-mesh.ts:21-24 | One more line adds one vertex line iff it reads as one. |
| Parser.Group3 | src/util/parse-mesh.ts:35-41 | There are ceil(n/3) vertices. Vertex k reads entries 3k, 3k+1 and 3k+2, and a missing entry reads as the undefined value. |
| Parser.Group3IsUnflatten | src/util/parse-mesh.ts:35-41 | With whole triples, grouping equals the regrouping of the integrator's flat arrays. |
| Parser.Group3Flatten | src/util/parse-mesh.ts:35-41 | Grouping the flattening of vectors gives the vectors back. |
| Parser.Group3Partial | src/util/parse-mesh.ts:35-41 | A trailing single number still makes a vertex, with its y and z undefined. |
| Parser.Group3Append | src/util/parse-mesh.ts:35-41 | Grouping works piecewise after whole triples. |
| Parser.ParseMesh | src/util/parse-mesh.ts:8-48 | The parsed mesh has one index list per line read as a tetrahedron line. Vertex counts and file concatenation are `Parser.ParseMeshCounts` and `Parser.ParseMeshAppend`. |
| Parser.ParseMeshCounts | src/util/parse-mesh.ts:8-48 | The parsed mesh has one index list per tetrahedron line. It has one vertex per started triple of numbers, so at most one per vertex line. |
| Parser.ParseMeshAppend | src/util/parse-mesh.ts:8-48 | Take two texts joined by a line break. The index lists concatenate, and so do the vertices when the first part holds whole triples. |

## Left out

- Rendering is not modelled. This covers the THREE scene, geometry and material construction (src/vis/view_tetrahedralmesh.ts:37-55, src/index.ts:56-120 and 317-335), `init_three.ts` and `view_fixedtriangles.ts`. The model keeps only the two coordinate lists that rendering would draw.
- Timing, file loading and the event loop (`timer.ts`, `load_file`, `setInterval`, `setTimeout`) are not modelled. The loop is modelled as one step function.
- Adaptive step control (src/index.ts:177-245) is switched off by a constant in the source. The step scale is therefore 1, and `MidpointStep` takes `step` as it is.
- The scenario-1 rotated boxes (src/index.ts:134-146 and 150-153) are left out. They depend on 4x4 rotation routines that are not part of this model. `inside` is a parameter of the step, and `InsideCollider` is the scenario-2 instance.
- Floating point is modelled as `real`. Rounding, NaN and Infinity are left out.
- SdSphere: requires non-zero semi-axes. The source would divide by zero and get NaN or Infinity.
- Simulation.Accel: requires a non-zero mass, written `Massive` on the step. `compute_mass` always sets 1.
- Number parsing (`parseFloat`, `parseInt`) is a pair of function parameters. The value JavaScript reads past the end of the flat vertex array (`undefined`) is the parameter `absent`.
- The matrix and vector library (`linalg_matrix.ts`, `linalg_standard.ts`) is not part of this model. Row-major 3x3 products, transpose, trace and the cross product are defined in `linalg.dfy`. Inversion (`mat3_invert`) is the parameter `invert`. Normalisation and length (`normalize_v`, `magnitude_v`) are the `Measure` parameter.
- MeshOps.FaceForceAtRest: holds only where unit vector times length gives the vector back (`ExactOn`), because the square root is a parameter.
- Element.GradientAtRest: assumes `beta` inverts B, because `mat3_invert` is a parameter.
- Element.GradientReproducesEdges: `mat3_matmul` and `mat3_vecmul` are read as row-major products. This is an assumption, because the library is not part of this model. Under this reading, with the edges of B and P stored as rows, P beta is not the deformation gradient: it does not map rest edges onto current edges, and a rigidly rotated element gets a non-zero strain. A column-major library would make P beta the deformation gradient.
- Topology.BuildMesh: singular edge matrices (four coplanar rest corners) are not detected. `mat3_invert` is not part of this model and `invert` is a total parameter, so a degenerate element is built with whatever `invert` returns, and `Adjacency.BuildMeshCharacterised` says nothing about that case.
- `compute_normals` and `compute_areas` (src/geo/atom_tetrahedron.ts:128-162) are folded into `FaceForce`. That function computes the normal from the rest positions and the area from the current positions, using the `Measure` parameter.
- `compute_volume` and the commented-out density-based mass are not modelled. Neither is used.
- The unused `compute_xu` and `compute_xu_dot` (src/geo/atom_tetrahedron.ts:94-104) are not modelled.
- Topology.BuildMesh: a quadruple naming a missing vertex gives a `BadIndex` failure. In the source it is a `TypeError` thrown when the node's fields are read.
- Node and tetrahedron identities (`Symbol` counters and the `parent` back-pointer) are replaced by array indices.
- MeshOps.WriteBack: requires whole triples and no more triples than nodes. The source would write `NaN` past the end or fail on a missing node.
- Topology.Matches: enumerates candidates in index order rather than as the de-duplicated union of the three incidence lists. The source uses only the number of matches and the first match, and those are the same either way.
