# Cloth Position-Based Dynamics core, modelled in Dafny

This project models the physics core of a browser cloth simulation. The core
is the `ClothPhysics` class in `src/physics/ClothPhysics.ts` and the stride-3
vector helpers in `src/math/vector.ts`. The cloth is a triangle mesh whose
particles live in flat buffers: `pos`, `prevPos` and `vel` hold three numbers
per particle, and `invMass` holds one. An inverse mass of 0 marks a pinned
particle.

On construction the class does three things:

- It finds, for every half-edge, the half-edge of the adjacent triangle on the
  same edge (`findTriNeighbors`).
- It turns that table into deduplicated stretching pairs and into bending
  quads.
- It runs `initPhysics`. This gives every corner of a triangle a third of the
  triangle's reciprocal area as inverse mass, records the rest length of every
  constraint, and pins the top row of particles.

Each substep of the simulation runs `preSolve`, then `solve`, then
`postSolve`:

- `preSolve` applies damping and gravity, integrates, and clamps to the
  floor.
- `solve` runs XPBD distance projections, first for the stretching
  constraints and then for the bending constraints.
- `postSolve` derives each velocity from the last displacement.

A click calls `applyImpulse`.

The project has four files:

- `vector.dfy` (module `VectorMath`) holds the vector helpers. The in-place
  helpers are methods on `array<real>` whose postconditions say exactly which
  three entries change. `At`/`WithSlot` read and write slot n. The pure
  helpers are functions on `seq<real>`.
- `topology.dfy` (module `Topology`) holds the neighbour search, both as
  written and corrected (see Findings). It also holds the constructor loop
  that builds the constraint id lists, with the lemmas about both.
- `dynamics.dfy` (module `Dynamics`) holds specification functions. Each one
  folds the loop body of a phase over the particles or constraints
  (`AccumMass`, `PinUpTo`, `PreSolveUpTo`, `SolveUpTo`, `PostSolveUpTo`,
  `ImpulseUpTo`). The lemmas state what each phase promises. The area
  loop's fold `AccumMass` takes the per-triangle shares as a sequence
  (`Shares`), so its lemmas hold for any non-negative shares.
- `cloth.dfy` (module `Cloth`) holds the class `ClothPhysics`. Its fields are
  the source's buffers, and its methods update them in place. Each method's
  postcondition ties the new buffer contents to the matching fold in
  `Dynamics`.

Numbers are modelled as `real`. `Math.sqrt` is the class field `sqrt`. The
constructor requires it to return, for every x ≥ 0, a non-negative root whose
square is x (`Dynamics.IsSqrt`).

Behaviour of the code worth noting:

- The floor clamp in `preSolve` restores the old x and z and sets y to 0. The
  position it produces is (old x, 0, old z), not the advanced x and z with
  y = 0 (src/physics/ClothPhysics.ts:184-187).
- A half-edge with a neighbour always emits a bending quad. A shared edge
  therefore yields two bending quads, one from each of its half-edges, rather
  than one (src/physics/ClothPhysics.ts:101-107).
- The inverse mass of a particle is the sum over its triangles of 1/(3A). It
  is not the reciprocal of the summed areas (src/physics/ClothPhysics.ts:137-140).
- Construction does not check its input. The model states the shape the code
  relies on as preconditions instead of failing (see Left out).
- The neighbour search compares only sorted positions 2k and 2k+1 (see
  Findings). The class builds its constraints from this table as written, so
  a shared edge that sorts across such a boundary gets two stretching pairs
  and no bending quad. `Cloth.MeshConstraintsCorrected` builds the same lists
  from the corrected search.

## Model

| member | source | states |
|---|---|---|
| VectorMath.VecSetZero | src/math/vector.ts:7-12 | slot n becomes the zero vector and every other entry keeps its value |
| VectorMath.VecScale | src/math/vector.ts:15-20 | slot n becomes its old vector times s and no other entry changes |
| VectorMath.ScaleByOne | src/math/vector.ts:15-20 | scaling a slot by 1 leaves the whole buffer as it was |
| VectorMath.VecCopy | src/math/vector.ts:23-29 | slot n of a becomes slot m of b as it was before the call, the rest of a is unchanged, and b is unchanged when it is another buffer |
| VectorMath.VecAdd | src/math/vector.ts:32-38 | slot n of a gains s times slot m of b as it was before the call, including when a and b are one buffer; no other entry changes |
| VectorMath.AddScaledByZero | src/math/vector.ts:32-38 | adding with scale 0 leaves the buffer unchanged |
| VectorMath.VecSetDiff | src/math/vector.ts:41-48 | the destination slot becomes (a slot minus b slot) times scale; only those three entries change |
| VectorMath.DiffWithItselfIsZero | src/math/vector.ts:41-48 | the difference of a slot with itself is the zero vector |
| VectorMath.VecLengthSquared | src/math/vector.ts:51-55 | the squared length is non-negative and equals the dot product of the slot with itself |
| VectorMath.LengthSquaredIsDot | src/math/vector.ts:51-55 | the squared length of a slot is the dot product of its vector with itself |
| VectorMath.DotSelfZeroIff | src/math/vector.ts:51-55 | a vector's dot product with itself is zero exactly when the vector is zero |
| VectorMath.VecDistSquared | src/math/vector.ts:58-63 | the squared distance is non-negative |
| VectorMath.DistSquaredSymmetric | src/math/vector.ts:58-63 | the squared distance does not depend on the order of the operands |
| VectorMath.DistSquaredIsLengthOfDiff | src/math/vector.ts:41-63 | the squared distance of two slots equals the squared length of the slot that the difference with scale 1 writes |
| VectorMath.VecDot | src/math/vector.ts:66-70 | the result is the dot product of the two slots' vectors, and it is non-negative for a slot with itself |
| VectorMath.DotSymmetric | src/math/vector.ts:66-70 | the dot product is symmetric |
| VectorMath.VecSetCross | src/math/vector.ts:73-80 | when the destination slot is neither operand slot, it becomes the cross product of the operands and nothing else changes |
| VectorMath.CrossOrthogonal | src/math/vector.ts:73-80 | the cross product has dot product 0 with each operand |
| VectorMath.CrossSelfIsZero | src/math/vector.ts:73-80 | the cross product of a vector with itself is zero |
| Topology.HalfEdgeAt | src/physics/ClothPhysics.ts:17-23 | the record of half-edge h carries edge number h and its smaller vertex first |
| Topology.HalfEdgeEnds | src/physics/ClothPhysics.ts:19-21 | the record's vertex pair is exactly the two ends of the half-edge |
| Topology.SortEdges | src/physics/ClothPhysics.ts:25 | the edge list ends up lexicographically sorted by (id0, id1) and is a permutation of its old contents |
| Topology.SortedHalfEdges | src/physics/ClothPhysics.ts:12-25 | the sorted list is a permutation of all 3·numTris half-edge records |
| Topology.FindTriNeighbors | src/physics/ClothPhysics.ts:11-46 | as written: the table has one entry per half-edge; every link is symmetric, irreflexive and joins two half-edges on the same edge; only sorted positions 2k and 2k+1 are ever compared, and they are linked exactly when their keys agree |
| Topology.PairSweepRead | src/physics/ClothPhysics.ts:33-44 | one pass of the as-written while loop links positions nr and nr+1 when their keys agree and advances nr by two |
| Topology.PairSweepStep | src/physics/ClothPhysics.ts:33-44 | each pass of the as-written loop keeps the table well linked, keeps the pairs read so far correct and leaves later entries unlinked |
| Topology.AsWrittenMissesSharedDiagonal | src/physics/ClothPhysics.ts:33-44 | for the quad [0,1,2, 0,2,3], half-edges 2 and 3 are the only two on the diagonal 0-2, but the as-written table leaves both at -1 |
| Topology.AsWrittenQuadConstraints | src/physics/ClothPhysics.ts:33-44 | with the as-written table, the quad [0,1,2, 0,2,3] gets six stretching pairs, the diagonal 0-2 twice, and no bending quad |
| Topology.CorrectedQuadConstraints | src/physics/ClothPhysics.ts:88-109 | with the corrected table, the same quad gets five stretching pairs and two bending quads across the diagonal |
| Topology.FindTriNeighborsCorrected | src/physics/ClothPhysics.ts:11-46 | corrected sweep: the table is well linked, and every edge shared by exactly two half-edges links them to each other |
| Topology.RunSweepRead | src/physics/ClothPhysics.ts:33-44 | one pass of the corrected loop links positions nr and nr+1 and skips both when their keys agree, and otherwise advances by one |
| Topology.RunSweepStep | src/physics/ClothPhysics.ts:33-44 | each pass of the corrected loop keeps the table well linked and links the first two entries of every run of equal keys read so far |
| Topology.ExactlySharedEdgesLinked | src/physics/ClothPhysics.ts:33-44 | a well-linked table that links the first two entries of every run links every pair of half-edges that are the only two on their edge |
| Topology.LinkKeepsWellLinked | src/physics/ClothPhysics.ts:38-40 | linking two unlinked half-edges on the same edge keeps the table symmetric, irreflexive and edge-preserving |
| Topology.PartnerUnique | src/physics/ClothPhysics.ts:38-40 | in a well-linked table no two half-edges have the same partner |
| Topology.WellLinkedInRange | src/physics/ClothPhysics.ts:27-29 | every entry of a well-linked table is -1 or a half-edge index |
| Topology.BuildConstraints | src/physics/ClothPhysics.ts:88-109 | the pushed id lists equal the stretching and quad lists of all half-edges in order |
| Topology.AddTriangle | src/physics/ClothPhysics.ts:89-108 | the inner loop appends the contributions of the three half-edges of triangle i |
| Topology.AddHalfEdge | src/physics/ClothPhysics.ts:90-107 | the loop body appends exactly the contribution of half-edge 3i+j: the pair (id0, id1) if and only if it has no neighbour or id0 < id1, and the quad (id0, id1, its third corner, the neighbour's third corner) if and only if it has a neighbour |
| Topology.SlotCorners | src/physics/ClothPhysics.ts:90-104 | the (j+1) % 3 and (j+2) % 3 indexing picks the next and the third corner of the triangle |
| Topology.NeighborCorner | src/physics/ClothPhysics.ts:102-105 | floor(n/3) and n % 3 pick the third corner of the neighbour's triangle |
| Topology.StretchList | src/physics/ClothPhysics.ts:95-97 | the stretching list has two entries per emitting half-edge, so its length is even |
| Topology.QuadList | src/physics/ClothPhysics.ts:101-107 | the bending list has four entries per linked half-edge, so its length is a multiple of 4 |
| Topology.StretchListAt | src/physics/ClothPhysics.ts:95-97 | an emitting half-edge's two ends sit at position 2·(number of earlier emitting half-edges) |
| Topology.QuadListAt | src/physics/ClothPhysics.ts:101-107 | a linked half-edge's quad sits at position 4·(number of earlier linked half-edges) |
| Topology.StretchListInMesh | src/physics/ClothPhysics.ts:95-97 | every stretching id is a vertex of the triangle list |
| Topology.QuadListInMesh | src/physics/ClothPhysics.ts:101-107 | every bending id is a vertex of the triangle list |
| Topology.LinkedPairGivesTwoQuads | src/physics/ClothPhysics.ts:101-107 | the partner of a linked half-edge is linked back, so a shared edge yields two quads |
| Topology.SharedEdgeEmittedOnce | src/physics/ClothPhysics.ts:94-97 | of a linked pair on a non-degenerate edge, exactly one half-edge emits the stretching pair if and only if the two run in opposite directions |
| Dynamics.CornerShare | src/physics/ClothPhysics.ts:137 | a corner's share is non-negative and is zero exactly when the area is not positive |
| Dynamics.CornerInvMass | src/physics/ClothPhysics.ts:133-137 | the share of a triangle is non-negative |
| Dynamics.ZeroAreaAddsNothing | src/physics/ClothPhysics.ts:133-137 | a triangle adds nothing exactly when its area vector is zero |
| Dynamics.AccumMassNonNegative | src/physics/ClothPhysics.ts:122-141 | the area loop keeps every inverse mass non-negative |
| Dynamics.AccumMassUntouched | src/physics/ClothPhysics.ts:129-141 | a particle that is no corner of the visited triangles keeps its inverse mass |
| Dynamics.InitialInvMassNonNegative | src/physics/ClothPhysics.ts:120-164 | after initPhysics every inverse mass is non-negative |
| Dynamics.LooseParticlePinned | src/physics/ClothPhysics.ts:122-141 | a particle in no triangle ends with inverse mass 0 |
| Dynamics.TopRowPinned | src/physics/ClothPhysics.ts:158-163 | every particle with y > maxY - 0.0001 ends with inverse mass 0 |
| Dynamics.Shares | src/physics/ClothPhysics.ts:129-137 | one share per triangle, each non-negative |
| Dynamics.ShareWithAreaPositive | src/physics/ClothPhysics.ts:133-137 | a triangle whose area vector is not zero has a positive share |
| Dynamics.AccumMassStepUp | src/physics/ClothPhysics.ts:138-140 | one more triangle never lowers an inverse mass |
| Dynamics.AccumMassAfterCorner | src/physics/ClothPhysics.ts:138-140 | a triangle with a positive share leaves each of its corners with a positive inverse mass, given a non-negative start |
| Dynamics.AccumMassMonotone | src/physics/ClothPhysics.ts:129-141 | the area loop never lowers an inverse mass: a longer prefix of triangles gives every particle at least as much |
| Dynamics.AccumMassCornerPositive | src/physics/ClothPhysics.ts:129-141 | a corner of a triangle with a positive share ends the area loop with a positive inverse mass, from any non-negative start |
| Dynamics.CornerBelowTopRowUnpinned | src/physics/ClothPhysics.ts:122-163 | the converse of TopRowPinned as the code keeps it: a particle outside the top row that is a corner of a triangle with area ends initPhysics with inverse mass > 0 |
| Dynamics.RestLengthIsDistance | src/physics/ClothPhysics.ts:144-155 | a rest length is non-negative and its square is the squared distance of its two particles |
| Dynamics.MaxYIsUpperBound | src/physics/ClothPhysics.ts:158-159 | the running maximum is at least every visited y |
| Dynamics.MaxYIsAttained | src/physics/ClothPhysics.ts:158-159 | unless it is still -MAX_VALUE, the running maximum is the y of a visited particle |
| Dynamics.PinUpToAt | src/physics/ClothPhysics.ts:160-163 | the pin loop zeroes exactly the visited top-row particles and keeps every other inverse mass |
| Dynamics.PinKeepsNonNegative | src/physics/ClothPhysics.ts:160-163 | pinning keeps every inverse mass non-negative |
| Dynamics.HighestParticlePinned | src/physics/ClothPhysics.ts:158-163 | some particle at the maximum y is pinned |
| Dynamics.PrePos | src/physics/ClothPhysics.ts:181-187 | the new position has y ≥ 0 and is either the advanced position or (old x, 0, old z) |
| Dynamics.PreSolveParticle | src/physics/ClothPhysics.ts:173-187 | a pinned particle leaves all three buffers as they were; an unpinned one ends with y ≥ 0 and its previous position equal to its old position |
| Dynamics.PreSolveKeeps | src/physics/ClothPhysics.ts:173-174 | preSolve changes neither pos, prevPos nor vel of a pinned particle |
| Dynamics.PreSolveMoves | src/physics/ClothPhysics.ts:177-187 | an unpinned particle gets vel = 0.99·vel + g·dt and prevPos = old pos, and its pos is advanced and clamped |
| Dynamics.PreSolveAboveFloor | src/physics/ClothPhysics.ts:184-187 | after preSolve every unpinned particle has y ≥ 0 |
| Dynamics.MultiplierSign | src/physics/ClothPhysics.ts:211-213 | the multiplier is zero at the rest length, negative for a stretched constraint and positive for a compressed one |
| Dynamics.ProjectConstraint | src/physics/ClothPhysics.ts:202-215 | a projection returns a buffer of the same length; ProjectSkips, ProjectedEnds and ProjectMovesOnlyEndpoints state its cases |
| Dynamics.ProjectSkips | src/physics/ClothPhysics.ts:205-209 | when both ends are pinned or the current length is 0, the projection changes nothing |
| Dynamics.ProjectMovesOnlyEndpoints | src/physics/ClothPhysics.ts:214-215 | a particle other than the two endpoints keeps its position |
| Dynamics.ProjectedEndsDiffer | src/physics/ClothPhysics.ts:207-209 | a constraint with non-zero current length has two distinct endpoints |
| Dynamics.ProjectedEnds | src/physics/ClothPhysics.ts:214-215 | each endpoint ends at its old position plus its own correction |
| Dynamics.ProjectKeepsPinned | src/physics/ClothPhysics.ts:202-215 | a projection never moves a pinned particle |
| Dynamics.MovedPinnedEnd | src/physics/ClothPhysics.ts:214-215 | a pinned endpoint of a moving constraint stays where it is |
| Dynamics.ProjectConservesMomentum | src/physics/ClothPhysics.ts:214-215 | the corrections satisfy w1·Δp0 + w0·Δp1 = 0, so mass-weighted displacement is conserved |
| Dynamics.ProjectAtRestLength | src/physics/ClothPhysics.ts:211-215 | a constraint already at its rest length moves nothing |
| Dynamics.AlphaNonNegative | src/physics/ClothPhysics.ts:198 | a non-negative compliance gives a non-negative alpha |
| Dynamics.SolveKeepsPinned | src/physics/ClothPhysics.ts:199-216 | solveConstraints never moves a pinned particle |
| Dynamics.SolveKeepsUnconstrained | src/physics/ClothPhysics.ts:199-216 | a particle that is not an endpoint of any solved constraint keeps its position |
| Dynamics.PostSolveAt | src/physics/ClothPhysics.ts:219-224 | an unpinned particle gets vel = (pos - prevPos)/dt, and a pinned one keeps its velocity |
| Dynamics.VelocityRoundTrip | src/physics/ClothPhysics.ts:181-222 | the velocity postSolve derives from a move by v·dt is v again |
| Dynamics.PreSolveThenPostSolve | src/physics/ClothPhysics.ts:172-224 | without a floor hit and without solving in between, postSolve gives back the velocity preSolve set |
| Dynamics.Falloff | src/physics/ClothPhysics.ts:246-248 | the falloff is 1 at squared distance 0 and 0 at squared distance radius² |
| Dynamics.SolvePhaseKeepsPinned | src/physics/ClothPhysics.ts:196-216 | one solveConstraints call with alpha = compliance/dt/dt never moves a pinned particle |
| Dynamics.SolvePhaseKeepsUnconstrained | src/physics/ClothPhysics.ts:196-216 | one solveConstraints call never moves a particle that is no endpoint of its constraints |
| Dynamics.SolveBothKeepsPinned | src/physics/ClothPhysics.ts:192-195 | solve (stretching then bending) never moves a pinned particle |
| Dynamics.SolveBothKeepsUnconstrained | src/physics/ClothPhysics.ts:192-195 | solve never moves a particle that is in no stretching and no bending constraint |
| Dynamics.SubstepKeepsPinned | src/components/ClothSimulation.tsx:61-63 | a substep leaves a pinned particle's position, previous position and velocity unchanged |
| Dynamics.SubstepsKeepPinned | src/components/ClothSimulation.tsx:60-64 | any number of substeps leave a pinned particle unchanged |
| Dynamics.SubstepFreeParticle | src/components/ClothSimulation.tsx:61-63 | an unpinned particle in no constraint that does not hit the floor ends a substep with the damped velocity plus g·dt, moved by that velocity times dt, and with its old position as previous position |
| Dynamics.FalloffRange | src/physics/ClothPhysics.ts:246-248 | inside the radius the falloff lies in (0, 1] and equals 1 exactly at distance 0 |
| Dynamics.FalloffDecreasing | src/physics/ClothPhysics.ts:246-248 | the falloff strictly decreases with distance |
| Dynamics.DistSq | src/physics/ClothPhysics.ts:241-244 | the squared distance to the click point is non-negative |
| Dynamics.DistSqZeroIff | src/physics/ClothPhysics.ts:241-244 | the squared distance is zero exactly at the click point |
| Dynamics.ImpulseVel | src/physics/ClothPhysics.ts:246-253 | a particle at squared distance ≥ radius² keeps its velocity |
| Dynamics.ImpulseAt | src/physics/ClothPhysics.ts:234-254 | each visited unpinned particle gets its impulse velocity, and every other velocity is kept |
| Dynamics.ImpulseVelBounds | src/physics/ClothPhysics.ts:246-253 | at distSq ≥ radius² the velocity is unchanged; inside the radius it gains force·f with 0 < f ≤ 1, and f = 1 exactly at the click point |
| Dynamics.ImpulseZeroRadius | src/physics/ClothPhysics.ts:231-256 | an impulse of radius 0 changes no velocity |
| Cloth.MeshConstraints | src/physics/ClothPhysics.ts:83-109 | with the as-written search: the neighbour table is well linked and links exactly the sorted positions 2k and 2k+1 whose keys agree; the id lists are the stretching and quad lists of that table, and their ids are particles |
| Cloth.MeshConstraintsCorrected | src/physics/ClothPhysics.ts:83-109 | with the corrected search: the table is well linked and links every edge shared by exactly two half-edges; the id lists are the stretching and quad lists of that table |
| Cloth.ClothPhysics.constructor | src/physics/ClothPhysics.ts:72-118 | buffers are copies of the vertices with zero velocity; the compliances are 0.001 and the argument; the constraints are the stretching and quad lists of the as-written neighbour table; the object is initialised and valid |
| Cloth.ClothPhysics.InitPhysics | src/physics/ClothPhysics.ts:120-164 | establishes the initial inverse masses (non-negative, top row pinned) and every rest length from the current positions |
| Cloth.ClothPhysics.MassFromAreas | src/physics/ClothPhysics.ts:122-141 | after the fill and the area loop, invMass is the sum of triangle shares over all triangles |
| Cloth.ClothPhysics.CornerMass | src/physics/ClothPhysics.ts:130-137 | pInvMass is the share of triangle i |
| Cloth.ClothPhysics.AreaInto | src/physics/ClothPhysics.ts:133-135 | c holds the cross product of the triangle's two edges from corner 0 |
| Cloth.ClothPhysics.AddCornerMasses | src/physics/ClothPhysics.ts:138-140 | the three corners gain pInvMass |
| Cloth.ClothPhysics.StretchingRestLengths | src/physics/ClothPhysics.ts:144-148 | every stretching rest length is the current distance of its pair |
| Cloth.ClothPhysics.BendingRestLengths | src/physics/ClothPhysics.ts:151-155 | every bending rest length is the current distance of the quad's entries 2 and 3 |
| Cloth.ClothPhysics.PinTopRow | src/physics/ClothPhysics.ts:158-163 | invMass becomes the pin fold at the maximum y |
| Cloth.ClothPhysics.PreSolve | src/physics/ClothPhysics.ts:172-189 | buffers become the preSolve fold over all particles, and every unpinned particle ends with y ≥ 0 |
| Cloth.ClothPhysics.PreSolveStep | src/physics/ClothPhysics.ts:173-187 | the loop body for particle i is the single-particle preSolve |
| Cloth.ClothPhysics.Solve | src/physics/ClothPhysics.ts:192-195 | the stretching projections and then the bending projections are applied, and pinned particles do not move |
| Cloth.ClothPhysics.SolveConstraints | src/physics/ClothPhysics.ts:197-217 | positions become the projection fold with alpha = compliance/dt/dt, and pinned particles do not move |
| Cloth.ClothPhysics.ProjectAll | src/physics/ClothPhysics.ts:199-216 | the loop applies the projections of constraints 0 .. n-1 in order |
| Cloth.ClothPhysics.ProjectStep | src/physics/ClothPhysics.ts:200-201 | constraint i is projected between entries 0 and 1 for stride 2 and entries 2 and 3 for stride 4 |
| Cloth.ClothPhysics.ProjectPair | src/physics/ClothPhysics.ts:202-215 | the loop body including both early continues equals the projection function |
| Cloth.ClothPhysics.SetDirection | src/physics/ClothPhysics.ts:207-210 | len is the current length, and for non-zero len grads holds the unit direction |
| Cloth.ClothPhysics.Correct | src/physics/ClothPhysics.ts:211-215 | the correcting half of the body equals the moving case of the projection |
| Cloth.ClothPhysics.MoveEndpoints | src/physics/ClothPhysics.ts:214-215 | the two vecAdd calls move id0 by s·w0 and then id1 by -s·w1 along the direction |
| Cloth.ClothPhysics.PostSolve | src/physics/ClothPhysics.ts:219-224 | velocities become the postSolve fold over all particles |
| Cloth.ClothPhysics.Substep | src/components/ClothSimulation.tsx:61-63 | the buffers become the substep state: the preSolve fold, then the stretching and the bending projection folds, then the postSolve fold; every pinned particle's position, previous position and velocity are unchanged |
| Cloth.ClothPhysics.RunSubsteps | src/components/ClothSimulation.tsx:60-64 | the buffers become n iterations of the substep state |
| Cloth.ClothPhysics.Frame | src/components/ClothSimulation.tsx:55-64 | the buffers become fifteen iterations of the substep state with dt = (1/60)/15 and gravity (0, -9.8, 0), and every pinned particle is unchanged |
| Cloth.ClothPhysics.ApplyImpulse | src/physics/ClothPhysics.ts:231-256 | velocities become the impulse fold; pos and invMass are untouched |
| Cloth.ClothPhysics.ImpulseStep | src/physics/ClothPhysics.ts:237-254 | particle i's velocity becomes its impulse velocity and nothing else changes |

## Left out

- Float32 storage and IEEE arithmetic: buffers hold `real`. There is no rounding, no NaN and no Infinity, and Number.MAX_VALUE is a constant.
- `Math.sqrt` is an abstract function field. It is constrained only to give, for x ≥ 0, a non-negative root whose square is x.
- Typed-array widths: triangle and constraint ids are `nat`, so Uint16/Uint32 truncation does not occur.
- `edges.sort` is modelled by an insertion sort (`Topology.SortEdges`). Its contract is only "sorted by (id0, id1) and a permutation". The library's comparator never returns 0, so the relative order of equal keys is unspecified, and every property is proved for any such order.
- Cloth.ClothPhysics.constructor: requires a vertex buffer whose length is a multiple of 3, a triangle list whose length is a multiple of 3, ids below the particle count, and a non-negative bending compliance (the view passes 1.0). The code does not check these; out-of-range reads give `undefined`, which the model cannot represent.
- Cloth.ClothPhysics.constructor: the compliances are `const` fields. In the code they are public and writable after construction. `bendingCompliance` has no default value and must be passed.
- Cloth.ClothPhysics.Solve: requires dt ≠ 0. The code would divide by zero and store Infinity or NaN.
- Cloth.ClothPhysics.SolveConstraints: requires dt ≠ 0 and compliance ≥ 0, for the same reason as Solve.
- Cloth.ClothPhysics.PostSolve: requires dt ≠ 0, for the same reason as Solve.
- Cloth.ClothPhysics.ApplyImpulse: `point` and `force` are `Vec3` values rather than `number[]`, because only indices 0-2 are read. The default radius of 0.5 is not modelled, so callers pass the radius.
- Cloth.ClothPhysics.PreSolve: `gravity` is a 3-entry array distinct from the particle buffers and from `grads`. The code's `number[]` cannot alias a Float32Array.
- VectorMath.VecSetCross: requires that the destination slot is not an operand slot. The code reads operands after its first write, and its only caller passes three distinct scratch arrays.
- The `grads` scratch buffer has 12 entries as in the code. Only slot 0 is ever used.
- Loop bodies are separate methods (`PreSolveStep`, `ProjectStep`, `ImpulseStep`, ...) and are called from the loops. They are the code's loop bodies, not extra operations.
- Physical outcomes are not proved: convergence, settling, energy behaviour and full-substep idempotence at equilibrium. `Dynamics.ProjectAtRestLength` and `Dynamics.VelocityRoundTrip` state the solve and postSolve parts of the latter.
- Out of scope: the React/three.js/WebXR shell, the pointer handler that computes the click force, and `computeVertexNormals`.
- Non-manifold edges (three or more half-edges on one edge): the corrected sweep links only the first two entries of each run. The model proves this property and nothing about the remaining sharers.

## Findings

| source | as written | input that shows it | evidently intended | confidence | as-written member | corrected member |
|---|---|---|---|---|---|---|
| src/physics/ClothPhysics.ts:33-44 | after reading a pair, the sweep always advances two positions, so it only compares sorted positions 2k and 2k+1 | triIds [0,1,2, 0,2,3] (a quad split along 0-2) has sorted keys (0,1), (0,2), (0,2), (0,3), (1,2), (2,3). The shared diagonal sits at positions 1 and 2, is never compared, and both half-edges stay at -1, so the quad gets 6 stretching pairs and no bending quad | advance by one when the two keys differ, so every pair of adjacent equal keys is compared and every edge shared by two triangles is linked | high (not executed) | Topology.FindTriNeighbors, Topology.AsWrittenMissesSharedDiagonal, Topology.AsWrittenQuadConstraints, Cloth.MeshConstraints | Topology.FindTriNeighborsCorrected, Topology.CorrectedQuadConstraints, Cloth.MeshConstraintsCorrected |
