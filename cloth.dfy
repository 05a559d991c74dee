/**
 * The ClothPhysics class (src/physics/ClothPhysics.ts): flat buffers of
 * positions, previous positions, velocities and inverse masses, the
 * stretching and bending constraints built from the triangle list, and the
 * phases of one substep (preSolve, solve, postSolve) plus the click impulse.
 *
 * Every method updates the buffers in place; its postcondition ties the new
 * contents to the function in Dynamics that folds the same loop body over
 * all particles or constraints, and the lemmas there state what a phase
 * promises.
 */
module Cloth {
  import opened VectorMath
  import opened Topology
  import opened Dynamics

  /** Entries of s are all entries of the triangle list, so they name particles below n. */
  lemma MeshIdsBelow(s: seq<nat>, tri: seq<nat>, n: nat)
    requires IdsBelow(tri, n)
    requires forall q :: 0 <= q < |s| ==> s[q] in tri
    ensures IdsBelow(s, n)
  {
    forall q | 0 <= q < |s| ensures s[q] < n {
      var j :| 0 <= j < |tri| && tri[j] == s[q];
    }
  }

  /** The constraint part of the constructor as written: the neighbour
      table from the as-written search, which links only sorted positions
      2k and 2k+1, and the stretching and bending id lists built from it. */
  method MeshConstraints(tri: seq<nat>, n: nat) returns (nb: seq<int>, ghost sorted: seq<HalfEdge>, edgeIds: seq<nat>, triPairIds: seq<nat>)
    requires Triangles(tri) && IdsBelow(tri, n)
    ensures WellLinked(tri, nb) && NeighborsInRange(tri, nb)
    ensures SortedHalfEdgeList(tri, sorted) && PairedBelow(sorted, nb, |tri|)
    ensures edgeIds == StretchList(tri, nb, |tri|) && triPairIds == QuadList(tri, nb, |tri|)
    ensures IdsBelow(edgeIds, n) && IdsBelow(triPairIds, n)
  {
    nb, sorted := FindTriNeighbors(tri);
    edgeIds, triPairIds := ConstraintLists(tri, nb, n);
  }

  /** The constraint part of the constructor with the corrected search:
      every edge shared by exactly two half-edges is linked. */
  method MeshConstraintsCorrected(tri: seq<nat>, n: nat) returns (nb: seq<int>, edgeIds: seq<nat>, triPairIds: seq<nat>)
    requires Triangles(tri) && IdsBelow(tri, n)
    ensures WellLinked(tri, nb) && NeighborsInRange(tri, nb)
    ensures forall h: nat, g: nat :: SharedByExactlyTwo(tri, h, g) ==> nb[h] == g
    ensures edgeIds == StretchList(tri, nb, |tri|) && triPairIds == QuadList(tri, nb, |tri|)
    ensures IdsBelow(edgeIds, n) && IdsBelow(triPairIds, n)
  {
    var links, _ := FindTriNeighborsCorrected(tri);
    nb := links;
    edgeIds, triPairIds := ConstraintLists(tri, nb, n);
  }

  /** The constructor loop over a well-linked table; the ids it pushes are
      vertices of the mesh. */
  method ConstraintLists(tri: seq<nat>, nb: seq<int>, n: nat) returns (edgeIds: seq<nat>, triPairIds: seq<nat>)
    requires WellLinked(tri, nb) && IdsBelow(tri, n)
    ensures NeighborsInRange(tri, nb)
    ensures edgeIds == StretchList(tri, nb, |tri|) && triPairIds == QuadList(tri, nb, |tri|)
    ensures IdsBelow(edgeIds, n) && IdsBelow(triPairIds, n)
  {
    WellLinkedInRange(tri, nb);
    edgeIds, triPairIds := BuildConstraints(tri, nb);
    StretchListInMesh(tri, nb, |tri|);
    QuadListInMesh(tri, nb, |tri|);
    MeshIdsBelow(edgeIds, tri, n);
    MeshIdsBelow(triPairIds, tri, n);
  }

  /** The frame loop's constants: a 1/60 s frame split into 15 substeps,
      under gravity (0, -9.8, 0). */
  const FrameDt: real := 1.0 / 60.0
  const NumSubsteps: nat := 15
  const Gravity: Vec3 := Vec3(0.0, -9.8, 0.0)

  class ClothPhysics {
    const numParticles: nat
    const pos: array<real>
    const prevPos: array<real>
    const vel: array<real>
    const invMass: array<real>

    const triIds: seq<nat>

    /** Stretching constraints: pairs (id0, id1). */
    const stretchingIds: seq<nat>
    /** Bending constraints: quads (id0, id1, id2, id3); the solver keeps
        the distance of id2 and id3. */
    const bendingIds: seq<nat>
    const stretchingLengths: array<real>
    const bendingLengths: array<real>

    const stretchingCompliance: real
    const bendingCompliance: real

    /** Scratch slot holding the constraint direction. */
    const grads: array<real>

    /** Math.sqrt. */
    const sqrt: real -> real

    /** The neighbour table the constraints were built from, and the
        sorted half-edge list the search swept. */
    ghost const neighbors: seq<int>
    ghost const sortedEdges: seq<HalfEdge>

    /** Buffer sizes, constraint ids inside the mesh, distinct buffers. */
    ghost predicate Shape()
      reads this
    {
      && pos.Length == 3 * numParticles && prevPos.Length == 3 * numParticles
      && vel.Length == 3 * numParticles && invMass.Length == numParticles
      && grads.Length == 12
      && |stretchingIds| == 2 * stretchingLengths.Length
      && |bendingIds| == 4 * bendingLengths.Length
      && Triangles(triIds) && IdsBelow(triIds, numParticles)
      && IdsBelow(stretchingIds, numParticles) && IdsBelow(bendingIds, numParticles)
      && pos != prevPos && pos != vel && pos != invMass && pos != grads
      && pos != stretchingLengths && pos != bendingLengths
      && prevPos != vel && prevPos != invMass && prevPos != grads
      && prevPos != stretchingLengths && prevPos != bendingLengths
      && vel != invMass && vel != grads && vel != stretchingLengths && vel != bendingLengths
      && invMass != grads && invMass != stretchingLengths && invMass != bendingLengths
      && grads != stretchingLengths && grads != bendingLengths
      && stretchingLengths != bendingLengths
      && IsSqrt(sqrt) && 0.0 <= stretchingCompliance && 0.0 <= bendingCompliance
    }

    /** The invariant every phase keeps: the shape, and no negative inverse mass. */
    ghost predicate Valid()
      reads this, invMass
    {
      Shape() && NonNegative(invMass[..])
    }

    /** The state initPhysics establishes from the current positions. */
    ghost predicate Initialised()
      requires Shape()
      reads this, pos, invMass, stretchingLengths, bendingLengths
    {
      && invMass[..] == InitialInvMass(pos[..], triIds, numParticles, sqrt)
      && (forall i :: 0 <= i < stretchingLengths.Length ==>
            stretchingLengths[i] == RestLength(pos[..], End0(stretchingIds, 2, i), End1(stretchingIds, 2, i), sqrt))
      && (forall i :: 0 <= i < bendingLengths.Length ==>
            bendingLengths[i] == RestLength(pos[..], End0(bendingIds, 4, i), End1(bendingIds, 4, i), sqrt))
    }

    /** Builds the cloth from a vertex buffer and a triangle list: copies of
        the vertices as positions, zero velocities, stretching constraints
        for every edge once and bending constraints for every linked
        half-edge, then initPhysics.  The stretching compliance is 0.001. */
    constructor (vertices: seq<real>, faceTriIds: seq<nat>, bendingCompliance: real, sqrt: real -> real)
      requires |vertices| % 3 == 0 && Triangles(faceTriIds) && IdsBelow(faceTriIds, |vertices| / 3)
      requires 0.0 <= bendingCompliance && IsSqrt(sqrt)
      ensures Valid() && Initialised()
      ensures numParticles == |vertices| / 3 && pos[..] == vertices && prevPos[..] == vertices
      ensures forall k :: 0 <= k < vel.Length ==> vel[k] == 0.0
      ensures triIds == faceTriIds && this.sqrt == sqrt
      ensures stretchingCompliance == 0.001 && this.bendingCompliance == bendingCompliance
      ensures WellLinked(triIds, neighbors)
      ensures SortedHalfEdgeList(triIds, sortedEdges) && PairedBelow(sortedEdges, neighbors, |triIds|)
      ensures NeighborsInRange(triIds, neighbors)
      ensures stretchingIds == StretchList(triIds, neighbors, |triIds|)
      ensures bendingIds == QuadList(triIds, neighbors, |triIds|)
      ensures fresh(pos) && fresh(prevPos) && fresh(vel) && fresh(invMass) && fresh(grads)
      ensures fresh(stretchingLengths) && fresh(bendingLengths)
    {
      numParticles := |vertices| / 3;
      pos := new real[|vertices|](k requires 0 <= k < |vertices| => vertices[k]);
      prevPos := new real[|vertices|](k requires 0 <= k < |vertices| => vertices[k]);
      vel := new real[|vertices|](_ => 0.0);
      invMass := new real[|vertices| / 3];
      triIds := faceTriIds;
      this.bendingCompliance := bendingCompliance;
      stretchingCompliance := 0.001;
      this.sqrt := sqrt;

      var nb, sorted, edgeIds, triPairIds := MeshConstraints(faceTriIds, |vertices| / 3);
      neighbors := nb;
      sortedEdges := sorted;
      stretchingIds := edgeIds;
      bendingIds := triPairIds;
      stretchingLengths := new real[|edgeIds| / 2];
      bendingLengths := new real[|triPairIds| / 4];
      grads := new real[4 * 3];
      new;
      assert pos[..] == vertices && prevPos[..] == vertices;
      assert forall k :: 0 <= k < vel.Length ==> vel[k] == 0.0;
      InitPhysics();
    }

    /** initPhysics: inverse masses from the triangle areas with the top row
        pinned, and the rest length of every constraint from the current
        positions. */
    method InitPhysics()
      requires Shape()
      modifies invMass, stretchingLengths, bendingLengths
      ensures Valid() && Initialised()
    {
      MassFromAreas();
      StretchingRestLengths();
      BendingRestLengths();
      PinTopRow();
      InitialInvMassNonNegative(pos[..], triIds, numParticles, sqrt);
    }

    /** The first loop of initPhysics: inverse masses reset to zero, then
        every triangle adds its share to its three corners. */
    method MassFromAreas()
      requires Shape()
      modifies invMass
      ensures invMass[..] == AccumMass(seq(numParticles, _ => 0.0), triIds, Shares(pos[..], triIds, sqrt), |triIds| / 3)
    {
      // every inverse mass starts at 0
      forall j | 0 <= j < invMass.Length {
        invMass[j] := 0.0;
      }
      ghost var zeros, P := invMass[..], pos[..];
      ghost var W := Shares(P, triIds, sqrt);
      assert zeros == seq(numParticles, _ => 0.0);
      var numTris := |triIds| / 3;
      var e0 := new real[3];
      var e1 := new real[3];
      var c := new real[3];
      for i := 0 to numTris
        invariant pos[..] == P
        invariant invMass[..] == AccumMass(zeros, triIds, W, i)
      {
        var id0 := triIds[3 * i];
        var id1 := triIds[3 * i + 1];
        var id2 := triIds[3 * i + 2];
        var pInvMass := CornerMass(i, e0, e1, c);
        AddCornerMasses(id0, id1, id2, pInvMass);
        assert pos[..] == P;
        assert pInvMass == W[i];
        AccumMassNext(zeros, triIds, W, i);
      }
    }

    /** The second loop of initPhysics: each stretching pair's rest length
        is the current distance of its two particles. */
    method StretchingRestLengths()
      requires Shape()
      modifies stretchingLengths
      ensures forall i :: 0 <= i < stretchingLengths.Length ==>
                stretchingLengths[i] == RestLength(pos[..], End0(stretchingIds, 2, i), End1(stretchingIds, 2, i), sqrt)
    {
      for i := 0 to stretchingLengths.Length
        invariant forall j :: 0 <= j < i ==>
                    stretchingLengths[j] == RestLength(pos[..], End0(stretchingIds, 2, j), End1(stretchingIds, 2, j), sqrt)
      {
        var id0 := stretchingIds[2 * i];
        var id1 := stretchingIds[2 * i + 1];
        stretchingLengths[i] := sqrt(VecDistSquared(pos[..], id0, pos[..], id1));
      }
    }

    /** The third loop of initPhysics: each bending quad's rest length is
        the current distance of its two off vertices (entries 2 and 3). */
    method BendingRestLengths()
      requires Shape()
      modifies bendingLengths
      ensures forall i :: 0 <= i < bendingLengths.Length ==>
                bendingLengths[i] == RestLength(pos[..], End0(bendingIds, 4, i), End1(bendingIds, 4, i), sqrt)
    {
      for i := 0 to bendingLengths.Length
        invariant forall j :: 0 <= j < i ==>
                    bendingLengths[j] == RestLength(pos[..], End0(bendingIds, 4, j), End1(bendingIds, 4, j), sqrt)
      {
        var id0 := bendingIds[4 * i + 2];
        var id1 := bendingIds[4 * i + 3];
        bendingLengths[i] := sqrt(VecDistSquared(pos[..], id0, pos[..], id1));
      }
    }

    /** The last two loops of initPhysics: the highest y, starting from
        -Number.MAX_VALUE, and inverse mass zero for every particle within
        PinEps of it. */
    method PinTopRow()
      requires Shape()
      modifies invMass
      ensures invMass[..] == PinUpTo(old(invMass[..]), pos[..], MaxYUpTo(pos[..], numParticles), numParticles)
    {
      var maxY := -MaxValue;
      for i := 0 to numParticles
        invariant maxY == MaxYUpTo(pos[..], i)
      {
        maxY := Dynamics.Max(maxY, pos[3 * i + 1]);
      }
      for i := 0 to numParticles
        invariant invMass[..] == PinUpTo(old(invMass[..]), pos[..], maxY, i)
      {
        if pos[3 * i + 1] > maxY - PinEps {
          invMass[i] := 0.0;
        }
      }
    }

    /** The three += of the area loop of initPhysics: each corner gains w. */
    method AddCornerMasses(id0: nat, id1: nat, id2: nat, w: real)
      requires Shape() && id0 < numParticles && id1 < numParticles && id2 < numParticles
      modifies invMass
      ensures invMass[..] == AddCorners(old(invMass[..]), id0, id1, id2, w)
    {
      invMass[id0] := invMass[id0] + w;
      invMass[id1] := invMass[id1] + w;
      invMass[id2] := invMass[id2] + w;
    }

    /** The share of triangle i: a third of the reciprocal of half the
        length of its area vector (zero for a triangle without area). */
    method CornerMass(i: nat, e0: array<real>, e1: array<real>, c: array<real>) returns (pInvMass: real)
      requires Shape() && 3 * i + 2 < |triIds|
      requires e0.Length == 3 && e1.Length == 3 && c.Length == 3
      requires e0 != e1 && e0 != c && e1 != c && e0 != pos && e1 != pos && c != pos
      modifies e0, e1, c
      ensures pInvMass == CornerInvMass(pos[..], triIds, i, sqrt)
    {
      AreaInto(i, e0, e1, c);
      LengthSquaredIsDot(c[..], 0);
      var A := 0.5 * sqrt(VecLengthSquared(c[..], 0));
      pInvMass := if A > 0.0 then 1.0 / A / 3.0 else 0.0;
      assert pInvMass == CornerShare(A);
    }

    /** e0 and e1 become the edges of triangle i from its corner 0 and c
        their cross product, the triangle's area vector. */
    method AreaInto(i: nat, e0: array<real>, e1: array<real>, c: array<real>)
      requires Shape() && 3 * i + 2 < |triIds|
      requires e0.Length == 3 && e1.Length == 3 && c.Length == 3
      requires e0 != e1 && e0 != c && e1 != c && e0 != pos && e1 != pos && c != pos
      modifies e0, e1, c
      ensures At(c[..], 0) == AreaVector(pos[..], triIds, i)
    {
      var id0 := triIds[3 * i];
      var id1 := triIds[3 * i + 1];
      var id2 := triIds[3 * i + 2];
      ghost var p0, p1, p2 := At(pos[..], id0), At(pos[..], id1), At(pos[..], id2);
      VecSetDiff(e0, 0, pos, id1, pos, id0, 1.0);
      ScaleOne(p1.Sub(p0));
      assert At(e0[..], 0) == p1.Sub(p0);
      VecSetDiff(e1, 0, pos, id2, pos, id0, 1.0);
      ScaleOne(p2.Sub(p0));
      assert At(e1[..], 0) == p2.Sub(p0);
      VecSetCross(c, 0, e0, 0, e1, 0);
    }

    /** preSolve: every unpinned particle is damped, gains gravity, remembers
        its position and moves; a move below the floor is undone in x and z
        and put on the floor. */
    method PreSolve(dt: real, gravity: array<real>)
      requires Valid() && gravity.Length == 3
      requires gravity != pos && gravity != prevPos && gravity != vel
      modifies pos, prevPos, vel
      ensures Valid()
      ensures Particles(pos[..], prevPos[..], vel[..])
           == PreSolveUpTo(Particles(old(pos[..]), old(prevPos[..]), old(vel[..])), invMass[..], At(gravity[..], 0), dt, numParticles)
      ensures forall p :: 0 <= p < numParticles && invMass[p] != 0.0 ==> 0.0 <= pos[3 * p + 1]
    {
      ghost var s0 := Particles(pos[..], prevPos[..], vel[..]);
      ghost var g := At(gravity[..], 0);
      for i := 0 to numParticles
        invariant Particles(pos[..], prevPos[..], vel[..]) == PreSolveUpTo(s0, invMass[..], g, dt, i)
      {
        PreSolveStep(i, dt, gravity);
      }
      forall p | 0 <= p < numParticles && invMass[p] != 0.0 ensures 0.0 <= pos[3 * p + 1] {
        PreSolveAboveFloor(s0, invMass[..], g, dt, p);
      }
    }

    /** The loop body of preSolve for particle i. */
    method PreSolveStep(i: nat, dt: real, gravity: array<real>)
      requires Valid() && i < numParticles && gravity.Length == 3
      requires gravity != pos && gravity != prevPos && gravity != vel
      modifies pos, prevPos, vel
      ensures Particles(pos[..], prevPos[..], vel[..])
           == PreSolveParticle(Particles(old(pos[..]), old(prevPos[..]), old(vel[..])), invMass[..], At(gravity[..], 0), dt, i)
    {
      if invMass[i] == 0.0 {
        return;
      }
      ghost var P, V := pos[..], vel[..];
      ghost var p, v, g := At(P, i), At(V, i), At(gravity[..], 0);
      VecScale(vel, i, Damping);
      VecAdd(vel, i, gravity, 0, dt);
      WithSlotTwice(V, i, v.Scale(Damping), PreVel(v, g, dt));
      VecCopy(prevPos, i, pos, i);
      VecAdd(pos, i, vel, i, dt);
      ghost var q := p.Add(PreVel(v, g, dt).Scale(dt));
      if pos[3 * i + 1] < 0.0 {
        VecCopy(pos, i, prevPos, i);
        pos[3 * i + 1] := 0.0;
        WithSlotTwice(P, i, q, p);
        WithSlotSetY(P, i, p, 0.0);
      }
    }

    /** solve: all stretching constraints, then all bending constraints.
        Pinned particles do not move. */
    method Solve(dt: real)
      requires Valid() && dt != 0.0
      modifies pos, grads
      ensures Valid()
      ensures pos[..] == SolveUpTo(SolveUpTo(old(pos[..]), invMass[..], stretchingIds, stretchingLengths[..], 2,
                                             stretchingCompliance / dt / dt, sqrt, stretchingLengths.Length),
                                   invMass[..], bendingIds, bendingLengths[..], 4,
                                   bendingCompliance / dt / dt, sqrt, bendingLengths.Length)
      ensures forall p :: 0 <= p < numParticles && invMass[p] == 0.0 ==> At(pos[..], p) == At(old(pos[..]), p)
    {
      SolveConstraints(stretchingIds, stretchingLengths, stretchingCompliance, dt, 2);
      SolveConstraints(bendingIds, bendingLengths, bendingCompliance, dt, 4);
    }

    /** solveConstraints: projects constraints 0 .. lengths.Length-1 in
        order, each on the positions the previous ones left.  Pinned
        particles do not move. */
    method SolveConstraints(ids: seq<nat>, lengths: array<real>, compliance: real, dt: real, stride: nat)
      requires Valid() && dt != 0.0 && 0.0 <= compliance
      requires lengths != pos && lengths != grads
      requires Constraints(ids, stride, lengths.Length, numParticles)
      modifies pos, grads
      ensures Valid()
      ensures pos[..] == SolveUpTo(old(pos[..]), invMass[..], ids, lengths[..], stride, compliance / dt / dt, sqrt, lengths.Length)
      ensures forall p :: 0 <= p < numParticles && invMass[p] == 0.0 ==> At(pos[..], p) == At(old(pos[..]), p)
    {
      var alpha := compliance / dt / dt;
      AlphaNonNegative(compliance, dt);
      ProjectAll(ids, lengths, alpha, stride);
    }

    /** The loop of solveConstraints, with alpha already computed. */
    method ProjectAll(ids: seq<nat>, lengths: array<real>, alpha: real, stride: nat)
      requires Valid() && 0.0 <= alpha
      requires lengths != pos && lengths != grads
      requires Constraints(ids, stride, lengths.Length, numParticles)
      modifies pos, grads
      ensures pos[..] == SolveUpTo(old(pos[..]), invMass[..], ids, lengths[..], stride, alpha, sqrt, lengths.Length)
      ensures forall p :: 0 <= p < numParticles && invMass[p] == 0.0 ==> At(pos[..], p) == At(old(pos[..]), p)
    {
      ghost var P, M, L := pos[..], invMass[..], lengths[..];
      for i := 0 to lengths.Length
        invariant pos[..] == SolveUpTo(P, M, ids, L, stride, alpha, sqrt, i)
      {
        ProjectStep(ids, lengths, i, alpha, stride);
      }
      forall p | 0 <= p < numParticles && M[p] == 0.0 ensures At(pos[..], p) == At(P, p) {
        SolveKeepsPinned(P, M, ids, L, stride, alpha, sqrt, lengths.Length, p);
      }
    }

    /** The loop body of solveConstraints for constraint i. */
    method ProjectStep(ids: seq<nat>, lengths: array<real>, i: nat, alpha: real, stride: nat)
      requires Valid() && 0.0 <= alpha && lengths != pos && lengths != grads
      requires Constraints(ids, stride, lengths.Length, numParticles) && i < lengths.Length
      modifies pos, grads
      ensures pos[..] == ProjectConstraint(old(pos[..]), invMass[..], End0(ids, stride, i), End1(ids, stride, i),
                                           lengths[i], alpha, sqrt)
    {
      var id0 := ids[stride * i + (if stride == 4 then 2 else 0)];
      var id1 := ids[stride * i + (if stride == 4 then 3 else 1)];
      assert id0 == End0(ids, stride, i) && id1 == End1(ids, stride, i);
      ProjectPair(id0, id1, lengths[i], alpha);
    }

    /** The projection of the constraint between id0 and id1: it is skipped
        when both endpoints are pinned or the current length is zero. */
    method ProjectPair(id0: nat, id1: nat, restLen: real, alpha: real)
      requires Valid() && 0.0 <= alpha && id0 < numParticles && id1 < numParticles
      modifies pos, grads
      ensures pos[..] == ProjectConstraint(old(pos[..]), invMass[..], id0, id1, restLen, alpha, sqrt)
    {
      ghost var P, M := pos[..], invMass[..];
      var w := invMass[id0] + invMass[id1];
      if w == 0.0 {
        ProjectSkips(P, M, id0, id1, restLen, alpha, sqrt);
        return;
      }
      var len := SetDirection(id0, id1);
      if len == 0.0 {
        ProjectSkips(P, M, id0, id1, restLen, alpha, sqrt);
        return;
      }
      Correct(id0, id1, restLen, alpha, len);
    }

    /** The correcting half of a projection, once grads slot 0 holds the
        unit direction and len the current length. */
    method Correct(id0: nat, id1: nat, restLen: real, alpha: real, len: real)
      requires Valid() && 0.0 <= alpha && id0 < numParticles && id1 < numParticles
      requires invMass[id0] + invMass[id1] != 0.0
      requires len == CurrentLength(pos[..], id0, id1, sqrt) && len != 0.0
      requires At(grads[..], 0) == Direction(At(pos[..], id0).Sub(At(pos[..], id1)), len)
      modifies pos
      ensures pos[..] == ProjectConstraint(old(pos[..]), invMass[..], id0, id1, restLen, alpha, sqrt)
    {
      ghost var P, M := pos[..], invMass[..];
      var w0 := invMass[id0];
      var w1 := invMass[id1];
      var w := w0 + w1;
      var C := len - restLen;
      var s := -C / (w + alpha);
      assert s == Multiplier(len, restLen, w, alpha);
      ProjectMoves(P, M, id0, id1, restLen, alpha, sqrt);
      MoveEndpoints(id0, id1, s, w0, w1, Direction(At(P, id0).Sub(At(P, id1)), len));
    }

    /** The first half of a projection: grads slot 0 becomes the difference
        of the endpoints and len its length; when len is not zero the slot
        is scaled to the unit direction. */
    method SetDirection(id0: nat, id1: nat) returns (len: real)
      requires Shape() && id0 < numParticles && id1 < numParticles
      modifies grads
      ensures len == CurrentLength(pos[..], id0, id1, sqrt)
      ensures len != 0.0 ==> At(grads[..], 0) == Direction(At(pos[..], id0).Sub(At(pos[..], id1)), len)
    {
      ghost var d := At(pos[..], id0).Sub(At(pos[..], id1));
      VecSetDiff(grads, 0, pos, id0, pos, id1, 1.0);
      ScaleOne(d);
      LengthSquaredIsDot(grads[..], 0);
      len := sqrt(VecLengthSquared(grads[..], 0));
      if len != 0.0 {
        VecScale(grads, 0, 1.0 / len);
      }
    }

    /** The two vecAdd calls that end a projection: endpoint id0 moves by
        s * w0 and endpoint id1 by -s * w1 along the direction in grads. */
    method MoveEndpoints(id0: nat, id1: nat, s: real, w0: real, w1: real, ghost n: Vec3)
      requires Shape() && id0 < numParticles && id1 < numParticles && At(grads[..], 0) == n
      modifies pos
      ensures var p1 := WithSlot(old(pos[..]), id0, At(old(pos[..]), id0).Add(n.Scale(s).Scale(w0)));
              pos[..] == WithSlot(p1, id1, At(p1, id1).Add(n.Scale(-s).Scale(w1)))
    {
      ghost var P := pos[..];
      var a0 := s * w0;
      VecAdd(pos, id0, grads, 0, a0);
      ScaleTwice(n, s, w0);
      assert pos[..] == WithSlot(P, id0, At(P, id0).Add(n.Scale(s).Scale(w0)));
      var ms := -s;
      var a1 := ms * w1;
      VecAdd(pos, id1, grads, 0, a1);
      ScaleTwice(n, ms, w1);
    }

    /** postSolve: every unpinned particle's velocity becomes its last
        displacement divided by dt. */
    method PostSolve(dt: real)
      requires Valid() && dt != 0.0
      modifies vel
      ensures Valid()
      ensures vel[..] == PostSolveUpTo(old(vel[..]), pos[..], prevPos[..], invMass[..], dt, numParticles)
    {
      for i := 0 to numParticles
        invariant vel[..] == PostSolveUpTo(old(vel[..]), pos[..], prevPos[..], invMass[..], dt, i)
      {
        if invMass[i] == 0.0 {
          continue;
        }
        VecSetDiff(vel, i, pos, i, prevPos, i, 1.0 / dt);
      }
    }

    /** The parts of the cloth a substep reads and does not change. */
    ghost function CurrentSetup(): (m: Setup)
      reads this, invMass, stretchingLengths, bendingLengths
      ensures Valid() ==> SetupOk(m) && |m.invMass| == numParticles
    {
      Setup(invMass[..], stretchingIds, stretchingLengths[..], stretchingCompliance,
            bendingIds, bendingLengths[..], bendingCompliance, sqrt)
    }

    /** The three particle buffers as one value. */
    ghost function State(): Particles
      reads this, pos, prevPos, vel
    {
      Particles(pos[..], prevPos[..], vel[..])
    }

    /** One substep of the frame loop: preSolve, solve, postSolve.  A
        pinned particle keeps its position, previous position and velocity. */
    method Substep(dt: real, gravity: array<real>)
      requires Valid() && dt != 0.0 && gravity.Length == 3
      requires gravity != pos && gravity != prevPos && gravity != vel && gravity != grads
      modifies pos, prevPos, vel, grads
      ensures Valid()
      ensures State() == SubstepState(CurrentSetup(), old(State()), At(gravity[..], 0), dt)
      ensures forall p :: 0 <= p < numParticles && invMass[p] == 0.0 ==> SameParticle(old(State()), State(), p)
    {
      ghost var s0 := State();
      ghost var m := CurrentSetup();
      PreSolve(dt, gravity);
      Solve(dt);
      PostSolve(dt);
      forall p | 0 <= p < numParticles && invMass[p] == 0.0 ensures SameParticle(s0, State(), p) {
        SubstepKeepsPinned(m, s0, At(gravity[..], 0), dt, p);
      }
    }

    /** The frame loop of the view: NumSubsteps substeps of
        FrameDt / NumSubsteps under Gravity.  Pinned particles stay where
        they are. */
    method Frame()
      requires Valid()
      modifies pos, prevPos, vel, grads
      ensures Valid()
      ensures State() == Substeps(CurrentSetup(), old(State()), Gravity, FrameDt / NumSubsteps as real, NumSubsteps)
      ensures forall p :: 0 <= p < numParticles && invMass[p] == 0.0 ==> SameParticle(old(State()), State(), p)
    {
      var sdt := FrameDt / NumSubsteps as real;
      var gravity := new real[3];
      gravity[0], gravity[1], gravity[2] := Gravity.x, Gravity.y, Gravity.z;
      assert At(gravity[..], 0) == Gravity;
      ghost var s0, m := State(), CurrentSetup();
      RunSubsteps(NumSubsteps, sdt, gravity);
      forall p | 0 <= p < numParticles && invMass[p] == 0.0 ensures SameParticle(s0, State(), p) {
        SubstepsKeepPinned(m, s0, Gravity, sdt, NumSubsteps, p);
      }
    }

    /** The substep loop of the frame: n substeps of dt under the same gravity. */
    method RunSubsteps(n: nat, dt: real, gravity: array<real>)
      requires Valid() && dt != 0.0 && gravity.Length == 3
      requires gravity != pos && gravity != prevPos && gravity != vel && gravity != grads
      modifies pos, prevPos, vel, grads
      ensures Valid()
      ensures State() == Substeps(CurrentSetup(), old(State()), At(gravity[..], 0), dt, n)
    {
      ghost var s0, m, g := State(), CurrentSetup(), At(gravity[..], 0);
      for i := 0 to n
        invariant Valid() && CurrentSetup() == m
        invariant State() == Substeps(m, s0, g, dt, i)
      {
        Substep(dt, gravity);
      }
    }

    /** applyImpulse: every unpinned particle closer than radius to the
        click point gains the force scaled by 1 - distSq / radiusSq. */
    method ApplyImpulse(point: Vec3, force: Vec3, radius: real)
      requires Valid()
      modifies vel
      ensures Valid()
      ensures vel[..] == ImpulseUpTo(old(vel[..]), pos[..], invMass[..], point, force, radius, numParticles)
    {
      var radiusSq := radius * radius;
      for i := 0 to numParticles
        invariant vel[..] == ImpulseUpTo(old(vel[..]), pos[..], invMass[..], point, force, radius, i)
      {
        if invMass[i] == 0.0 {
          continue;
        }
        ImpulseStep(i, point, force, radius, radiusSq);
      }
    }

    /** The loop body of applyImpulse for an unpinned particle i. */
    method ImpulseStep(i: nat, point: Vec3, force: Vec3, radius: real, radiusSq: real)
      requires Valid() && i < numParticles && radiusSq == radius * radius
      modifies vel
      ensures vel[..] == WithSlot(old(vel[..]), i, ImpulseVel(At(old(vel[..]), i), At(pos[..], i), point, force, radius))
    {
      var px := pos[3 * i];
      var py := pos[3 * i + 1];
      var pz := pos[3 * i + 2];
      var dx := px - point.x;
      var dy := py - point.y;
      var dz := pz - point.z;
      var distSq := dx * dx + dy * dy + dz * dz;
      assert Vec3(dx, dy, dz) == At(pos[..], i).Sub(point);
      assert distSq == Vec3(dx, dy, dz).Dot(Vec3(dx, dy, dz));
      assert distSq == DistSq(At(pos[..], i), point);
      ghost var V := vel[..];
      if distSq < radiusSq {
        var falloff := 1.0 - (distSq / radiusSq);
        assert falloff == Falloff(distSq, radiusSq);
        var vx := vel[3 * i] + force.x * falloff;
        var vy := vel[3 * i + 1] + force.y * falloff;
        var vz := vel[3 * i + 2] + force.z * falloff;
        assert Vec3(vx, vy, vz) == At(V, i).Add(force.Scale(falloff));
        vel[3 * i] := vx;
        vel[3 * i + 1] := vy;
        vel[3 * i + 2] := vz;
        assert vel[..] == V[3 * i := vx][3 * i + 1 := vy][3 * i + 2 := vz] == WithSlot(V, i, Vec3(vx, vy, vz));
      } else {
        WithSlotSame(V, i);
      }
    }
  }
}
