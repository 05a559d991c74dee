/**
 * What each phase of ClothPhysics (src/physics/ClothPhysics.ts) computes,
 * stated on snapshots of the flat buffers.  Every loop of the class is
 * specified by a function here that folds the loop body over a prefix of
 * the particles or constraints; the lemmas state what the phases promise
 * about those folds.
 */
module Dynamics {
  import opened VectorMath
  import opened Topology

  // ---------------------------------------------------------------------
  // Math.sqrt

  /** The square root as far as the engine relies on it: on a non-negative
      argument it returns the non-negative number whose square is the argument. */
  ghost predicate IsSqrt(sqrt: real -> real)
  {
    forall x: real :: 0.0 <= x ==> 0.0 <= sqrt(x) && sqrt(x) * sqrt(x) == x
  }

  /** The square root of a non-negative number is zero exactly at zero. */
  lemma SqrtZeroIff(sqrt: real -> real, x: real)
    requires IsSqrt(sqrt) && 0.0 <= x
    ensures sqrt(x) == 0.0 <==> x == 0.0
  {
    var r := sqrt(x);
    assert r * r == x;
    if x == 0.0 {
      MulZero(r, r);
    }
  }

  /** Every entry of ids names a particle below n. */
  predicate IdsBelow(ids: seq<nat>, n: nat)
  {
    forall j :: 0 <= j < |ids| ==> ids[j] < n
  }

  /** Every entry of a buffer is non-negative. */
  predicate NonNegative(m: seq<real>)
  {
    forall k :: 0 <= k < |m| ==> 0.0 <= m[k]
  }

  // ---------------------------------------------------------------------
  // initPhysics: inverse masses from triangle areas

  /** The cross product (p1 - p0) x (p2 - p0) of triangle t, whose length is
      twice the triangle's area. */
  function AreaVector(pos: seq<real>, tri: seq<nat>, t: nat): Vec3
    requires |pos| % 3 == 0 && IdsBelow(tri, |pos| / 3) && 3 * t + 2 < |tri|
  {
    var p0, p1, p2 := At(pos, tri[3 * t]), At(pos, tri[3 * t + 1]), At(pos, tri[3 * t + 2]);
    p1.Sub(p0).Cross(p2.Sub(p0))
  }

  /** The inverse mass each corner of a triangle of the given area
      receives: a third of the reciprocal area, or nothing without area. */
  function CornerShare(area: real): (w: real)
    ensures 0.0 <= w
    ensures w == 0.0 <==> area <= 0.0
  {
    if area > 0.0 then 1.0 / area / 3.0 else 0.0
  }

  /** The inverse mass each corner of triangle t receives; the area is half
      the length of AreaVector. */
  function CornerInvMass(pos: seq<real>, tri: seq<nat>, t: nat, sqrt: real -> real): (w: real)
    requires |pos| % 3 == 0 && IdsBelow(tri, |pos| / 3) && 3 * t + 2 < |tri|
    ensures 0.0 <= w
  {
    var c := AreaVector(pos, tri, t);
    CornerShare(0.5 * sqrt(c.Dot(c)))
  }

  /** A corner receives inverse mass exactly when its triangle has an area. */
  lemma ZeroAreaAddsNothing(pos: seq<real>, tri: seq<nat>, t: nat, sqrt: real -> real)
    requires |pos| % 3 == 0 && IdsBelow(tri, |pos| / 3) && 3 * t + 2 < |tri| && IsSqrt(sqrt)
    ensures CornerInvMass(pos, tri, t, sqrt) == 0.0 <==> AreaVector(pos, tri, t) == Zero
  {
    var c := AreaVector(pos, tri, t);
    DotSelfNonNegative(c);
    DotSelfZeroIff(c);
    SqrtZeroIff(sqrt, c.Dot(c));
  }

  /** The share of every triangle, in the order the area loop visits them:
      entry t is what triangle t gives each of its corners. */
  function Shares(pos: seq<real>, tri: seq<nat>, sqrt: real -> real): (ws: seq<real>)
    requires |pos| % 3 == 0 && IdsBelow(tri, |pos| / 3)
    ensures |ws| == |tri| / 3 && NonNegative(ws)
  {
    seq(|tri| / 3, t requires 0 <= t < |tri| / 3 => CornerInvMass(pos, tri, t, sqrt))
  }

  /** The three += of one triangle, in the source's order (a repeated
      corner is incremented twice). */
  function AddCorners(m: seq<real>, a: nat, b: nat, c: nat, w: real): (r: seq<real>)
    requires a < |m| && b < |m| && c < |m|
    ensures |r| == |m|
  {
    var m1 := m[a := m[a] + w];
    var m2 := m1[b := m1[b] + w];
    m2[c := m2[c] + w]
  }

  /** The inverse masses after the area loop has visited triangles 0 .. k-1,
      triangle t giving ws[t] to each of its corners. */
  function AccumMass(m: seq<real>, tri: seq<nat>, ws: seq<real>, k: nat): (r: seq<real>)
    requires IdsBelow(tri, |m|) && 3 * k <= |tri| && k <= |ws|
    ensures |r| == |m|
  {
    if k == 0 then m
    else
      var t := k - 1;
      AddCorners(AccumMass(m, tri, ws, t), tri[3 * t], tri[3 * t + 1], tri[3 * t + 2], ws[t])
  }

  /** One more triangle adds its share to its three corners. */
  lemma AccumMassNext(m: seq<real>, tri: seq<nat>, ws: seq<real>, k: nat)
    requires IdsBelow(tri, |m|) && 3 * k + 3 <= |tri| && k < |ws|
    ensures AccumMass(m, tri, ws, k + 1) == AddCorners(AccumMass(m, tri, ws, k), tri[3 * k], tri[3 * k + 1], tri[3 * k + 2], ws[k])
  {
  }

  /** Adding a non-negative amount keeps every entry non-negative. */
  lemma AddCornersNonNegative(m: seq<real>, a: nat, b: nat, c: nat, w: real)
    requires a < |m| && b < |m| && c < |m| && NonNegative(m) && 0.0 <= w
    ensures NonNegative(AddCorners(m, a, b, c, w))
  {
  }

  /** The area loop keeps every inverse mass non-negative. */
  lemma {:induction false} AccumMassNonNegative(m: seq<real>, tri: seq<nat>, ws: seq<real>, k: nat)
    requires IdsBelow(tri, |m|) && 3 * k <= |tri| && k <= |ws| && NonNegative(m) && NonNegative(ws)
    ensures NonNegative(AccumMass(m, tri, ws, k))
  {
    if k > 0 {
      var t := k - 1;
      AccumMassNonNegative(m, tri, ws, t);
      AddCornersNonNegative(AccumMass(m, tri, ws, t), tri[3 * t], tri[3 * t + 1], tri[3 * t + 2], ws[t]);
    }
  }

  /** A particle that is no corner of triangles 0 .. k-1 keeps its inverse mass. */
  lemma {:induction false} AccumMassUntouched(m: seq<real>, tri: seq<nat>, ws: seq<real>, k: nat, v: nat)
    requires IdsBelow(tri, |m|) && 3 * k <= |tri| && k <= |ws| && v < |m|
    requires forall j :: 0 <= j < 3 * k ==> tri[j] != v
    ensures AccumMass(m, tri, ws, k)[v] == m[v]
  {
    if k > 0 {
      AccumMassUntouched(m, tri, ws, k - 1, v);
      assert tri[3 * (k - 1)] != v && tri[3 * (k - 1) + 1] != v && tri[3 * (k - 1) + 2] != v;
    }
  }

  /** The inverse masses initPhysics leaves: the corner shares of every
      triangle accumulated from zero, then the top row pinned. */
  function InitialInvMass(pos: seq<real>, tri: seq<nat>, n: nat, sqrt: real -> real): (r: seq<real>)
    requires |pos| == 3 * n && IdsBelow(tri, n) && |tri| % 3 == 0
    ensures |r| == n
  {
    PinUpTo(AccumMass(seq(n, _ => 0.0), tri, Shares(pos, tri, sqrt), |tri| / 3), pos, MaxYUpTo(pos, n), n)
  }

  /** Every initial inverse mass is non-negative. */
  lemma InitialInvMassNonNegative(pos: seq<real>, tri: seq<nat>, n: nat, sqrt: real -> real)
    requires |pos| == 3 * n && IdsBelow(tri, n) && |tri| % 3 == 0
    ensures NonNegative(InitialInvMass(pos, tri, n, sqrt))
  {
    var zeros: seq<real> := seq(n, _ => 0.0);
    var ws := Shares(pos, tri, sqrt);
    AccumMassNonNegative(zeros, tri, ws, |tri| / 3);
    PinKeepsNonNegative(AccumMass(zeros, tri, ws, |tri| / 3), pos, MaxYUpTo(pos, n), n);
  }

  /** A particle that is a corner of no triangle keeps inverse mass zero:
      it is pinned. */
  lemma LooseParticlePinned(pos: seq<real>, tri: seq<nat>, n: nat, sqrt: real -> real, p: nat)
    requires |pos| == 3 * n && IdsBelow(tri, n) && |tri| % 3 == 0 && p < n
    requires forall j :: 0 <= j < |tri| ==> tri[j] != p
    ensures InitialInvMass(pos, tri, n, sqrt)[p] == 0.0
  {
    var zeros: seq<real> := seq(n, _ => 0.0);
    var ws := Shares(pos, tri, sqrt);
    AccumMassUntouched(zeros, tri, ws, |tri| / 3, p);
    PinUpToAt(AccumMass(zeros, tri, ws, |tri| / 3), pos, MaxYUpTo(pos, n), n, p);
  }

  /** Every particle within PinEps of the highest one is pinned. */
  lemma TopRowPinned(pos: seq<real>, tri: seq<nat>, n: nat, sqrt: real -> real, p: nat)
    requires |pos| == 3 * n && IdsBelow(tri, n) && |tri| % 3 == 0 && p < n
    requires InTopRow(pos, MaxYUpTo(pos, n), p)
    ensures InitialInvMass(pos, tri, n, sqrt)[p] == 0.0
  {
    var zeros: seq<real> := seq(n, _ => 0.0);
    PinUpToAt(AccumMass(zeros, tri, Shares(pos, tri, sqrt), |tri| / 3), pos, MaxYUpTo(pos, n), n, p);
  }

  /** Adding a non-negative share never lowers an entry, and raises each
      corner by at least the share. */
  lemma AddCornersAt(m: seq<real>, a: nat, b: nat, c: nat, w: real, v: nat)
    requires a < |m| && b < |m| && c < |m| && v < |m| && 0.0 <= w
    ensures m[v] <= AddCorners(m, a, b, c, w)[v]
    ensures v == a || v == b || v == c ==> m[v] + w <= AddCorners(m, a, b, c, w)[v]
  {
  }

  /** One more triangle never lowers an inverse mass. */
  lemma AccumMassStepUp(m: seq<real>, tri: seq<nat>, ws: seq<real>, k: nat, v: nat)
    requires IdsBelow(tri, |m|) && 0 < k && 3 * k <= |tri| && k <= |ws| && v < |m| && NonNegative(ws)
    ensures AccumMass(m, tri, ws, k - 1)[v] <= AccumMass(m, tri, ws, k)[v]
  {
    var t := k - 1;
    AddCornersAt(AccumMass(m, tri, ws, t), tri[3 * t], tri[3 * t + 1], tri[3 * t + 2], ws[t], v);
  }

  /** The area loop never lowers an inverse mass: later prefixes give at
      least as much to every particle. */
  lemma {:induction false} AccumMassMonotone(m: seq<real>, tri: seq<nat>, ws: seq<real>, j: nat, k: nat, v: nat)
    requires IdsBelow(tri, |m|) && j <= k && 3 * k <= |tri| && k <= |ws| && v < |m| && NonNegative(ws)
    ensures AccumMass(m, tri, ws, j)[v] <= AccumMass(m, tri, ws, k)[v]
  {
    if j < k {
      AccumMassMonotone(m, tri, ws, j, k - 1, v);
      AccumMassStepUp(m, tri, ws, k, v);
    }
  }

  /** Triangle t gives each of its corners a positive share on top of a
      non-negative start. */
  lemma AccumMassAfterCorner(m: seq<real>, tri: seq<nat>, ws: seq<real>, t: nat, p: nat)
    requires IdsBelow(tri, |m|) && NonNegative(m) && NonNegative(ws)
    requires 3 * t + 3 <= |tri| && t < |ws| && (p == tri[3 * t] || p == tri[3 * t + 1] || p == tri[3 * t + 2])
    requires 0.0 < ws[t]
    ensures 0.0 < AccumMass(m, tri, ws, t + 1)[p]
  {
    var before := AccumMass(m, tri, ws, t);
    AccumMassNonNegative(m, tri, ws, t);
    AddCornersAt(before, tri[3 * t], tri[3 * t + 1], tri[3 * t + 2], ws[t], p);
  }

  /** A corner of a triangle with a positive share ends the area loop with
      a positive inverse mass, whatever non-negative start it had. */
  lemma {:induction false} AccumMassCornerPositive(m: seq<real>, tri: seq<nat>, ws: seq<real>, t: nat, k: nat, p: nat)
    requires IdsBelow(tri, |m|) && NonNegative(m) && NonNegative(ws)
    requires t < k && 3 * k <= |tri| && k <= |ws| && (p == tri[3 * t] || p == tri[3 * t + 1] || p == tri[3 * t + 2])
    requires 0.0 < ws[t]
    ensures 0.0 < AccumMass(m, tri, ws, k)[p]
  {
    if k == t + 1 {
      AccumMassAfterCorner(m, tri, ws, t, p);
    } else {
      AccumMassCornerPositive(m, tri, ws, t, k - 1, p);
      AccumMassStepUp(m, tri, ws, k, p);
    }
  }

  /** A triangle with area has a positive share. */
  lemma ShareWithAreaPositive(pos: seq<real>, tri: seq<nat>, sqrt: real -> real, t: nat)
    requires |pos| % 3 == 0 && IdsBelow(tri, |pos| / 3) && 3 * t + 2 < |tri| && IsSqrt(sqrt)
    requires AreaVector(pos, tri, t) != Zero
    ensures t < |tri| / 3 && 0.0 < Shares(pos, tri, sqrt)[t]
  {
    ZeroAreaAddsNothing(pos, tri, t, sqrt);
  }

  /** The converse of TopRowPinned, in the form the code keeps: a particle
      below the top row that is a corner of a triangle with area is not
      pinned.  (A loose particle, or one only in zero-area triangles, keeps
      inverse mass 0 although it is not in the top row.) */
  lemma CornerBelowTopRowUnpinned(pos: seq<real>, tri: seq<nat>, n: nat, sqrt: real -> real, t: nat, p: nat)
    requires |pos| == 3 * n && IdsBelow(tri, n) && |tri| % 3 == 0 && IsSqrt(sqrt) && p < n
    requires !InTopRow(pos, MaxYUpTo(pos, n), p)
    requires 3 * t + 2 < |tri| && (p == tri[3 * t] || p == tri[3 * t + 1] || p == tri[3 * t + 2])
    requires AreaVector(pos, tri, t) != Zero
    ensures 0.0 < InitialInvMass(pos, tri, n, sqrt)[p]
  {
    var zeros: seq<real> := seq(n, _ => 0.0);
    var ws := Shares(pos, tri, sqrt);
    assert NonNegative(zeros);
    ShareWithAreaPositive(pos, tri, sqrt, t);
    AccumMassCornerPositive(zeros, tri, ws, t, |tri| / 3, p);
    PinUpToAt(AccumMass(zeros, tri, ws, |tri| / 3), pos, MaxYUpTo(pos, n), n, p);
  }

  // ---------------------------------------------------------------------
  // initPhysics: rest lengths

  /** Offset of a constraint's first solved endpoint inside its record:
      stretching pairs (stride 2) use entries 0 and 1, bending quads
      (stride 4) the off vertices at entries 2 and 3. */
  function EndOffset(stride: nat): nat
  {
    if stride == 4 then 2 else 0
  }

  /** The constraint records ids with the given stride fit count
      constraints whose endpoints are particles below n. */
  predicate Constraints(ids: seq<nat>, stride: nat, count: nat, n: nat)
  {
    (stride == 2 || stride == 4) && stride * count <= |ids| && IdsBelow(ids, n)
  }

  /** First solved endpoint of constraint i. */
  function End0(ids: seq<nat>, stride: nat, i: nat): nat
    requires (stride == 2 || stride == 4) && stride * i + stride <= |ids|
  {
    ids[stride * i + EndOffset(stride)]
  }

  /** Second solved endpoint of constraint i. */
  function End1(ids: seq<nat>, stride: nat, i: nat): nat
    requires (stride == 2 || stride == 4) && stride * i + stride <= |ids|
  {
    ids[stride * i + EndOffset(stride) + 1]
  }

  /** The rest length of a constraint: the current distance of its endpoints. */
  function RestLength(pos: seq<real>, id0: nat, id1: nat, sqrt: real -> real): real
    requires HasSlot(pos, id0) && HasSlot(pos, id1)
  {
    sqrt(VecDistSquared(pos, id0, pos, id1))
  }

  /** A rest length is a non-negative number whose square is the squared
      distance of the endpoints. */
  lemma RestLengthIsDistance(pos: seq<real>, id0: nat, id1: nat, sqrt: real -> real)
    requires HasSlot(pos, id0) && HasSlot(pos, id1) && IsSqrt(sqrt)
    ensures 0.0 <= RestLength(pos, id0, id1, sqrt)
    ensures RestLength(pos, id0, id1, sqrt) * RestLength(pos, id0, id1, sqrt) == VecDistSquared(pos, id0, pos, id1)
  {
    assert 0.0 <= VecDistSquared(pos, id0, pos, id1);
  }

  // ---------------------------------------------------------------------
  // initPhysics: pinning the top row

  /** Number.MAX_VALUE, the largest finite double. */
  const MaxValue: real := 179769313486231570814527423731704356798070567525844996598917476803157260780028538760589558632766878171540458953514382464234321326889464182768467546703537516986049910576551282076245490090389328944075868508455133942304583236903222948165808559332123348274797826204144723168738177180919299881250404026184124858368.0

  /** Particles within this distance below the highest one are pinned. */
  const PinEps: real := 0.0001

  function Max(a: real, b: real): real { if a < b then b else a }

  /** The running maximum of the y coordinates of particles 0 .. k-1,
      starting from -Number.MAX_VALUE. */
  function MaxYUpTo(pos: seq<real>, k: nat): (r: real)
    requires 3 * k <= |pos|
    ensures -MaxValue <= r
  {
    if k == 0 then -MaxValue else Max(MaxYUpTo(pos, k - 1), pos[3 * (k - 1) + 1])
  }

  /** The running maximum bounds every y it has seen ... */
  lemma {:induction false} MaxYIsUpperBound(pos: seq<real>, k: nat, p: nat)
    requires 3 * k <= |pos| && p < k
    ensures pos[3 * p + 1] <= MaxYUpTo(pos, k)
  {
    if p < k - 1 {
      MaxYIsUpperBound(pos, k - 1, p);
    }
  }

  /** ... and is one of them, unless every y lies below -Number.MAX_VALUE. */
  lemma {:induction false} MaxYIsAttained(pos: seq<real>, k: nat) returns (p: nat)
    requires 3 * k <= |pos| && MaxYUpTo(pos, k) != -MaxValue
    ensures p < k && pos[3 * p + 1] == MaxYUpTo(pos, k)
  {
    if MaxYUpTo(pos, k - 1) < pos[3 * (k - 1) + 1] {
      p := k - 1;
    } else {
      p := MaxYIsAttained(pos, k - 1);
    }
  }

  /** A particle lies in the pinned top row. */
  predicate InTopRow(pos: seq<real>, maxY: real, i: nat)
    requires 3 * i + 2 < |pos|
  {
    pos[3 * i + 1] > maxY - PinEps
  }

  /** The inverse masses after the pinning loop has visited particles 0 .. k-1. */
  function PinUpTo(m: seq<real>, pos: seq<real>, maxY: real, k: nat): (r: seq<real>)
    requires |pos| == 3 * |m| && k <= |m|
    ensures |r| == |m|
  {
    if k == 0 then m
    else
      var r0 := PinUpTo(m, pos, maxY, k - 1);
      if InTopRow(pos, maxY, k - 1) then r0[k - 1 := 0.0] else r0
  }

  /** Pinning zeroes exactly the visited particles in the top row and keeps
      every other inverse mass. */
  lemma {:induction false} PinUpToAt(m: seq<real>, pos: seq<real>, maxY: real, k: nat, p: nat)
    requires |pos| == 3 * |m| && k <= |m| && p < |m|
    ensures p < k && InTopRow(pos, maxY, p) ==> PinUpTo(m, pos, maxY, k)[p] == 0.0
    ensures !(p < k && InTopRow(pos, maxY, p)) ==> PinUpTo(m, pos, maxY, k)[p] == m[p]
  {
    if k > 0 {
      PinUpToAt(m, pos, maxY, k - 1, p);
    }
  }

  /** Pinning keeps inverse masses non-negative. */
  lemma PinKeepsNonNegative(m: seq<real>, pos: seq<real>, maxY: real, k: nat)
    requires |pos| == 3 * |m| && k <= |m| && NonNegative(m)
    ensures NonNegative(PinUpTo(m, pos, maxY, k))
  {
    var r := PinUpTo(m, pos, maxY, k);
    forall p | 0 <= p < |r| ensures 0.0 <= r[p] {
      PinUpToAt(m, pos, maxY, k, p);
    }
  }

  /** With the maximum taken over all particles, the highest particle is pinned. */
  lemma HighestParticlePinned(m: seq<real>, pos: seq<real>)
    requires |pos| == 3 * |m| && 0 < |m| && MaxYUpTo(pos, |m|) != -MaxValue
    ensures exists p :: 0 <= p < |m| && PinUpTo(m, pos, MaxYUpTo(pos, |m|), |m|)[p] == 0.0
                        && pos[3 * p + 1] == MaxYUpTo(pos, |m|)
  {
    var maxY := MaxYUpTo(pos, |m|);
    var p := MaxYIsAttained(pos, |m|);
    assert InTopRow(pos, maxY, p);
    PinUpToAt(m, pos, maxY, |m|, p);
  }

  // ---------------------------------------------------------------------
  // preSolve

  /** The per-particle buffers preSolve updates. */
  datatype Particles = Particles(pos: seq<real>, prevPos: seq<real>, vel: seq<real>)

  /** The three buffers hold n particles. */
  predicate Holds(s: Particles, n: nat)
  {
    |s.pos| == 3 * n && |s.prevPos| == 3 * n && |s.vel| == 3 * n
  }

  /** Air damping applied to the velocity every substep. */
  const Damping: real := 0.99

  /** The velocity after damping and gravity. */
  function PreVel(v: Vec3, g: Vec3, dt: real): Vec3
  {
    v.Scale(Damping).Add(g.Scale(dt))
  }

  /** The position after integrating velocity v from p for dt; a step that
      would go below the floor y = 0 is undone in x and z and put on the floor. */
  function PrePos(p: Vec3, v: Vec3, dt: real): (r: Vec3)
    ensures 0.0 <= r.y
    ensures r == p.Add(v.Scale(dt)) || r == Vec3(p.x, 0.0, p.z)
  {
    var q := p.Add(v.Scale(dt));
    if q.y < 0.0 then Vec3(p.x, 0.0, p.z) else q
  }

  /** The loop body of preSolve for particle i. */
  function PreSolveParticle(s: Particles, invMass: seq<real>, g: Vec3, dt: real, i: nat): (r: Particles)
    requires Holds(s, |invMass|) && i < |invMass|
    ensures Holds(r, |invMass|)
    ensures invMass[i] == 0.0 ==> r == s
    ensures invMass[i] != 0.0 ==> 0.0 <= r.pos[3 * i + 1] && At(r.prevPos, i) == At(s.pos, i)
  {
    if invMass[i] == 0.0 then s
    else
      var p := At(s.pos, i);
      var v := PreVel(At(s.vel, i), g, dt);
      Particles(WithSlot(s.pos, i, PrePos(p, v, dt)), WithSlot(s.prevPos, i, p), WithSlot(s.vel, i, v))
  }

  /** The buffers after preSolve has visited particles 0 .. k-1. */
  function PreSolveUpTo(s: Particles, invMass: seq<real>, g: Vec3, dt: real, k: nat): (r: Particles)
    requires Holds(s, |invMass|) && k <= |invMass|
    ensures Holds(r, |invMass|)
  {
    if k == 0 then s else PreSolveParticle(PreSolveUpTo(s, invMass, g, dt, k - 1), invMass, g, dt, k - 1)
  }

  /** Particle p is left alone by preSolve up to k: not visited yet, or pinned. */
  lemma {:induction false} PreSolveKeeps(s: Particles, invMass: seq<real>, g: Vec3, dt: real, k: nat, p: nat)
    requires Holds(s, |invMass|) && k <= |invMass| && p < |invMass|
    requires k <= p || invMass[p] == 0.0
    ensures At(PreSolveUpTo(s, invMass, g, dt, k).pos, p) == At(s.pos, p)
    ensures At(PreSolveUpTo(s, invMass, g, dt, k).prevPos, p) == At(s.prevPos, p)
    ensures At(PreSolveUpTo(s, invMass, g, dt, k).vel, p) == At(s.vel, p)
  {
    if k > 0 {
      var s0 := PreSolveUpTo(s, invMass, g, dt, k - 1);
      PreSolveKeeps(s, invMass, g, dt, k - 1, p);
      if invMass[k - 1] != 0.0 && k - 1 != p {
        var v := PreVel(At(s0.vel, k - 1), g, dt);
        WithSlotOther(s0.pos, k - 1, p, PrePos(At(s0.pos, k - 1), v, dt));
        WithSlotOther(s0.prevPos, k - 1, p, At(s0.pos, k - 1));
        WithSlotOther(s0.vel, k - 1, p, v);
      }
    }
  }

  /** A visited unpinned particle p: its velocity is damped and gains
      gravity, its previous position is its old position, and its position
      is integrated and kept above the floor. */
  lemma {:induction false} PreSolveMoves(s: Particles, invMass: seq<real>, g: Vec3, dt: real, k: nat, p: nat)
    requires Holds(s, |invMass|) && p < k <= |invMass| && invMass[p] != 0.0
    ensures At(PreSolveUpTo(s, invMass, g, dt, k).vel, p) == PreVel(At(s.vel, p), g, dt)
    ensures At(PreSolveUpTo(s, invMass, g, dt, k).prevPos, p) == At(s.pos, p)
    ensures At(PreSolveUpTo(s, invMass, g, dt, k).pos, p) == PrePos(At(s.pos, p), PreVel(At(s.vel, p), g, dt), dt)
  {
    var s0 := PreSolveUpTo(s, invMass, g, dt, k - 1);
    assert PreSolveUpTo(s, invMass, g, dt, k) == PreSolveParticle(s0, invMass, g, dt, k - 1);
    if p == k - 1 {
      PreSolveKeeps(s, invMass, g, dt, k - 1, p);
    } else {
      PreSolveMoves(s, invMass, g, dt, k - 1, p);
      if invMass[k - 1] != 0.0 {
        var v := PreVel(At(s0.vel, k - 1), g, dt);
        WithSlotOther(s0.pos, k - 1, p, PrePos(At(s0.pos, k - 1), v, dt));
        WithSlotOther(s0.prevPos, k - 1, p, At(s0.pos, k - 1));
        WithSlotOther(s0.vel, k - 1, p, v);
      }
    }
  }

  /** After preSolve every unpinned particle stands on or above the floor. */
  lemma PreSolveAboveFloor(s: Particles, invMass: seq<real>, g: Vec3, dt: real, p: nat)
    requires Holds(s, |invMass|) && p < |invMass| && invMass[p] != 0.0
    ensures 0.0 <= At(PreSolveUpTo(s, invMass, g, dt, |invMass|).pos, p).y
  {
    PreSolveMoves(s, invMass, g, dt, |invMass|, p);
  }

  // ---------------------------------------------------------------------
  // solveConstraints

  /** The unit direction of a difference d of length len. */
  function Direction(d: Vec3, len: real): Vec3
    requires len != 0.0
  {
    d.Scale(1.0 / len)
  }

  /** The XPBD multiplier of a constraint of current length len: the
      correction per unit of inverse mass along the unit direction. */
  function Multiplier(len: real, restLen: real, w: real, alpha: real): real
    requires 0.0 < w + alpha
  {
    -(len - restLen) / (w + alpha)
  }

  /** The multiplier is zero at the rest length, shortens a stretched
      constraint and lengthens a compressed one. */
  lemma MultiplierSign(len: real, restLen: real, w: real, alpha: real)
    requires 0.0 < w + alpha
    ensures len == restLen ==> Multiplier(len, restLen, w, alpha) == 0.0
    ensures len > restLen ==> Multiplier(len, restLen, w, alpha) < 0.0
    ensures len < restLen ==> Multiplier(len, restLen, w, alpha) > 0.0
  {
  }

  /** One XPBD distance-constraint projection (the loop body of
      solveConstraints): the endpoints move along their unit difference n,
      endpoint id0 by s * w0 and then endpoint id1 by -s * w1, so that their
      distance approaches restLen.  Nothing moves when both are pinned or
      the current length is zero. */
  function ProjectConstraint(pos: seq<real>, invMass: seq<real>, id0: nat, id1: nat, restLen: real,
                             alpha: real, sqrt: real -> real): (r: seq<real>)
    requires HasSlot(pos, id0) && HasSlot(pos, id1) && id0 < |invMass| && id1 < |invMass|
    requires 0.0 <= invMass[id0] && 0.0 <= invMass[id1] && 0.0 <= alpha
    ensures |r| == |pos|
  {
    var w0, w1 := invMass[id0], invMass[id1];
    var w := w0 + w1;
    if w == 0.0 then pos
    else
      var d := At(pos, id0).Sub(At(pos, id1));
      var len := sqrt(d.Dot(d));
      if len == 0.0 then pos
      else
        var n := Direction(d, len);
        var s := Multiplier(len, restLen, w, alpha);
        var p1 := WithSlot(pos, id0, At(pos, id0).Add(n.Scale(s).Scale(w0)));
        WithSlot(p1, id1, At(p1, id1).Add(n.Scale(-s).Scale(w1)))
  }

  /** The current length of constraint (id0, id1). */
  function CurrentLength(pos: seq<real>, id0: nat, id1: nat, sqrt: real -> real): real
    requires HasSlot(pos, id0) && HasSlot(pos, id1)
  {
    sqrt(At(pos, id0).Sub(At(pos, id1)).Dot(At(pos, id0).Sub(At(pos, id1))))
  }

  /** A constraint whose endpoints are both pinned, or whose current length
      is zero, leaves every position as it is; any other constraint moves
      only its two endpoints. */
  lemma ProjectSkips(pos: seq<real>, invMass: seq<real>, id0: nat, id1: nat, restLen: real,
                     alpha: real, sqrt: real -> real)
    requires HasSlot(pos, id0) && HasSlot(pos, id1) && id0 < |invMass| && id1 < |invMass|
    requires 0.0 <= invMass[id0] && 0.0 <= invMass[id1] && 0.0 <= alpha
    requires invMass[id0] + invMass[id1] == 0.0 || CurrentLength(pos, id0, id1, sqrt) == 0.0
    ensures ProjectConstraint(pos, invMass, id0, id1, restLen, alpha, sqrt) == pos
  {
  }

  /** Otherwise the projection writes endpoint id0 and then endpoint id1. */
  lemma ProjectMoves(pos: seq<real>, invMass: seq<real>, id0: nat, id1: nat, restLen: real,
                     alpha: real, sqrt: real -> real)
    requires HasSlot(pos, id0) && HasSlot(pos, id1) && id0 < |invMass| && id1 < |invMass|
    requires 0.0 <= invMass[id0] && 0.0 <= invMass[id1] && 0.0 <= alpha
    requires invMass[id0] + invMass[id1] != 0.0 && CurrentLength(pos, id0, id1, sqrt) != 0.0
    ensures var len := CurrentLength(pos, id0, id1, sqrt);
            var n := Direction(At(pos, id0).Sub(At(pos, id1)), len);
            var s := Multiplier(len, restLen, invMass[id0] + invMass[id1], alpha);
            var p1 := WithSlot(pos, id0, At(pos, id0).Add(n.Scale(s).Scale(invMass[id0])));
            ProjectConstraint(pos, invMass, id0, id1, restLen, alpha, sqrt)
              == WithSlot(p1, id1, At(p1, id1).Add(n.Scale(-s).Scale(invMass[id1])))
  {
  }

  /** A particle other than the two endpoints keeps its position. */
  lemma ProjectMovesOnlyEndpoints(pos: seq<real>, invMass: seq<real>, id0: nat, id1: nat, restLen: real,
                                  alpha: real, sqrt: real -> real, p: nat)
    requires HasSlot(pos, id0) && HasSlot(pos, id1) && id0 < |invMass| && id1 < |invMass|
    requires 0.0 <= invMass[id0] && 0.0 <= invMass[id1] && 0.0 <= alpha
    requires HasSlot(pos, p) && p != id0 && p != id1
    ensures At(ProjectConstraint(pos, invMass, id0, id1, restLen, alpha, sqrt), p) == At(pos, p)
  {
    var w0, w1 := invMass[id0], invMass[id1];
    if w0 + w1 != 0.0 {
      var d := At(pos, id0).Sub(At(pos, id1));
      var len := sqrt(d.Dot(d));
      if len != 0.0 {
        var n := Direction(d, len);
        var s := Multiplier(len, restLen, w0 + w1, alpha);
        var u0 := At(pos, id0).Add(n.Scale(s).Scale(w0));
        var p1 := WithSlot(pos, id0, u0);
        WithSlotOther(pos, id0, p, u0);
        WithSlotOther(p1, id1, p, At(p1, id1).Add(n.Scale(-s).Scale(w1)));
      }
    }
  }

  /** With a square root, coinciding endpoints have length zero, so a
      projection that does not skip has two distinct endpoints. */
  lemma ProjectedEndsDiffer(pos: seq<real>, id0: nat, id1: nat, sqrt: real -> real)
    requires HasSlot(pos, id0) && HasSlot(pos, id1) && IsSqrt(sqrt)
    requires CurrentLength(pos, id0, id1, sqrt) != 0.0
    ensures id0 != id1
  {
    if id0 == id1 {
      assert At(pos, id0).Sub(At(pos, id1)).Dot(At(pos, id0).Sub(At(pos, id1))) == 0.0;
      SqrtZeroIff(sqrt, 0.0);
    }
  }

  /** When a projection moves two distinct endpoints, id0 ends at u0 and id1
      at u1, each its old position plus its own correction. */
  lemma ProjectedEnds(pos: seq<real>, invMass: seq<real>, id0: nat, id1: nat, restLen: real,
                      alpha: real, sqrt: real -> real)
    requires HasSlot(pos, id0) && HasSlot(pos, id1) && id0 < |invMass| && id1 < |invMass| && id0 != id1
    requires 0.0 <= invMass[id0] && 0.0 <= invMass[id1] && 0.0 <= alpha
    requires invMass[id0] + invMass[id1] != 0.0 && CurrentLength(pos, id0, id1, sqrt) != 0.0
    ensures var len := CurrentLength(pos, id0, id1, sqrt);
            var n := Direction(At(pos, id0).Sub(At(pos, id1)), len);
            var s := Multiplier(len, restLen, invMass[id0] + invMass[id1], alpha);
            var r := ProjectConstraint(pos, invMass, id0, id1, restLen, alpha, sqrt);
            At(r, id0) == At(pos, id0).Add(n.Scale(s).Scale(invMass[id0]))
            && At(r, id1) == At(pos, id1).Add(n.Scale(-s).Scale(invMass[id1]))
  {
    var w0, w1 := invMass[id0], invMass[id1];
    var d := At(pos, id0).Sub(At(pos, id1));
    var len := sqrt(d.Dot(d));
    var n := Direction(d, len);
    var s := Multiplier(len, restLen, w0 + w1, alpha);
    var u0 := At(pos, id0).Add(n.Scale(s).Scale(w0));
    var p1 := WithSlot(pos, id0, u0);
    WithSlotOther(pos, id0, id1, u0);
    WithSlotOther(p1, id1, id0, At(p1, id1).Add(n.Scale(-s).Scale(w1)));
  }

  /** A pinned endpoint does not move. */
  lemma ProjectKeepsPinned(pos: seq<real>, invMass: seq<real>, id0: nat, id1: nat, restLen: real,
                           alpha: real, sqrt: real -> real, p: nat)
    requires HasSlot(pos, id0) && HasSlot(pos, id1) && id0 < |invMass| && id1 < |invMass|
    requires 0.0 <= invMass[id0] && 0.0 <= invMass[id1] && 0.0 <= alpha && IsSqrt(sqrt)
    requires HasSlot(pos, p) && p < |invMass| && invMass[p] == 0.0
    ensures At(ProjectConstraint(pos, invMass, id0, id1, restLen, alpha, sqrt), p) == At(pos, p)
  {
    if p != id0 && p != id1 {
      ProjectMovesOnlyEndpoints(pos, invMass, id0, id1, restLen, alpha, sqrt, p);
    } else if invMass[id0] + invMass[id1] == 0.0 || CurrentLength(pos, id0, id1, sqrt) == 0.0 {
      ProjectSkips(pos, invMass, id0, id1, restLen, alpha, sqrt);
    } else {
      ProjectedEndsDiffer(pos, id0, id1, sqrt);
      MovedPinnedEnd(pos, invMass, id0, id1, restLen, alpha, sqrt, p);
    }
  }

  /** ProjectKeepsPinned for a pinned endpoint of a projection that moves. */
  lemma MovedPinnedEnd(pos: seq<real>, invMass: seq<real>, id0: nat, id1: nat, restLen: real,
                       alpha: real, sqrt: real -> real, p: nat)
    requires HasSlot(pos, id0) && HasSlot(pos, id1) && id0 < |invMass| && id1 < |invMass| && id0 != id1
    requires 0.0 <= invMass[id0] && 0.0 <= invMass[id1] && 0.0 <= alpha
    requires invMass[id0] + invMass[id1] != 0.0 && CurrentLength(pos, id0, id1, sqrt) != 0.0
    requires (p == id0 || p == id1) && invMass[p] == 0.0
    ensures At(ProjectConstraint(pos, invMass, id0, id1, restLen, alpha, sqrt), p) == At(pos, p)
  {
    ProjectedEnds(pos, invMass, id0, id1, restLen, alpha, sqrt);
    var len := CurrentLength(pos, id0, id1, sqrt);
    var n := Direction(At(pos, id0).Sub(At(pos, id1)), len);
    var s := Multiplier(len, restLen, invMass[id0] + invMass[id1], alpha);
    NoCorrection(At(pos, p), n.Scale(s));
    NoCorrection(At(pos, p), n.Scale(-s));
  }

  /** A correction weighted by zero leaves a point where it is. */
  lemma NoCorrection(p: Vec3, c: Vec3)
    ensures p.Add(c.Scale(0.0)) == p
  {
  }

  /** The corrections of the two endpoints, weighted by the other endpoint's
      inverse mass, cancel: with masses 1/w0 and 1/w1 the projection keeps
      the pair's momentum. */
  lemma ProjectConservesMomentum(pos: seq<real>, invMass: seq<real>, id0: nat, id1: nat, restLen: real,
                                 alpha: real, sqrt: real -> real)
    requires HasSlot(pos, id0) && HasSlot(pos, id1) && id0 < |invMass| && id1 < |invMass|
    requires 0.0 <= invMass[id0] && 0.0 <= invMass[id1] && 0.0 <= alpha && IsSqrt(sqrt)
    ensures var r := ProjectConstraint(pos, invMass, id0, id1, restLen, alpha, sqrt);
            At(r, id0).Sub(At(pos, id0)).Scale(invMass[id1]).Add(At(r, id1).Sub(At(pos, id1)).Scale(invMass[id0])) == Zero
  {
    if invMass[id0] + invMass[id1] == 0.0 || CurrentLength(pos, id0, id1, sqrt) == 0.0 {
      ProjectSkips(pos, invMass, id0, id1, restLen, alpha, sqrt);
      AddThenSub(At(pos, id0), Zero);
      AddThenSub(At(pos, id1), Zero);
    } else {
      ProjectedEndsDiffer(pos, id0, id1, sqrt);
      ProjectedEnds(pos, invMass, id0, id1, restLen, alpha, sqrt);
      MomentumOfMove(At(pos, id0), At(pos, id1),
                     Direction(At(pos, id0).Sub(At(pos, id1)), CurrentLength(pos, id0, id1, sqrt)),
                     Multiplier(CurrentLength(pos, id0, id1, sqrt), restLen, invMass[id0] + invMass[id1], alpha),
                     invMass[id0], invMass[id1]);
    }
  }

  /** The momentum balance of the two moves of a projection. */
  lemma MomentumOfMove(p0: Vec3, p1: Vec3, n: Vec3, s: real, w0: real, w1: real)
    ensures p0.Add(n.Scale(s).Scale(w0)).Sub(p0).Scale(w1).Add(p1.Add(n.Scale(-s).Scale(w1)).Sub(p1).Scale(w0)) == Zero
  {
    AddThenSub(p0, n.Scale(s).Scale(w0));
    AddThenSub(p1, n.Scale(-s).Scale(w1));
    MomentumTerms(n, s, w0, w1);
  }

  /** Moving a point by v and taking the difference with the old point gives v. */
  lemma AddThenSub(p: Vec3, v: Vec3)
    ensures p.Add(v).Sub(p) == v
  {
  }

  /** The arithmetic behind ProjectConservesMomentum. */
  lemma MomentumTerms(n: Vec3, s: real, w0: real, w1: real)
    ensures n.Scale(s).Scale(w0).Scale(w1).Add(n.Scale(-s).Scale(w1).Scale(w0)) == Zero
  {
    assert n.x * s * w0 * w1 + n.x * (-s) * w1 * w0 == 0.0;
    assert n.y * s * w0 * w1 + n.y * (-s) * w1 * w0 == 0.0;
    assert n.z * s * w0 * w1 + n.z * (-s) * w1 * w0 == 0.0;
  }

  /** A constraint at its rest length moves nothing. */
  lemma ProjectAtRestLength(pos: seq<real>, invMass: seq<real>, id0: nat, id1: nat, alpha: real, sqrt: real -> real)
    requires HasSlot(pos, id0) && HasSlot(pos, id1) && id0 < |invMass| && id1 < |invMass|
    requires 0.0 <= invMass[id0] && 0.0 <= invMass[id1] && 0.0 <= alpha
    ensures ProjectConstraint(pos, invMass, id0, id1, RestLength(pos, id0, id1, sqrt), alpha, sqrt) == pos
  {
    var w0, w1 := invMass[id0], invMass[id1];
    var d := At(pos, id0).Sub(At(pos, id1));
    var len := sqrt(d.Dot(d));
    var restLen := RestLength(pos, id0, id1, sqrt);
    assert VecDistSquared(pos, id0, pos, id1) == d.Dot(d);
    assert restLen == len;
    if w0 + w1 != 0.0 && len != 0.0 {
      var n := Direction(d, len);
      var s := Multiplier(len, restLen, w0 + w1, alpha);
      assert s == 0.0;
      var u0 := At(pos, id0).Add(n.Scale(s).Scale(w0));
      assert u0 == At(pos, id0);
      WithSlotSame(pos, id0);
      var u1 := At(pos, id1).Add(n.Scale(-s).Scale(w1));
      assert u1 == At(pos, id1);
      WithSlotSame(pos, id1);
    }
  }

  /** The stiffness term alpha = compliance / dt / dt is non-negative. */
  lemma AlphaNonNegative(compliance: real, dt: real)
    requires 0.0 <= compliance && dt != 0.0
    ensures 0.0 <= compliance / dt / dt
  {
  }

  /** Positions after solveConstraints has projected constraints 0 .. k-1. */
  function SolveUpTo(pos: seq<real>, invMass: seq<real>, ids: seq<nat>, lengths: seq<real>, stride: nat,
                     alpha: real, sqrt: real -> real, k: nat): (r: seq<real>)
    requires |pos| == 3 * |invMass| && NonNegative(invMass) && 0.0 <= alpha
    requires Constraints(ids, stride, |lengths|, |invMass|) && k <= |lengths|
    ensures |r| == |pos|
  {
    if k == 0 then pos
    else
      ProjectConstraint(SolveUpTo(pos, invMass, ids, lengths, stride, alpha, sqrt, k - 1), invMass,
                        End0(ids, stride, k - 1), End1(ids, stride, k - 1), lengths[k - 1], alpha, sqrt)
  }

  /** solveConstraints never moves a pinned particle. */
  lemma {:induction false} SolveKeepsPinned(pos: seq<real>, invMass: seq<real>, ids: seq<nat>, lengths: seq<real>,
                                            stride: nat, alpha: real, sqrt: real -> real, k: nat, p: nat)
    requires |pos| == 3 * |invMass| && NonNegative(invMass) && 0.0 <= alpha && IsSqrt(sqrt)
    requires Constraints(ids, stride, |lengths|, |invMass|) && k <= |lengths|
    requires p < |invMass| && invMass[p] == 0.0
    ensures At(SolveUpTo(pos, invMass, ids, lengths, stride, alpha, sqrt, k), p) == At(pos, p)
  {
    if k > 0 {
      var q := SolveUpTo(pos, invMass, ids, lengths, stride, alpha, sqrt, k - 1);
      var e0, e1 := End0(ids, stride, k - 1), End1(ids, stride, k - 1);
      assert SolveUpTo(pos, invMass, ids, lengths, stride, alpha, sqrt, k) == ProjectConstraint(q, invMass, e0, e1, lengths[k - 1], alpha, sqrt);
      SolveKeepsPinned(pos, invMass, ids, lengths, stride, alpha, sqrt, k - 1, p);
      ProjectKeepsPinned(q, invMass, e0, e1, lengths[k - 1], alpha, sqrt, p);
    }
  }

  /** solveConstraints never moves a particle that is no solved endpoint of
      constraints 0 .. k-1. */
  lemma {:induction false} SolveKeepsUnconstrained(pos: seq<real>, invMass: seq<real>, ids: seq<nat>, lengths: seq<real>,
                                                   stride: nat, alpha: real, sqrt: real -> real, k: nat, p: nat)
    requires |pos| == 3 * |invMass| && NonNegative(invMass) && 0.0 <= alpha
    requires Constraints(ids, stride, |lengths|, |invMass|) && k <= |lengths| && p < |invMass|
    requires forall i :: 0 <= i < k ==> End0(ids, stride, i) != p && End1(ids, stride, i) != p
    ensures At(SolveUpTo(pos, invMass, ids, lengths, stride, alpha, sqrt, k), p) == At(pos, p)
  {
    if k > 0 {
      var q := SolveUpTo(pos, invMass, ids, lengths, stride, alpha, sqrt, k - 1);
      var e0, e1 := End0(ids, stride, k - 1), End1(ids, stride, k - 1);
      assert e0 != p && e1 != p;
      assert SolveUpTo(pos, invMass, ids, lengths, stride, alpha, sqrt, k) == ProjectConstraint(q, invMass, e0, e1, lengths[k - 1], alpha, sqrt);
      SolveKeepsUnconstrained(pos, invMass, ids, lengths, stride, alpha, sqrt, k - 1, p);
      ProjectMovesOnlyEndpoints(q, invMass, e0, e1, lengths[k - 1], alpha, sqrt, p);
    }
  }

  // ---------------------------------------------------------------------
  // postSolve

  /** The velocity that carries prev to p in time dt. */
  function PostVel(p: Vec3, prev: Vec3, dt: real): Vec3
    requires dt != 0.0
  {
    p.Sub(prev).Scale(1.0 / dt)
  }

  /** Velocities after postSolve has visited particles 0 .. k-1. */
  function PostSolveUpTo(vel: seq<real>, pos: seq<real>, prevPos: seq<real>, invMass: seq<real>, dt: real, k: nat): (r: seq<real>)
    requires |vel| == |pos| == |prevPos| == 3 * |invMass| && k <= |invMass| && dt != 0.0
    ensures |r| == |vel|
  {
    if k == 0 then vel
    else
      var v := PostSolveUpTo(vel, pos, prevPos, invMass, dt, k - 1);
      if invMass[k - 1] == 0.0 then v else WithSlot(v, k - 1, PostVel(At(pos, k - 1), At(prevPos, k - 1), dt))
  }

  /** postSolve gives each visited unpinned particle the velocity of its
      last move and keeps every other velocity. */
  lemma {:induction false} PostSolveAt(vel: seq<real>, pos: seq<real>, prevPos: seq<real>, invMass: seq<real>, dt: real, k: nat, p: nat)
    requires |vel| == |pos| == |prevPos| == 3 * |invMass| && k <= |invMass| && dt != 0.0 && p < |invMass|
    ensures p < k && invMass[p] != 0.0 ==>
              At(PostSolveUpTo(vel, pos, prevPos, invMass, dt, k), p) == PostVel(At(pos, p), At(prevPos, p), dt)
    ensures !(p < k && invMass[p] != 0.0) ==> At(PostSolveUpTo(vel, pos, prevPos, invMass, dt, k), p) == At(vel, p)
  {
    if k > 0 {
      PostSolveAt(vel, pos, prevPos, invMass, dt, k - 1, p);
      if invMass[k - 1] != 0.0 && p != k - 1 {
        WithSlotOther(PostSolveUpTo(vel, pos, prevPos, invMass, dt, k - 1), k - 1, p,
                      PostVel(At(pos, k - 1), At(prevPos, k - 1), dt));
      }
    }
  }

  /** postSolve recovers the velocity that moved a particle: integrating v
      for dt from p and differencing again gives v back. */
  lemma VelocityRoundTrip(p: Vec3, v: Vec3, dt: real)
    requires dt != 0.0
    ensures PostVel(p.Add(v.Scale(dt)), p, dt) == v
  {
    assert (p.x + v.x * dt - p.x) * (1.0 / dt) == v.x;
    assert (p.y + v.y * dt - p.y) * (1.0 / dt) == v.y;
    assert (p.z + v.z * dt - p.z) * (1.0 / dt) == v.z;
  }

  /** When no constraint moves an unpinned particle and the floor does not
      stop it, postSolve right after preSolve gives back the velocity
      preSolve integrated with. */
  lemma PreSolveThenPostSolve(s: Particles, invMass: seq<real>, g: Vec3, dt: real, p: nat)
    requires Holds(s, |invMass|) && p < |invMass| && invMass[p] != 0.0 && dt != 0.0
    requires At(s.pos, p).Add(PreVel(At(s.vel, p), g, dt).Scale(dt)).y >= 0.0
    ensures var t := PreSolveUpTo(s, invMass, g, dt, |invMass|);
            At(PostSolveUpTo(t.vel, t.pos, t.prevPos, invMass, dt, |invMass|), p) == At(t.vel, p)
  {
    var t := PreSolveUpTo(s, invMass, g, dt, |invMass|);
    PreSolveMoves(s, invMass, g, dt, |invMass|, p);
    PostSolveAt(t.vel, t.pos, t.prevPos, invMass, dt, |invMass|, p);
    VelocityRoundTrip(At(s.pos, p), PreVel(At(s.vel, p), g, dt), dt);
  }

  // ---------------------------------------------------------------------
  // One substep of the frame loop: preSolve, solve, postSolve

  /** What a substep reads and never changes: inverse masses, the two
      constraint sets with their rest lengths and compliances, and sqrt. */
  datatype Setup = Setup(invMass: seq<real>,
                         stretchingIds: seq<nat>, stretchingLengths: seq<real>, stretchingCompliance: real,
                         bendingIds: seq<nat>, bendingLengths: seq<real>, bendingCompliance: real,
                         sqrt: real -> real)

  /** The shape every phase relies on. */
  ghost predicate SetupOk(m: Setup)
  {
    && NonNegative(m.invMass) && IsSqrt(m.sqrt)
    && Constraints(m.stretchingIds, 2, |m.stretchingLengths|, |m.invMass|)
    && Constraints(m.bendingIds, 4, |m.bendingLengths|, |m.invMass|)
    && 0.0 <= m.stretchingCompliance && 0.0 <= m.bendingCompliance
  }

  /** Positions after solveConstraints has projected a whole constraint
      list with alpha = compliance / dt / dt. */
  function SolvePhase(pos: seq<real>, invMass: seq<real>, ids: seq<nat>, lengths: seq<real>, stride: nat,
                      compliance: real, dt: real, sqrt: real -> real): (r: seq<real>)
    requires |pos| == 3 * |invMass| && NonNegative(invMass) && 0.0 <= compliance && dt != 0.0
    requires Constraints(ids, stride, |lengths|, |invMass|)
    ensures |r| == |pos|
  {
    AlphaNonNegative(compliance, dt);
    SolveUpTo(pos, invMass, ids, lengths, stride, compliance / dt / dt, sqrt, |lengths|)
  }

  /** Positions after solve: the stretching projections, then the bending ones. */
  function SolveBoth(m: Setup, pos: seq<real>, dt: real): (r: seq<real>)
    requires SetupOk(m) && |pos| == 3 * |m.invMass| && dt != 0.0
    ensures |r| == |pos|
  {
    var stretched := SolvePhase(pos, m.invMass, m.stretchingIds, m.stretchingLengths, 2, m.stretchingCompliance, dt, m.sqrt);
    SolvePhase(stretched, m.invMass, m.bendingIds, m.bendingLengths, 4, m.bendingCompliance, dt, m.sqrt)
  }

  /** The buffers after one substep from s under gravity g. */
  function SubstepState(m: Setup, s: Particles, g: Vec3, dt: real): (r: Particles)
    requires SetupOk(m) && Holds(s, |m.invMass|) && dt != 0.0
    ensures Holds(r, |m.invMass|)
  {
    var t := PreSolveUpTo(s, m.invMass, g, dt, |m.invMass|);
    var solved := SolveBoth(m, t.pos, dt);
    Particles(solved, t.prevPos, PostSolveUpTo(t.vel, solved, t.prevPos, m.invMass, dt, |m.invMass|))
  }

  /** The buffers after n substeps from s. */
  function Substeps(m: Setup, s: Particles, g: Vec3, dt: real, n: nat): (r: Particles)
    requires SetupOk(m) && Holds(s, |m.invMass|) && dt != 0.0
    ensures Holds(r, |m.invMass|)
  {
    if n == 0 then s else SubstepState(m, Substeps(m, s, g, dt, n - 1), g, dt)
  }

  /** Particle p has the same position, previous position and velocity in s and r. */
  predicate SameParticle(s: Particles, r: Particles, p: nat)
    requires HasSlot(s.pos, p) && HasSlot(s.prevPos, p) && HasSlot(s.vel, p)
    requires HasSlot(r.pos, p) && HasSlot(r.prevPos, p) && HasSlot(r.vel, p)
  {
    At(r.pos, p) == At(s.pos, p) && At(r.prevPos, p) == At(s.prevPos, p) && At(r.vel, p) == At(s.vel, p)
  }

  /** One solveConstraints call never moves a pinned particle. */
  lemma SolvePhaseKeepsPinned(pos: seq<real>, invMass: seq<real>, ids: seq<nat>, lengths: seq<real>, stride: nat,
                              compliance: real, dt: real, sqrt: real -> real, p: nat)
    requires |pos| == 3 * |invMass| && NonNegative(invMass) && 0.0 <= compliance && dt != 0.0 && IsSqrt(sqrt)
    requires Constraints(ids, stride, |lengths|, |invMass|)
    requires p < |invMass| && invMass[p] == 0.0
    ensures At(SolvePhase(pos, invMass, ids, lengths, stride, compliance, dt, sqrt), p) == At(pos, p)
  {
    AlphaNonNegative(compliance, dt);
    SolveKeepsPinned(pos, invMass, ids, lengths, stride, compliance / dt / dt, sqrt, |lengths|, p);
  }

  /** One solveConstraints call never moves a particle that is no endpoint
      of its constraints. */
  lemma SolvePhaseKeepsUnconstrained(pos: seq<real>, invMass: seq<real>, ids: seq<nat>, lengths: seq<real>, stride: nat,
                                     compliance: real, dt: real, sqrt: real -> real, p: nat)
    requires |pos| == 3 * |invMass| && NonNegative(invMass) && 0.0 <= compliance && dt != 0.0
    requires Constraints(ids, stride, |lengths|, |invMass|) && p < |invMass|
    requires forall i :: 0 <= i < |lengths| ==> End0(ids, stride, i) != p && End1(ids, stride, i) != p
    ensures At(SolvePhase(pos, invMass, ids, lengths, stride, compliance, dt, sqrt), p) == At(pos, p)
  {
    AlphaNonNegative(compliance, dt);
    SolveKeepsUnconstrained(pos, invMass, ids, lengths, stride, compliance / dt / dt, sqrt, |lengths|, p);
  }

  /** solve never moves a pinned particle. */
  lemma SolveBothKeepsPinned(m: Setup, pos: seq<real>, dt: real, p: nat)
    requires SetupOk(m) && |pos| == 3 * |m.invMass| && dt != 0.0
    requires p < |m.invMass| && m.invMass[p] == 0.0
    ensures At(SolveBoth(m, pos, dt), p) == At(pos, p)
  {
    var stretched := SolvePhase(pos, m.invMass, m.stretchingIds, m.stretchingLengths, 2, m.stretchingCompliance, dt, m.sqrt);
    SolvePhaseKeepsPinned(pos, m.invMass, m.stretchingIds, m.stretchingLengths, 2, m.stretchingCompliance, dt, m.sqrt, p);
    SolvePhaseKeepsPinned(stretched, m.invMass, m.bendingIds, m.bendingLengths, 4, m.bendingCompliance, dt, m.sqrt, p);
  }

  /** solve never moves a particle that is in no stretching and no bending
      constraint. */
  lemma SolveBothKeepsUnconstrained(m: Setup, pos: seq<real>, dt: real, p: nat)
    requires SetupOk(m) && |pos| == 3 * |m.invMass| && dt != 0.0 && p < |m.invMass|
    requires forall i :: 0 <= i < |m.stretchingLengths| ==>
               End0(m.stretchingIds, 2, i) != p && End1(m.stretchingIds, 2, i) != p
    requires forall i :: 0 <= i < |m.bendingLengths| ==>
               End0(m.bendingIds, 4, i) != p && End1(m.bendingIds, 4, i) != p
    ensures At(SolveBoth(m, pos, dt), p) == At(pos, p)
  {
    var stretched := SolvePhase(pos, m.invMass, m.stretchingIds, m.stretchingLengths, 2, m.stretchingCompliance, dt, m.sqrt);
    SolvePhaseKeepsUnconstrained(pos, m.invMass, m.stretchingIds, m.stretchingLengths, 2, m.stretchingCompliance, dt, m.sqrt, p);
    SolvePhaseKeepsUnconstrained(stretched, m.invMass, m.bendingIds, m.bendingLengths, 4, m.bendingCompliance, dt, m.sqrt, p);
  }

  /** A substep leaves a pinned particle exactly as it was. */
  lemma SubstepKeepsPinned(m: Setup, s: Particles, g: Vec3, dt: real, p: nat)
    requires SetupOk(m) && Holds(s, |m.invMass|) && dt != 0.0
    requires p < |m.invMass| && m.invMass[p] == 0.0
    ensures SameParticle(s, SubstepState(m, s, g, dt), p)
  {
    var t := PreSolveUpTo(s, m.invMass, g, dt, |m.invMass|);
    var solved := SolveBoth(m, t.pos, dt);
    PreSolveKeeps(s, m.invMass, g, dt, |m.invMass|, p);
    SolveBothKeepsPinned(m, t.pos, dt, p);
    PostSolveAt(t.vel, solved, t.prevPos, m.invMass, dt, |m.invMass|, p);
  }

  /** Any number of substeps leave a pinned particle exactly as it was. */
  lemma {:induction false} SubstepsKeepPinned(m: Setup, s: Particles, g: Vec3, dt: real, n: nat, p: nat)
    requires SetupOk(m) && Holds(s, |m.invMass|) && dt != 0.0
    requires p < |m.invMass| && m.invMass[p] == 0.0
    ensures SameParticle(s, Substeps(m, s, g, dt, n), p)
  {
    if n > 0 {
      SubstepsKeepPinned(m, s, g, dt, n - 1, p);
      SubstepKeepsPinned(m, Substeps(m, s, g, dt, n - 1), g, dt, p);
    }
  }

  /** An unpinned particle in no constraint falls freely: after a substep
      without a floor hit it has the damped velocity plus gravity, has moved
      by that velocity times dt, and remembers its old position. */
  lemma SubstepFreeParticle(m: Setup, s: Particles, g: Vec3, dt: real, p: nat)
    requires SetupOk(m) && Holds(s, |m.invMass|) && dt != 0.0
    requires p < |m.invMass| && m.invMass[p] != 0.0
    requires forall i :: 0 <= i < |m.stretchingLengths| ==>
               End0(m.stretchingIds, 2, i) != p && End1(m.stretchingIds, 2, i) != p
    requires forall i :: 0 <= i < |m.bendingLengths| ==>
               End0(m.bendingIds, 4, i) != p && End1(m.bendingIds, 4, i) != p
    requires 0.0 <= At(s.pos, p).Add(PreVel(At(s.vel, p), g, dt).Scale(dt)).y
    ensures var r := SubstepState(m, s, g, dt);
            && At(r.vel, p) == PreVel(At(s.vel, p), g, dt)
            && At(r.pos, p) == At(s.pos, p).Add(PreVel(At(s.vel, p), g, dt).Scale(dt))
            && At(r.prevPos, p) == At(s.pos, p)
  {
    var t := PreSolveUpTo(s, m.invMass, g, dt, |m.invMass|);
    var solved := SolveBoth(m, t.pos, dt);
    var v := PreVel(At(s.vel, p), g, dt);
    PreSolveMoves(s, m.invMass, g, dt, |m.invMass|, p);
    SolveBothKeepsUnconstrained(m, t.pos, dt, p);
    PostSolveAt(t.vel, solved, t.prevPos, m.invMass, dt, |m.invMass|, p);
    VelocityRoundTrip(At(s.pos, p), v, dt);
  }

  // ---------------------------------------------------------------------
  // applyImpulse

  /** The share of the impulse a particle at squared distance distSq from
      the click receives. */
  function Falloff(distSq: real, radiusSq: real): (r: real)
    requires radiusSq != 0.0
    ensures distSq == 0.0 ==> r == 1.0
    ensures distSq == radiusSq ==> r == 0.0
  {
    1.0 - distSq / radiusSq
  }

  /** Inside the radius the falloff lies in (0, 1] and is 1 exactly at the click. */
  lemma FalloffRange(distSq: real, radiusSq: real)
    requires 0.0 <= distSq < radiusSq
    ensures 0.0 < Falloff(distSq, radiusSq) <= 1.0
    ensures Falloff(distSq, radiusSq) == 1.0 <==> distSq == 0.0
  {
    DivBelowOne(distSq, radiusSq);
    if distSq != 0.0 {
      DivMonotone(0.0, distSq, radiusSq);
    }
  }

  /** A quotient of a number by a larger positive one lies in [0, 1). */
  lemma DivBelowOne(a: real, b: real)
    requires 0.0 <= a < b
    ensures 0.0 <= a / b < 1.0
  {
  }

  /** Dividing by a positive number keeps strict order. */
  lemma DivMonotone(a: real, c: real, b: real)
    requires a < c && 0.0 < b
    ensures a / b < c / b
  {
  }

  /** Closer particles receive a larger share. */
  lemma FalloffDecreasing(d1: real, d2: real, radiusSq: real)
    requires 0.0 <= d1 < d2 < radiusSq
    ensures Falloff(d2, radiusSq) < Falloff(d1, radiusSq)
  {
    DivMonotone(d1, d2, radiusSq);
  }

  /** The squared distance from p to the click point. */
  function DistSq(p: Vec3, point: Vec3): (r: real)
    ensures 0.0 <= r
  {
    var d := p.Sub(point);
    DotSelfNonNegative(d);
    d.Dot(d)
  }

  /** The squared distance vanishes exactly at the click point. */
  lemma DistSqZeroIff(p: Vec3, point: Vec3)
    ensures DistSq(p, point) == 0.0 <==> p == point
  {
    DotSelfZeroIff(p.Sub(point));
    SubZeroIff(p, point);
  }

  /** The difference of two points is zero exactly when they coincide. */
  lemma SubZeroIff(p: Vec3, q: Vec3)
    ensures p.Sub(q) == Zero <==> p == q
  {
  }

  /** The velocity of a particle at p after the impulse. */
  function ImpulseVel(v: Vec3, p: Vec3, point: Vec3, force: Vec3, radius: real): (r: Vec3)
    ensures radius * radius <= DistSq(p, point) ==> r == v
  {
    var distSq := DistSq(p, point);
    if distSq < radius * radius then v.Add(force.Scale(Falloff(distSq, radius * radius))) else v
  }

  /** Velocities after applyImpulse has visited particles 0 .. k-1. */
  function ImpulseUpTo(vel: seq<real>, pos: seq<real>, invMass: seq<real>, point: Vec3, force: Vec3,
                       radius: real, k: nat): (r: seq<real>)
    requires |vel| == |pos| == 3 * |invMass| && k <= |invMass|
    ensures |r| == |vel|
  {
    if k == 0 then vel
    else
      var v := ImpulseUpTo(vel, pos, invMass, point, force, radius, k - 1);
      if invMass[k - 1] == 0.0 then v
      else WithSlot(v, k - 1, ImpulseVel(At(v, k - 1), At(pos, k - 1), point, force, radius))
  }

  /** applyImpulse changes a visited unpinned particle's velocity by its
      share of the force and keeps every other velocity. */
  lemma {:induction false} ImpulseAt(vel: seq<real>, pos: seq<real>, invMass: seq<real>, point: Vec3, force: Vec3,
                                     radius: real, k: nat, p: nat)
    requires |vel| == |pos| == 3 * |invMass| && k <= |invMass| && p < |invMass|
    ensures p < k && invMass[p] != 0.0 ==>
              At(ImpulseUpTo(vel, pos, invMass, point, force, radius, k), p) == ImpulseVel(At(vel, p), At(pos, p), point, force, radius)
    ensures !(p < k && invMass[p] != 0.0) ==> At(ImpulseUpTo(vel, pos, invMass, point, force, radius, k), p) == At(vel, p)
  {
    if k > 0 {
      var v := ImpulseUpTo(vel, pos, invMass, point, force, radius, k - 1);
      ImpulseAt(vel, pos, invMass, point, force, radius, k - 1, p);
      if invMass[k - 1] != 0.0 && p != k - 1 {
        WithSlotOther(v, k - 1, p, ImpulseVel(At(v, k - 1), At(pos, k - 1), point, force, radius));
      }
    }
  }

  /** A particle at or beyond the radius keeps its velocity; inside, it
      gains between nothing and the whole force, the whole force at the click. */
  lemma ImpulseVelBounds(v: Vec3, p: Vec3, point: Vec3, force: Vec3, radius: real)
    ensures radius * radius <= DistSq(p, point) ==> ImpulseVel(v, p, point, force, radius) == v
    ensures DistSq(p, point) < radius * radius ==>
              exists f :: 0.0 < f <= 1.0 && ImpulseVel(v, p, point, force, radius) == v.Add(force.Scale(f))
                          && (f == 1.0 <==> p == point)
  {
    var distSq := DistSq(p, point);
    var radiusSq := radius * radius;
    if distSq < radiusSq {
      var f := Falloff(distSq, radiusSq);
      FalloffRange(distSq, radiusSq);
      DistSqZeroIff(p, point);
      assert ImpulseVel(v, p, point, force, radius) == v.Add(force.Scale(f));
      assert f == 1.0 <==> p == point;
    }
  }

  /** With radius 0 applyImpulse changes nothing. */
  lemma {:induction false} ImpulseZeroRadius(vel: seq<real>, pos: seq<real>, invMass: seq<real>, point: Vec3, force: Vec3, k: nat)
    requires |vel| == |pos| == 3 * |invMass| && k <= |invMass|
    ensures ImpulseUpTo(vel, pos, invMass, point, force, 0.0, k) == vel
  {
    if k > 0 {
      ImpulseZeroRadius(vel, pos, invMass, point, force, k - 1);
      if invMass[k - 1] != 0.0 {
        WithSlotSame(vel, k - 1);
      }
    }
  }
}
