/**
 * Stride-3 vector arithmetic over flat numeric buffers (src/math/vector.ts).
 *
 * A buffer holds vectors back to back: vector (slot) n of buffer `a` is
 * a[3n], a[3n+1], a[3n+2].  The in-place helpers are methods on `array<real>`
 * whose postcondition says the buffer is the old one with exactly one slot
 * replaced (WithSlot); the read-only helpers are functions on a snapshot.
 */
module VectorMath {

  /** A three-component vector, the value held in one slot. */
  datatype Vec3 = Vec3(x: real, y: real, z: real)
  {
    function Add(o: Vec3): Vec3 { Vec3(x + o.x, y + o.y, z + o.z) }
    function Sub(o: Vec3): Vec3 { Vec3(x - o.x, y - o.y, z - o.z) }
    function Scale(s: real): Vec3 { Vec3(x * s, y * s, z * s) }
    function Dot(o: Vec3): real { x * o.x + y * o.y + z * o.z }
    function Cross(o: Vec3): Vec3
    {
      Vec3(y * o.z - z * o.y, z * o.x - x * o.z, x * o.y - y * o.x)
    }
  }

  const Zero := Vec3(0.0, 0.0, 0.0)

  /** Slot n lies inside the buffer. */
  predicate HasSlot(a: seq<real>, n: nat) { 3 * n + 2 < |a| }

  /** Index k belongs to slot n. */
  predicate InSlot(k: int, n: nat) { 3 * n <= k < 3 * n + 3 }

  /** The vector stored in slot n. */
  function At(a: seq<real>, n: nat): Vec3
    requires HasSlot(a, n)
  {
    Vec3(a[3 * n], a[3 * n + 1], a[3 * n + 2])
  }

  /** The buffer with slot n replaced by v: the three entries of the slot
      hold v and every other entry is the old one. */
  function WithSlot(a: seq<real>, n: nat, v: Vec3): (r: seq<real>)
    requires HasSlot(a, n)
    ensures |r| == |a| && HasSlot(r, n) && At(r, n) == v
    ensures forall k :: 0 <= k < |a| && !InSlot(k, n) ==> r[k] == a[k]
  {
    a[3 * n := v.x][3 * n + 1 := v.y][3 * n + 2 := v.z]
  }

  /** Two slots of the same stride never overlap partially. */
  lemma SlotsDisjoint(n: nat, m: nat, k: int)
    requires n != m && InSlot(k, n)
    ensures !InSlot(k, m)
  {
  }

  /** Writing the value a slot already holds leaves the buffer as it was. */
  lemma {:induction false} WithSlotSame(a: seq<real>, n: nat)
    requires HasSlot(a, n)
    ensures WithSlot(a, n, At(a, n)) == a
  {
    var r := WithSlot(a, n, At(a, n));
    forall k | 0 <= k < |a| ensures r[k] == a[k] {
      if InSlot(k, n) {
        assert k == 3 * n || k == 3 * n + 1 || k == 3 * n + 2;
      }
    }
  }

  /** Writing a slot twice keeps only the second value. */
  lemma WithSlotTwice(a: seq<real>, n: nat, u: Vec3, v: Vec3)
    requires HasSlot(a, n)
    ensures WithSlot(WithSlot(a, n, u), n, v) == WithSlot(a, n, v)
  {
    assert WithSlot(WithSlot(a, n, u), n, v) == a[3 * n := v.x][3 * n + 1 := v.y][3 * n + 2 := v.z];
  }

  /** Overwriting the y entry of a freshly written slot writes a slot whose
      y component is the new value. */
  lemma WithSlotSetY(a: seq<real>, n: nat, v: Vec3, y: real)
    requires HasSlot(a, n)
    ensures WithSlot(a, n, v)[3 * n + 1 := y] == WithSlot(a, n, Vec3(v.x, y, v.z))
  {
    assert WithSlot(a, n, v)[3 * n + 1 := y] == a[3 * n := v.x][3 * n + 1 := y][3 * n + 2 := v.z];
  }

  /** Writing slot n leaves every other slot as it was. */
  lemma WithSlotOther(a: seq<real>, n: nat, m: nat, v: Vec3)
    requires HasSlot(a, n) && HasSlot(a, m) && n != m
    ensures At(WithSlot(a, n, v), m) == At(a, m)
  {
    SlotsDisjoint(m, n, 3 * m);
    SlotsDisjoint(m, n, 3 * m + 1);
    SlotsDisjoint(m, n, 3 * m + 2);
  }

  /** A product is zero only when a factor is. */
  lemma MulZero(a: real, b: real)
    requires a * b == 0.0
    ensures a == 0.0 || b == 0.0
  {
  }

  /** A square is never negative. */
  lemma SquareNonNegative(r: real)
    ensures 0.0 <= r * r
  {
  }

  /** A sum of three squares vanishes only when all three numbers do. */
  lemma SquaresZero(a: real, b: real, c: real)
    requires a * a + b * b + c * c == 0.0
    ensures a == 0.0 && b == 0.0 && c == 0.0
  {
    SquareNonNegative(a);
    SquareNonNegative(b);
    SquareNonNegative(c);
    assert a * a == 0.0 && b * b == 0.0 && c * c == 0.0;
    MulZero(a, a);
    MulZero(b, b);
    MulZero(c, c);
  }

  /** A vector's dot product with itself is never negative ... */
  lemma DotSelfNonNegative(u: Vec3)
    ensures u.Dot(u) >= 0.0
  {
    SquareNonNegative(u.x);
    SquareNonNegative(u.y);
    SquareNonNegative(u.z);
  }

  /** ... and is zero exactly for the zero vector. */
  lemma DotSelfZeroIff(u: Vec3)
    ensures u.Dot(u) == 0.0 <==> u == Zero
  {
    if u.Dot(u) == 0.0 {
      SquaresZero(u.x, u.y, u.z);
    }
  }

  /** vecSetZero: slot n becomes (0, 0, 0). */
  method VecSetZero(a: array<real>, n: nat)
    requires HasSlot(a[..], n)
    modifies a
    ensures a[..] == WithSlot(old(a[..]), n, Zero)
  {
    ghost var d := a[..];
    var i := 3 * n;
    a[i] := 0.0;
    a[i + 1] := 0.0;
    a[i + 2] := 0.0;
    assert a[..] == d[i := 0.0][i + 1 := 0.0][i + 2 := 0.0] == WithSlot(d, n, Zero);
  }

  /** vecScale: the three entries of slot n are multiplied by s. */
  method VecScale(a: array<real>, n: nat, s: real)
    requires HasSlot(a[..], n)
    modifies a
    ensures a[..] == WithSlot(old(a[..]), n, At(old(a[..]), n).Scale(s))
  {
    ghost var d := a[..];
    var i := 3 * n;
    // the three entries are distinct, so reading them first changes nothing
    var x, y, z := a[i] * s, a[i + 1] * s, a[i + 2] * s;
    assert Vec3(x, y, z) == At(a[..], n).Scale(s);
    a[i] := x;
    a[i + 1] := y;
    a[i + 2] := z;
    assert a[..] == d[i := x][i + 1 := y][i + 2 := z] == WithSlot(d, n, Vec3(x, y, z));
  }

  /** vecScale by 1 is the identity. */
  lemma ScaleByOne(a: seq<real>, n: nat)
    requires HasSlot(a, n)
    ensures WithSlot(a, n, At(a, n).Scale(1.0)) == a
  {
    assert At(a, n).Scale(1.0) == At(a, n);
    WithSlotSame(a, n);
  }

  /** vecCopy: slot n of `a` becomes slot m of `b`; `b` may be `a` itself. */
  method VecCopy(a: array<real>, n: nat, b: array<real>, m: nat)
    requires HasSlot(a[..], n) && HasSlot(b[..], m)
    modifies a
    ensures a[..] == WithSlot(old(a[..]), n, At(old(b[..]), m))
    ensures b != a ==> b[..] == old(b[..])
  {
    ghost var d := a[..];
    var i, j := 3 * n, 3 * m;
    // with aligned slots no write below changes an entry read after it
    var x, y, z := b[j], b[j + 1], b[j + 2];
    assert Vec3(x, y, z) == At(b[..], m);
    a[i] := x;
    a[i + 1] := y;
    a[i + 2] := z;
    assert a[..] == d[i := x][i + 1 := y][i + 2 := z] == WithSlot(d, n, Vec3(x, y, z));
  }

  /** vecAdd: slot n of `a` gains s times slot m of `b`; `b` may be `a`. */
  method VecAdd(a: array<real>, n: nat, b: array<real>, m: nat, s: real)
    requires HasSlot(a[..], n) && HasSlot(b[..], m)
    modifies a
    ensures a[..] == WithSlot(old(a[..]), n, At(old(a[..]), n).Add(At(old(b[..]), m).Scale(s)))
  {
    ghost var d := a[..];
    var i, j := 3 * n, 3 * m;
    // with aligned slots no write below changes an entry read after it
    var x, y, z := a[i] + b[j] * s, a[i + 1] + b[j + 1] * s, a[i + 2] + b[j + 2] * s;
    assert Vec3(x, y, z) == At(a[..], n).Add(At(b[..], m).Scale(s));
    a[i] := x;
    a[i + 1] := y;
    a[i + 2] := z;
    assert a[..] == d[i := x][i + 1 := y][i + 2 := z] == WithSlot(d, n, Vec3(x, y, z));
  }

  /** vecAdd with scale 0 changes nothing. */
  lemma AddScaledByZero(a: seq<real>, n: nat, v: Vec3)
    requires HasSlot(a, n)
    ensures WithSlot(a, n, At(a, n).Add(v.Scale(0.0))) == a
  {
    assert At(a, n).Add(v.Scale(0.0)) == At(a, n);
    WithSlotSame(a, n);
  }

  /** vecSetDiff: slot dn of `dst` becomes (a[an] - b[bn]) * scale; the
      operands may be `dst` itself. */
  method VecSetDiff(dst: array<real>, dn: nat, a: array<real>, an: nat, b: array<real>, bn: nat, scale: real)
    requires HasSlot(dst[..], dn) && HasSlot(a[..], an) && HasSlot(b[..], bn)
    modifies dst
    ensures dst[..] == WithSlot(old(dst[..]), dn, At(old(a[..]), an).Sub(At(old(b[..]), bn)).Scale(scale))
  {
    ghost var d := dst[..];
    var i, j, k := 3 * dn, 3 * an, 3 * bn;
    // with aligned slots no write below changes an entry read after it
    var x, y, z := (a[j] - b[k]) * scale, (a[j + 1] - b[k + 1]) * scale, (a[j + 2] - b[k + 2]) * scale;
    assert Vec3(x, y, z) == At(a[..], an).Sub(At(b[..], bn)).Scale(scale);
    dst[i] := x;
    dst[i + 1] := y;
    dst[i + 2] := z;
    assert dst[..] == d[i := x][i + 1 := y][i + 2 := z] == WithSlot(d, dn, Vec3(x, y, z));
  }

  /** The difference of a slot with itself is the zero vector, whatever the scale. */
  lemma DiffWithItselfIsZero(a: seq<real>, n: nat, scale: real)
    requires HasSlot(a, n)
    ensures At(a, n).Sub(At(a, n)).Scale(scale) == Zero
  {
  }

  /** vecLengthSquared: the squared length of slot n. */
  function VecLengthSquared(a: seq<real>, n: nat): (r: real)
    requires HasSlot(a, n)
    ensures r >= 0.0
    ensures r == VecDot(a, n, a, n)
  {
    var a0, a1, a2 := a[3 * n], a[3 * n + 1], a[3 * n + 2];
    assert a0 * a0 >= 0.0 && a1 * a1 >= 0.0 && a2 * a2 >= 0.0;
    a0 * a0 + a1 * a1 + a2 * a2
  }

  /** vecDistSquared: the squared distance between slot an of `a` and slot bn of `b`. */
  function VecDistSquared(a: seq<real>, an: nat, b: seq<real>, bn: nat): (r: real)
    requires HasSlot(a, an) && HasSlot(b, bn)
    ensures r >= 0.0
  {
    var a0, a1, a2 := a[3 * an] - b[3 * bn], a[3 * an + 1] - b[3 * bn + 1], a[3 * an + 2] - b[3 * bn + 2];
    assert a0 * a0 >= 0.0 && a1 * a1 >= 0.0 && a2 * a2 >= 0.0;
    a0 * a0 + a1 * a1 + a2 * a2
  }

  /** The squared length of a slot is the dot product of its vector with itself. */
  lemma LengthSquaredIsDot(a: seq<real>, n: nat)
    requires HasSlot(a, n)
    ensures VecLengthSquared(a, n) == At(a, n).Dot(At(a, n))
  {
  }

  /** Scaling by 1 leaves a vector as it is. */
  lemma ScaleOne(v: Vec3)
    ensures v.Scale(1.0) == v
  {
  }

  /** Scaling by a product is scaling by one factor and then the other. */
  lemma ScaleTwice(v: Vec3, a: real, b: real)
    ensures v.Scale(a * b) == v.Scale(a).Scale(b)
  {
    assert v.x * (a * b) == v.x * a * b;
    assert v.y * (a * b) == v.y * a * b;
    assert v.z * (a * b) == v.z * a * b;
  }

  /** vecDot: the dot product of two slots. */
  function VecDot(a: seq<real>, an: nat, b: seq<real>, bn: nat): (r: real)
    requires HasSlot(a, an) && HasSlot(b, bn)
    ensures r == At(a, an).Dot(At(b, bn))
    ensures a == b && an == bn ==> 0.0 <= r
  {
    var d := a[3 * an] * b[3 * bn] + a[3 * an + 1] * b[3 * bn + 1] + a[3 * an + 2] * b[3 * bn + 2];
    if a == b && an == bn then
      DotSelfNonNegative(At(a, an));
      d
    else
      d
  }

  /** The dot product does not depend on the order of its operands. */
  lemma DotSymmetric(a: seq<real>, an: nat, b: seq<real>, bn: nat)
    requires HasSlot(a, an) && HasSlot(b, bn)
    ensures VecDot(a, an, b, bn) == VecDot(b, bn, a, an)
  {
  }

  /** The squared distance does not depend on the order of its operands. */
  lemma DistSquaredSymmetric(a: seq<real>, an: nat, b: seq<real>, bn: nat)
    requires HasSlot(a, an) && HasSlot(b, bn)
    ensures VecDistSquared(a, an, b, bn) == VecDistSquared(b, bn, a, an)
  {
    var d := At(a, an).Sub(At(b, bn));
    assert (-d.x) * (-d.x) == d.x * d.x;
    assert (-d.y) * (-d.y) == d.y * d.y;
    assert (-d.z) * (-d.z) == d.z * d.z;
  }

  /** The squared distance is the squared length of the slot that
      vecSetDiff writes with scale 1. */
  lemma DistSquaredIsLengthOfDiff(dst: seq<real>, dn: nat, a: seq<real>, an: nat, b: seq<real>, bn: nat)
    requires HasSlot(dst, dn) && HasSlot(a, an) && HasSlot(b, bn)
    ensures VecLengthSquared(WithSlot(dst, dn, At(a, an).Sub(At(b, bn)).Scale(1.0)), dn)
         == VecDistSquared(a, an, b, bn)
  {
    var r := WithSlot(dst, dn, At(a, an).Sub(At(b, bn)).Scale(1.0));
    assert At(r, dn) == At(a, an).Sub(At(b, bn));
  }

  /** vecSetCross: slot an of `a` becomes the cross product of slot bn of `b`
      and slot cn of `c`.  The destination slot must not be one of the
      operands, because the components are read after earlier ones are written. */
  method VecSetCross(a: array<real>, an: nat, b: array<real>, bn: nat, c: array<real>, cn: nat)
    requires HasSlot(a[..], an) && HasSlot(b[..], bn) && HasSlot(c[..], cn)
    requires a != b || an != bn
    requires a != c || an != cn
    modifies a
    ensures a[..] == WithSlot(old(a[..]), an, At(old(b[..]), bn).Cross(At(old(c[..]), cn)))
  {
    ghost var d := a[..];
    var i, j, k := 3 * an, 3 * bn, 3 * cn;
    // the destination slot is neither operand slot, so no write below
    // changes an entry read after it
    var b0, b1, b2 := b[j], b[j + 1], b[j + 2];
    var c0, c1, c2 := c[k], c[k + 1], c[k + 2];
    var x, y, z := b1 * c2 - b2 * c1, b2 * c0 - b0 * c2, b0 * c1 - b1 * c0;
    assert Vec3(x, y, z) == At(b[..], bn).Cross(At(c[..], cn));
    a[i] := x;
    a[i + 1] := y;
    a[i + 2] := z;
    assert a[..] == d[i := x][i + 1 := y][i + 2 := z] == WithSlot(d, an, Vec3(x, y, z));
  }

  /** The cross product is orthogonal to both operands. */
  lemma CrossOrthogonal(u: Vec3, v: Vec3)
    ensures u.Cross(v).Dot(u) == 0.0
    ensures u.Cross(v).Dot(v) == 0.0
  {
    var c := u.Cross(v);
    calc {
      c.Dot(u);
      (u.y * v.z - u.z * v.y) * u.x + (u.z * v.x - u.x * v.z) * u.y + (u.x * v.y - u.y * v.x) * u.z;
      u.x * u.y * v.z - u.x * u.z * v.y + u.y * u.z * v.x - u.x * u.y * v.z + u.x * u.z * v.y - u.y * u.z * v.x;
      0.0;
    }
    calc {
      c.Dot(v);
      (u.y * v.z - u.z * v.y) * v.x + (u.z * v.x - u.x * v.z) * v.y + (u.x * v.y - u.y * v.x) * v.z;
      u.y * v.x * v.z - u.z * v.x * v.y + u.z * v.x * v.y - u.x * v.y * v.z + u.x * v.y * v.z - u.y * v.x * v.z;
      0.0;
    }
  }

  /** The cross product of a vector with itself is zero. */
  lemma CrossSelfIsZero(u: Vec3)
    ensures u.Cross(u) == Zero
  {
    assert u.y * u.z == u.z * u.y && u.z * u.x == u.x * u.z && u.x * u.y == u.y * u.x;
  }
}
