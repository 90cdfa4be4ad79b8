/** Dot products of real vectors: every total the flow solver works with (the dual value, the
    edge volume of a flow, the demand-weighted distance) is one of these. */
module RealVectors {

  /** Multiplication by name, so that bookkeeping proofs can hide it. */
  function Mul(x: real, y: real): real {
    x * y
  }

  lemma Distribute(x: real, y: real, z: real)
    ensures x * (y + z) == x * y + x * z
  {}

  lemma Associate(x: real, y: real, z: real)
    ensures x * y * z == x * (y * z)
  {}

  lemma MulZero(x: real)
    ensures Mul(x, 0.0) == 0.0 == Mul(0.0, x)
  {}

  lemma MulAdd(x: real, y: real, z: real)
    ensures Mul(x + y, z) == Mul(x, z) + Mul(y, z)
  {}

  lemma MulScale(s: real, a: real, b: real, rest: real)
    ensures Mul(Mul(s, a), b) + Mul(s, rest) == Mul(s, Mul(a, b) + rest)
  {
    Associate(s, a, b);
    Distribute(s, a * b, rest);
  }

  lemma MulMonotone(a: real, a': real, b: real, b': real)
    requires 0.0 <= a <= a' && 0.0 <= b <= b'
    ensures 0.0 <= Mul(a, b) <= Mul(a', b')
  {
    assert a * b <= a' * b;
    assert a' * b <= a' * b';
  }

  ghost function Dot(a: seq<real>, b: seq<real>): real
    requires |a| == |b|
  {
    if a == [] then 0.0 else Mul(a[0], b[0]) + Dot(a[1..], b[1..])
  }

  lemma {:induction false} DotUpdate(a: seq<real>, b: seq<real>, k: nat, x: real)
    requires |a| == |b| && k < |a|
    ensures Dot(a[k := a[k] + x], b) == Dot(a, b) + Mul(x, b[k])
  {
    hide Mul;
    if k == 0 {
      assert a[0 := a[0] + x][1..] == a[1..];
      MulAdd(a[0], x, b[0]);
    } else {
      assert a[k := a[k] + x][1..] == a[1..][k - 1 := a[k] + x];
      DotUpdate(a[1..], b[1..], k - 1, x);
    }
  }

  lemma {:induction false} DotMonotone(a: seq<real>, a': seq<real>, b: seq<real>, b': seq<real>)
    requires |a| == |a'| == |b| == |b'|
    requires forall i :: 0 <= i < |a| ==> 0.0 <= a[i] <= a'[i]
    requires forall i :: 0 <= i < |b| ==> 0.0 <= b[i] <= b'[i]
    ensures 0.0 <= Dot(a, b) <= Dot(a', b')
  {
    hide Mul;
    if a != [] {
      MulMonotone(a[0], a'[0], b[0], b'[0]);
      DotMonotone(a[1..], a'[1..], b[1..], b'[1..]);
    }
  }

  lemma {:induction false} DotScale(a: seq<real>, a': seq<real>, b: seq<real>, s: real)
    requires |a| == |a'| == |b|
    requires forall i :: 0 <= i < |a| ==> a'[i] == Mul(s, a[i])
    ensures Dot(a', b) == Mul(s, Dot(a, b))
  {
    MulZero(s);
    hide Mul;
    if a != [] {
      DotScale(a[1..], a'[1..], b[1..], s);
      MulScale(s, a[0], b[0], Dot(a[1..], b[1..]));
    }
  }

  lemma {:induction false} DotAdd(a: seq<real>, a': seq<real>, sum: seq<real>, b: seq<real>)
    requires |a| == |a'| == |sum| == |b|
    requires forall i :: 0 <= i < |a| ==> sum[i] == a[i] + a'[i]
    ensures Dot(sum, b) == Dot(a, b) + Dot(a', b)
  {
    hide Mul;
    if a != [] {
      MulAdd(a[0], a'[0], b[0]);
      DotAdd(a[1..], a'[1..], sum[1..], b[1..]);
    }
  }

  lemma {:induction false} DotCommutes(a: seq<real>, b: seq<real>)
    requires |a| == |b|
    ensures Dot(a, b) == Dot(b, a)
  {
    if a != [] { DotCommutes(a[1..], b[1..]); }
  }

  // One component of a non-negative product never exceeds the whole.
  lemma {:induction false} DotComponent(a: seq<real>, b: seq<real>, k: nat)
    requires |a| == |b| && k < |a|
    requires forall i :: 0 <= i < |a| ==> 0.0 <= a[i] && 0.0 <= b[i]
    ensures Mul(a[k], b[k]) <= Dot(a, b)
  {
    hide Mul;
    DotMonotone(a[1..], a[1..], b[1..], b[1..]);
    MulMonotone(a[0], a[0], b[0], b[0]);
    if k > 0 {
      DotComponent(a[1..], b[1..], k - 1);
    }
  }

  lemma {:induction false} DotZeros(z: seq<real>, b: seq<real>)
    requires |z| == |b|
    requires forall i :: 0 <= i < |z| ==> z[i] == 0.0
    ensures Dot(z, b) == 0.0
  {
    if z != [] {
      MulZero(b[0]);
      DotZeros(z[1..], b[1..]);
    }
  }
}
