/** The double arithmetic RayCaster relies on, over exact reals.
    A double that can become +Infinity (a division by a zero vector
    component) is an Ext. */
module Numerics {

  /** Tolerance of RayCaster.equals. */
  const EPSILON: real := 0.00001

  /** A non-negative double that is finite or +Infinity. */
  datatype Ext = Fin(r: real) | Inf

  function RealAbs(x: real): (r: real)
    ensures r >= 0.0 && (r == x || r == -x)
  {
    if x < 0.0 then -x else x
  }

  /** Math.floor, as an integer. */
  function MathFloor(u: real): (n: int)
    ensures n as real <= u < n as real + 1.0
  {
    u.Floor
  }

  /** Java's (int) cast of a double: rounds toward zero, so (int)(-0.5) == 0. */
  function Trunc(u: real): (n: int)
    ensures u >= 0.0 ==> 0 <= n && n as real <= u < n as real + 1.0
    ensures u < 0.0 ==> n <= 0 && n as real - 1.0 < u <= n as real
  {
    if u >= 0.0 then u.Floor else -((-u).Floor)
  }

  /** RayCaster.nextUp: Math.ceil(n + Math.ulp(n)), the least integer
      strictly above u, so that 64.0 gives 65.0. */
  function NextUp(u: real): (n: int)
    ensures u < n as real <= u + 1.0
  {
    MathFloor(u) + 1
  }

  /** Math.abs on a finite or infinite value. */
  function Abs(a: Ext): (r: Ext)
    ensures r.Inf? <==> a.Inf?
    ensures r.Fin? ==> r.r >= 0.0 && (r.r == a.r || r.r == -a.r)
  {
    match a
    case Fin(x) => Fin(RealAbs(x))
    case Inf => Inf
  }

  /** Math.abs(a / v) for a != 0 or v != 0: a division by a zero component
      yields an infinity, made positive by abs (0 / 0 would be NaN). */
  function AbsQuotient(a: real, v: real): (r: Ext)
    requires v == 0.0 ==> a != 0.0
    ensures r.Inf? <==> v == 0.0
    ensures r.Fin? ==> r.r >= 0.0 && r.r * RealAbs(v) == RealAbs(a)
  {
    if v == 0.0 then Inf else Fin(RealAbs(a / v))
  }

  /** IEEE addition of two values that are never -Infinity. */
  function Add(a: Ext, b: Ext): (r: Ext)
    ensures r.Inf? <==> a.Inf? || b.Inf?
  {
    if a.Fin? && b.Fin? then Fin(a.r + b.r) else Inf
  }

  /** Java's < on two such values. */
  predicate Lt(a: Ext, b: Ext) {
    match (a, b)
    case (Fin(x), Fin(y)) => x < y
    case (Fin(_), Inf) => true
    case (Inf, _) => false
  }

  /** RayCaster.equals: exactly equal, or finite and closer than EPSILON.
      Infinity equals only itself, since Inf - x is never below EPSILON. */
  predicate Equals(a: Ext, b: Ext) {
    if a == b then true else a.Fin? && b.Fin? && RealAbs(a.r - b.r) < EPSILON
  }

  /** Java's < on doubles without NaN is a strict total order on Ext, with
      +Infinity above every finite value. */
  lemma LtOrder(a: Ext, b: Ext, c: Ext)
    ensures !Lt(a, a)
    ensures Lt(a, b) ==> !Lt(b, a)
    ensures Lt(a, b) && Lt(b, c) ==> Lt(a, c)
    ensures a != b ==> Lt(a, b) || Lt(b, a)
    ensures a.Fin? <==> Lt(a, Inf)
  {
  }

  /** Equals holds between two infinities and between finite values less
      than EPSILON apart, and nowhere else; it is reflexive. */
  lemma EqualsWithin(a: Ext, b: Ext)
    ensures Equals(a, a)
    ensures a.Inf? || b.Inf? ==> (Equals(a, b) <==> a.Inf? && b.Inf?)
    ensures a.Fin? && b.Fin? ==> (Equals(a, b) <==> a.r - EPSILON < b.r < a.r + EPSILON)
  {
  }

  /** When two values are not equal in the sense of Equals, exactly one of
      the two strict comparisons holds: the stepping rule's three branches
      cover every state. */
  lemma NotEqualsOrdered(a: Ext, b: Ext)
    ensures Equals(a, b) == Equals(b, a)
    ensures !Equals(a, b) ==> (Lt(a, b) <==> !Lt(b, a))
  {
  }

  /** A cell index moves by 0 or 1 when its coordinate moves by one unit,
      whatever the sign: truncation maps (-1, 1) onto the single index 0. */
  lemma TruncUnitStep(a: real)
    ensures 0 <= Trunc(a + 1.0) - Trunc(a) <= 1
    ensures a >= 0.0 ==> Trunc(a + 1.0) == Trunc(a) + 1
    ensures -1.0 < a < 0.0 ==> Trunc(a + 1.0) == Trunc(a)
  {
  }
}
