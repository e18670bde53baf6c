/**
 * The three-component vector of ds/vec3.cpp (the scalar, non-SIMD path):
 * arithmetic, dot and cross products, reflection, clamping, the
 * lexicographic order, indexing with its error, and the compound
 * assignments that update a vector in place.
 */
module Vectors {
  import opened Wrappers
  import Numerics

  /** An axis index that `operator[]` accepts. */
  type Axis = i: int | 0 <= i < 3

  /** Tolerance of `near_zero`. */
  const NEAR_ZERO_EPS: real := 0.00000001

  datatype Vec3 = Vec3(x: real, y: real, z: real)
  {
    function Add(b: Vec3): Vec3 { Vec3(x + b.x, y + b.y, z + b.z) }
    function AddScalar(d: real): Vec3 { Vec3(x + d, y + d, z + d) }
    function Neg(): Vec3 { Vec3(-x, -y, -z) }
    function Sub(b: Vec3): Vec3 { Vec3(x - b.x, y - b.y, z - b.z) }
    function Scale(d: real): Vec3 { Vec3(Numerics.Mul(x, d), Numerics.Mul(y, d), Numerics.Mul(z, d)) }
    /** Componentwise product, `operator*(Vec3)`. */
    function MulComponents(b: Vec3): Vec3 { Vec3(Numerics.Mul(x, b.x), Numerics.Mul(y, b.y), Numerics.Mul(z, b.z)) }
    /** `operator/(double)`; a zero divisor (an IEEE infinity) is outside the model. */
    function Div(d: real): Vec3 requires d != 0.0 { Vec3(x / d, y / d, z / d) }
    function Dot(b: Vec3): real { Numerics.Mul(x, b.x) + Numerics.Mul(y, b.y) + Numerics.Mul(z, b.z) }
    function Cross(b: Vec3): Vec3
    {
      Vec3(Numerics.Mul(y, b.z) - Numerics.Mul(z, b.y),
           Numerics.Mul(z, b.x) - Numerics.Mul(x, b.z),
           Numerics.Mul(x, b.y) - Numerics.Mul(y, b.x))
    }
    function LengthSquared(): real { Dot(this) }

    /** `length()`, with `std::sqrt` passed in. */
    function Length(sqrt: real -> real): real { sqrt(LengthSquared()) }

    /**
     * `unit()`: this divided by its length. The source divides the zero
     * vector by zero; the model returns the zero vector for it.
     */
    function Unit(sqrt: real -> real): Vec3
    {
      var l := Length(sqrt);
      if l == 0.0 then Vec3(0.0, 0.0, 0.0) else Div(l)
    }

    /** The component on an axis the source always indexes validly. */
    function Get(i: Axis): real
    {
      if i == 0 then x else if i == 1 then y else z
    }

    /** This vector with the component on axis i replaced by v. */
    function With(i: Axis, v: real): Vec3
    {
      if i == 0 then Vec3(v, y, z) else if i == 1 then Vec3(x, v, z) else Vec3(x, y, v)
    }

    /** `operator[]`: 0, 1 and 2 select x, y and z, any other index throws. */
    function Index(i: int): (r: Result<real>)
      ensures r.Success? <==> 0 <= i < 3
      ensures 0 <= i < 3 ==> r.value == Get(i)
      ensures r.Failure? ==> r.error == "error: invalid dimension!"
    {
      match i
      case 0 => Success(x)
      case 1 => Success(y)
      case 2 => Success(z)
      case _ => Failure("error: invalid dimension!")
    }

    /** `operator==`: exact equality of all three components. */
    predicate Equals(b: Vec3)
    {
      x == b.x && y == b.y && z == b.z
    }

    /** `clamp(min, max)`: `clamp` applied to each component. */
    function Clamp(min: real, max: real): (r: Vec3)
      ensures min <= max ==> r.InBox(min, max)
      ensures InBox(min, max) ==> r == this
    {
      Vec3(Numerics.Clamp(min, x, max), Numerics.Clamp(min, y, max), Numerics.Clamp(min, z, max))
    }

    /** Every component lies in [min, max]. */
    predicate InBox(min: real, max: real)
    {
      min <= x <= max && min <= y <= max && min <= z <= max
    }

    /** `reflect(normal)`: v - 2 (v . n) n. */
    function Reflect(n: Vec3): Vec3
    {
      Sub(n.Scale(2.0 * Dot(n)))
    }

    /** `near_zero()`: every component is within 1e-8 of zero. */
    predicate NearZero()
    {
      Numerics.Abs(x) < NEAR_ZERO_EPS && Numerics.Abs(y) < NEAR_ZERO_EPS && Numerics.Abs(z) < NEAR_ZERO_EPS
    }
  }

  const Zero: Vec3 := Vec3(0.0, 0.0, 0.0)

  /** The strict lexicographic order that `operator<` computes. */
  predicate LexLess(a: Vec3, b: Vec3)
  {
    a.x < b.x || (a.x == b.x && (a.y < b.y || (a.y == b.y && a.z < b.z)))
  }

  /**
   * `operator<`: scans the axes in order, skipping equal components, and
   * decides on the first one that differs.
   */
  method Less(a: Vec3, b: Vec3) returns (r: bool)
    ensures r <==> LexLess(a, b)
  {
    var i := 0;
    while i < 3
      invariant 0 <= i <= 3
      invariant 0 < i ==> a.x == b.x
      invariant 1 < i ==> a.y == b.y
      invariant 2 < i ==> a.z == b.z
    {
      if a.Get(i) == b.Get(i) {
        i := i + 1;
        continue;
      }
      if a.Get(i) < b.Get(i) {
        return true;
      }
      if a.Get(i) > b.Get(i) {
        return false;
      }
    }
    assert a == b;
    return false;
  }

  /** `operator<` is irreflexive. */
  lemma LexLessIrreflexive(a: Vec3)
    ensures !LexLess(a, a)
  {
  }

  /** `operator<` is transitive. */
  lemma LexLessTransitive(a: Vec3, b: Vec3, c: Vec3)
    requires LexLess(a, b) && LexLess(b, c)
    ensures LexLess(a, c)
  {
  }

  /** Exactly one of a < b, b < a and a == b holds. */
  lemma LexLessTrichotomy(a: Vec3, b: Vec3)
    ensures LexLess(a, b) || LexLess(b, a) || a == b
    ensures !(LexLess(a, b) && LexLess(b, a))
    ensures a == b ==> !LexLess(a, b)
  {
  }

  /** `operator==` is equality of the modelled values. */
  lemma EqualsIsEquality(a: Vec3, b: Vec3)
    ensures a.Equals(b) <==> a == b
  {
  }

  /** `dot` is symmetric and `length_squared` is never negative. */
  lemma DotSymmetric(a: Vec3, b: Vec3)
    ensures a.Dot(b) == b.Dot(a)
    ensures 0.0 <= a.LengthSquared()
  {
  }

  /**
   * The arithmetic operators obey the laws of a vector space: + commutes
   * and - undoes it, unary - and / are scalings, + d adds d to every
   * component, and the componentwise product with (d, d, d) is a scaling.
   */
  lemma OperatorLaws(a: Vec3, b: Vec3, d: real)
    ensures a.Add(b) == b.Add(a)
    ensures a.Sub(b) == a.Add(b.Neg()) && a.Add(b).Sub(b) == a
    ensures a.Neg() == a.Scale(-1.0)
    ensures a.AddScalar(d) == a.Add(Vec3(d, d, d))
    ensures a.MulComponents(Vec3(d, d, d)) == a.Scale(d)
    ensures d != 0.0 ==> a.Div(d) == a.Scale(1.0 / d)
  {
  }

  /** With a lawful `sqrt`, `length()` is the non-negative root of `length_squared()`. */
  lemma LengthIsRoot(a: Vec3, sqrt: real -> real)
    requires Numerics.IsSqrt(sqrt)
    ensures 0.0 <= a.Length(sqrt) && Numerics.Sq(a.Length(sqrt)) == a.LengthSquared()
    ensures a.Length(sqrt) == 0.0 <==> a == Zero
  {
    LengthSquaredPositive(a);
    var l := a.Length(sqrt);
    assert Numerics.Sq(l) == a.LengthSquared();
    Numerics.SquarePos(l);
  }

  /** The cross product is orthogonal to its first factor and anti-commutes. */
  lemma CrossProperties(a: Vec3, b: Vec3)
    ensures a.Dot(a.Cross(b)) == 0.0
    ensures b.Dot(a.Cross(b)) == 0.0
    ensures a.Cross(b) == b.Cross(a).Neg()
  {
  }

  /** The dot product is linear in its first argument. */
  lemma DotLinear(a: Vec3, b: Vec3, s: real, n: Vec3)
    ensures a.Sub(b.Scale(s)).Dot(n) == a.Dot(n) - s * b.Dot(n)
  {
  }

  /** Reflection in a unit normal preserves the squared length. */
  lemma {:induction false} ReflectPreservesLength(v: Vec3, n: Vec3)
    requires n.Dot(n) == 1.0
    ensures v.Reflect(n).LengthSquared() == v.LengthSquared()
  {
    var d := v.Dot(n);
    var w := v.Reflect(n);
    assert w == v.Sub(n.Scale(2.0 * d));
    ReflectSquare(v.x, n.x, d);
    ReflectSquare(v.y, n.y, d);
    ReflectSquare(v.z, n.z, d);
    DistribThree(4.0 * d, Numerics.Mul(v.x, n.x), Numerics.Mul(v.y, n.y), Numerics.Mul(v.z, n.z));
    DistribThree(Numerics.Mul(4.0 * d, d), Numerics.Mul(n.x, n.x), Numerics.Mul(n.y, n.y), Numerics.Mul(n.z, n.z));
  }

  /** One component of a reflection, squared. */
  lemma ReflectSquare(a: real, m: real, d: real)
    ensures Numerics.Mul(a - Numerics.Mul(m, 2.0 * d), a - Numerics.Mul(m, 2.0 * d))
         == Numerics.Mul(a, a) - Numerics.Mul(4.0 * d, Numerics.Mul(a, m)) + Numerics.Mul(Numerics.Mul(4.0 * d, d), Numerics.Mul(m, m))
  {
  }

  lemma DistribThree(c: real, p: real, q: real, r: real)
    ensures Numerics.Mul(c, p) + Numerics.Mul(c, q) + Numerics.Mul(c, r) == Numerics.Mul(c, p + q + r)
  {
  }

  /** Reflecting twice in the same unit normal gives back the original vector. */
  lemma {:induction false} ReflectTwice(v: Vec3, n: Vec3)
    requires n.Dot(n) == 1.0
    ensures v.Reflect(n).Reflect(n) == v
  {
    var d := v.Dot(n);
    var w := v.Reflect(n);
    DotLinear(v, n, 2.0 * d, n);
    assert w.Dot(n) == d - 2.0 * d * 1.0;
    assert w.Reflect(n) == w.Sub(n.Scale(-2.0 * d));
  }

  /** The squared length as a sum of squares. */
  lemma LengthSquaredSum(v: Vec3)
    ensures v.LengthSquared() == Numerics.Sq(v.x) + Numerics.Sq(v.y) + Numerics.Sq(v.z)
  {
  }

  /** A near-zero vector has a squared length below 3e-16. */
  lemma {:induction false} NearZeroSmall(v: Vec3)
    requires v.NearZero()
    ensures v.LengthSquared() < 3.0 * Numerics.Sq(NEAR_ZERO_EPS)
  {
    LengthSquaredSum(v);
    SquareOfAbsBelow(v.x, NEAR_ZERO_EPS);
    SquareOfAbsBelow(v.y, NEAR_ZERO_EPS);
    SquareOfAbsBelow(v.z, NEAR_ZERO_EPS);
  }

  lemma SquareOfAbsBelow(a: real, e: real)
    requires Numerics.Abs(a) < e
    ensures Numerics.Sq(a) < Numerics.Sq(e)
  {
    var b := Numerics.Abs(a);
    assert Numerics.Sq(a) == Numerics.Sq(b) by {
      if a < 0.0 { assert Numerics.Mul(a, a) == Numerics.Mul(-a, -a); }
    }
    Numerics.SquareBelow(b, e);
  }

  /** The squared length is never negative and vanishes only for the zero vector. */
  lemma {:induction false} LengthSquaredPositive(v: Vec3)
    ensures 0.0 <= v.LengthSquared()
    ensures v != Zero ==> 0.0 < v.LengthSquared()
  {
    LengthSquaredSum(v);
    Numerics.SquarePos(v.x);
    Numerics.SquarePos(v.y);
    Numerics.SquarePos(v.z);
  }

  /** The unit vector of a non-zero vector has length one. */
  lemma {:induction false} UnitLength(v: Vec3, sqrt: real -> real)
    requires Numerics.IsSqrt(sqrt)
    requires v != Zero
    ensures v.Unit(sqrt).LengthSquared() == 1.0
  {
    LengthSquaredPositive(v);
    var l := v.Length(sqrt);
    var s := Numerics.Sq(l);
    assert s == v.LengthSquared();
    Numerics.SquarePos(l);
    assert l != 0.0;
    var u := v.Div(l);
    assert v.Unit(sqrt) == u;
    DivSquare(v.x, l);
    DivSquare(v.y, l);
    DivSquare(v.z, l);
    LengthSquaredSum(u);
    LengthSquaredSum(v);
    var t := Numerics.Sq(u.x) + Numerics.Sq(u.y) + Numerics.Sq(u.z);
    assert Numerics.Mul(t, s) == Numerics.Mul(Numerics.Sq(u.x), s) + Numerics.Mul(Numerics.Sq(u.y), s) + Numerics.Mul(Numerics.Sq(u.z), s);
    assert Numerics.Mul(t, s) == s;
    Cancel(t, s);
  }

  /** The model's `unit()` of the zero vector is the zero vector. */
  lemma UnitOfZero(sqrt: real -> real)
    ensures Zero.Unit(sqrt) == Zero
  {
    var l := Zero.Length(sqrt);
    if l != 0.0 {
      assert Zero.Div(l) == Vec3(0.0 / l, 0.0 / l, 0.0 / l);
    }
  }

  /** `unit()` has length one, or is the zero vector. */
  lemma UnitAtMostOne(v: Vec3, sqrt: real -> real)
    requires Numerics.IsSqrt(sqrt)
    ensures v.Unit(sqrt).LengthSquared() <= 1.0
  {
    if v == Zero {
      UnitOfZero(sqrt);
    } else {
      UnitLength(v, sqrt);
    }
  }

  lemma DivSquare(a: real, l: real)
    requires l != 0.0
    ensures Numerics.Mul(Numerics.Sq(a / l), Numerics.Sq(l)) == Numerics.Sq(a)
  {
  }

  lemma Cancel(p: real, s: real)
    requires s != 0.0 && Numerics.Mul(p, s) == s
    ensures p == 1.0
  {
    assert (p - 1.0) * s == 0.0;
  }

  /**
   * A vector variable: `operator=`, the compound assignments and the
   * non-const `operator[]` update its components in place.
   */
  class Vec3Var {
    var x: real
    var y: real
    var z: real

    function Value(): Vec3
      reads this
    {
      Vec3(x, y, z)
    }

    /** The copy constructor. */
    constructor (v: Vec3)
      ensures Value() == v
    {
      x, y, z := v.x, v.y, v.z;
    }

    /** `operator=`: copies the other vector and returns *this. */
    method Assign(other: Vec3) returns (r: Vec3)
      modifies this
      ensures Value() == other && r == other
    {
      x, y, z := other.x, other.y, other.z;
      r := Value();
    }

    /** `operator+=(Vec3)`. */
    method AddAssign(b: Vec3) returns (r: Vec3)
      modifies this
      ensures Value() == old(Value()).Add(b) && r == Value()
    {
      r := Assign(Value().Add(b));
    }

    /** `operator+=(double)`. */
    method AddScalarAssign(d: real) returns (r: Vec3)
      modifies this
      ensures Value() == old(Value()).AddScalar(d) && r == Value()
    {
      r := Assign(Value().AddScalar(d));
    }

    /** `operator-=(Vec3)`. */
    method SubAssign(b: Vec3) returns (r: Vec3)
      modifies this
      ensures Value() == old(Value()).Sub(b) && r == Value()
    {
      r := Assign(Value().Sub(b));
    }

    /** `operator*=(double)`. */
    method ScaleAssign(d: real) returns (r: Vec3)
      modifies this
      ensures Value() == old(Value()).Scale(d) && r == Value()
    {
      r := Assign(Value().Scale(d));
    }

    /** `operator/=(double)`. */
    method DivAssign(d: real) returns (r: Vec3)
      requires d != 0.0
      modifies this
      ensures Value() == old(Value()).Div(d) && r == Value()
    {
      r := Assign(Value().Div(d));
    }

    /** A write through the non-const `operator[]`; an invalid index throws and writes nothing. */
    method SetIndex(i: int, v: real) returns (r: Result<()>)
      modifies this
      ensures r.Success? <==> 0 <= i < 3
      ensures 0 <= i < 3 ==> Value() == old(Value()).With(i, v)
      ensures !(0 <= i < 3) ==> Value() == old(Value())
    {
      match i
      case 0 => x := v; r := Success(());
      case 1 => y := v; r := Success(());
      case 2 => z := v; r := Success(());
      case _ => r := Failure("error: invalid dimension!");
    }
  }
}
