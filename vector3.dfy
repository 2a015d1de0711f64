/** `Vector3<int>` (Vector3i): a triple of ints with the vector functions and
    operators of Vector3.h. The binary operators build new values; the
    compound operators update a vector in place and are modelled by the
    class MutableVector3. */
module Vector3i {
  import opened Numeric

  datatype Vector3 = Vector3(x: int, y: int, z: int)

  /** The default constructor `Vector3()`. */
  const Zero := Vector3(0, 0, 0)

  function Dot(a: Vector3, b: Vector3): int
  {
    a.x * b.x + a.y * b.y + a.z * b.z
  }

  function Cross(a: Vector3, b: Vector3): Vector3
  {
    Vector3(a.y * b.z - a.z * b.y, a.z * b.x - a.x * b.z, a.x * b.y - a.y * b.x)
  }

  function LengthSqr(v: Vector3): int
  {
    v.x * v.x + v.y * v.y + v.z * v.z
  }

  function Add(a: Vector3, b: Vector3): Vector3
  {
    Vector3(a.x + b.x, a.y + b.y, a.z + b.z)
  }

  /** `a - b`, component by component. */
  function Sub(a: Vector3, b: Vector3): Vector3
  {
    Vector3(a.x - b.x, a.y - b.y, a.z - b.z)
  }

  /** Subtraction undoes addition: (a - b) + b == a and (a + b) - b == a. */
  lemma SubAdd(a: Vector3, b: Vector3)
    ensures Add(Sub(a, b), b) == a
    ensures Sub(Add(a, b), b) == a
  {
  }

  /** `v * f` for a float factor f = num/den: every product is cast back to
      int, truncating toward zero. */
  function Mul(v: Vector3, f: Ratio): Vector3
    requires f.den > 0
  {
    Vector3(MulRatio(v.x, f), MulRatio(v.y, f), MulRatio(v.z, f))
  }

  /** `v / f` for a factor f = num/den, truncating toward zero. */
  function Div(v: Vector3, f: Ratio): Vector3
    requires f.num != 0 && f.den > 0
  {
    Vector3(DivRatio(v.x, f), DivRatio(v.y, f), DivRatio(v.z, f))
  }

  /** `a == b` compares the three components. */
  function Equal(a: Vector3, b: Vector3): (r: bool)
    ensures r <==> a == b
  {
    a.x == b.x && a.y == b.y && a.z == b.z
  }

  /** The squared length never is negative and is zero only for the zero
      vector. */
  lemma LengthSqrZero(v: Vector3)
    ensures LengthSqr(v) >= 0
    ensures LengthSqr(v) == 0 <==> v == Zero
  {
    Square(v.x);
    Square(v.y);
    Square(v.z);
  }

  lemma Square(a: int)
    ensures a * a >= 0
    ensures a * a == 0 <==> a == 0
    ensures a * a == (-a) * (-a)
  {
    if a < 0 {
      assert a * a == (-a) * (-a);
    }
  }

  /** The squared distance does not depend on the order of its operands. */
  lemma LengthSqrSubSymmetric(a: Vector3, b: Vector3)
    ensures LengthSqr(Sub(a, b)) == LengthSqr(Sub(b, a))
  {
    Square(a.x - b.x);
    Square(a.y - b.y);
    Square(a.z - b.z);
  }

  /** A difference is the zero vector exactly when the operands are equal. */
  lemma SubZero(a: Vector3, b: Vector3)
    ensures Sub(a, b) == Zero <==> a == b
  {
  }

  /** The squared length is the dot product of a vector with itself. */
  lemma DotSelf(v: Vector3)
    ensures Dot(v, v) == LengthSqr(v)
  {
  }

  /** The cross product is orthogonal to both operands, and the cross product
      of a vector with itself is zero. */
  lemma CrossOrthogonal(a: Vector3, b: Vector3)
    ensures Dot(Cross(a, b), a) == 0
    ensures Dot(Cross(a, b), b) == 0
    ensures Cross(a, a) == Zero
  {
    var c := Cross(a, b);
    assert Dot(c, a) == (a.y * b.z - a.z * b.y) * a.x + (a.z * b.x - a.x * b.z) * a.y + (a.x * b.y - a.y * b.x) * a.z;
    assert Dot(c, b) == (a.y * b.z - a.z * b.y) * b.x + (a.z * b.x - a.x * b.z) * b.y + (a.x * b.y - a.y * b.x) * b.z;
  }

  /** Scaling by a factor in [0, 1] moves every component toward zero: a
      non-negative component c ends in [0, c], a negative one in [c, 0]. */
  lemma MulShrinks(v: Vector3, f: Ratio)
    requires 0 <= f.num <= f.den && f.den > 0
    ensures var r := Mul(v, f);
      (v.x >= 0 ==> 0 <= r.x <= v.x) && (v.x < 0 ==> v.x <= r.x <= 0) &&
      (v.y >= 0 ==> 0 <= r.y <= v.y) && (v.y < 0 ==> v.y <= r.y <= 0) &&
      (v.z >= 0 ==> 0 <= r.z <= v.z) && (v.z < 0 ==> v.z <= r.z <= 0)
  {
    ScaleShrinks(v.x, f);
    ScaleShrinks(v.y, f);
    ScaleShrinks(v.z, f);
  }

  lemma ScaleShrinks(c: int, f: Ratio)
    requires 0 <= f.num <= f.den && f.den > 0
    ensures var r := MulRatio(c, f);
      (c >= 0 ==> 0 <= r <= c) && (c < 0 ==> c <= r <= 0)
  {
    var r := MulRatio(c, f);
    var d := f.den;
    TruncDivBounds(c * f.num, d);
    assert c * d - c * f.num == c * (d - f.num);
    if c >= 0 {
      ProductNonNeg(c, f.num);
      ProductNonNeg(c, d - f.num);
      assert 0 * d <= r * d <= c * d;
      MulCancel(0, r, d);
      MulCancel(r, c, d);
    } else {
      ProductNonNeg(-c, f.num);
      ProductNonNeg(-c, d - f.num);
      assert (-c) * f.num == -(c * f.num);
      assert (-c) * (d - f.num) == -(c * (d - f.num));
      assert c * d <= r * d <= 0 * d;
      MulCancel(c, r, d);
      MulCancel(r, 0, d);
    }
  }

  /** The in-place view of a Vector3: `operator=` and the compound operators
      update the three fields of `*this`. */
  class MutableVector3 {
    var x: int
    var y: int
    var z: int

    function Value(): Vector3
      reads this
    {
      Vector3(x, y, z)
    }

    constructor (v: Vector3)
      ensures Value() == v
    {
      x, y, z := v.x, v.y, v.z;
    }

    /** `*this = other` */
    method Assign(other: Vector3)
      modifies this
      ensures Value() == other
    {
      x, y, z := other.x, other.y, other.z;
    }

    /** `*this += rhs` leaves `*this` equal to `old + rhs`. */
    method AddAssign(rhs: Vector3)
      modifies this
      ensures Value() == Add(old(Value()), rhs)
    {
      x := x + rhs.x;
      y := y + rhs.y;
      z := z + rhs.z;
    }

    /** `*this -= rhs` */
    method SubAssign(rhs: Vector3)
      modifies this
      ensures Value() == Sub(old(Value()), rhs)
    {
      x := x - rhs.x;
      y := y - rhs.y;
      z := z - rhs.z;
    }

    /** `*this *= f`, each product truncated back to int. */
    method MulAssign(f: Ratio)
      requires f.den > 0
      modifies this
      ensures Value() == Mul(old(Value()), f)
    {
      x := MulRatio(x, f);
      y := MulRatio(y, f);
      z := MulRatio(z, f);
    }

    /** `*this /= f`, each quotient truncated back to int. */
    method DivAssign(f: Ratio)
      requires f.num != 0 && f.den > 0
      modifies this
      ensures Value() == Div(old(Value()), f)
    {
      x := DivRatio(x, f);
      y := DivRatio(y, f);
      z := DivRatio(z, f);
    }
  }
}
