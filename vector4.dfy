/** `Vector4<int>` (Vector4i), the pixel colour type: x, y, z, w hold red,
    green, blue and alpha. Binary operators build new values; the compound
    operators update a vector in place and are modelled by MutableVector4. */
module Vector4i {
  import opened Numeric
  import Vector3i

  datatype Vector4 = Vector4(x: int, y: int, z: int, w: int)

  /** `Vector4(v, w)`: x, y, z taken from a Vector3, w given. */
  function FromVector3(v: Vector3i.Vector3, w: int): Vector4
  {
    Vector4(v.x, v.y, v.z, w)
  }

  /** `Vector3i(c.x, c.y, c.z)`: the colour part of a pixel. */
  function Xyz(v: Vector4): Vector3i.Vector3
  {
    Vector3i.Vector3(v.x, v.y, v.z)
  }

  function Dot(a: Vector4, b: Vector4): int
  {
    a.x * b.x + a.y * b.y + a.z * b.z + a.w * b.w
  }

  function LengthSqr(v: Vector4): int
  {
    v.x * v.x + v.y * v.y + v.z * v.z + v.w * v.w
  }

  function Add(a: Vector4, b: Vector4): Vector4
  {
    Vector4(a.x + b.x, a.y + b.y, a.z + b.z, a.w + b.w)
  }

  /** `a - b`, component by component. */
  function Sub(a: Vector4, b: Vector4): Vector4
  {
    Vector4(a.x - b.x, a.y - b.y, a.z - b.z, a.w - b.w)
  }

  /** Subtraction undoes addition: (a - b) + b == a and (a + b) - b == a. */
  lemma SubAdd(a: Vector4, b: Vector4)
    ensures Add(Sub(a, b), b) == a
    ensures Sub(Add(a, b), b) == a
  {
  }

  /** `v * f` for a float f = num/den, each product cast back to int. */
  function Mul(v: Vector4, f: Ratio): Vector4
    requires f.den > 0
  {
    Vector4(MulRatio(v.x, f), MulRatio(v.y, f), MulRatio(v.z, f), MulRatio(v.w, f))
  }

  /** `v / f` for a non-zero float f = num/den, each quotient cast back to int. */
  function Div(v: Vector4, f: Ratio): Vector4
    requires f.num != 0 && f.den > 0
  {
    Vector4(DivRatio(v.x, f), DivRatio(v.y, f), DivRatio(v.z, f), DivRatio(v.w, f))
  }

  /** `a == b` compares all four components. */
  function Equal(a: Vector4, b: Vector4): (r: bool)
    ensures r <==> a == b
  {
    a.x == b.x && a.y == b.y && a.z == b.z && a.w == b.w
  }

  /** `Vector4(v3, w)` and the colour part are inverse to each other. */
  lemma FromVector3Xyz(v: Vector4, q: Vector3i.Vector3, w: int)
    ensures Xyz(FromVector3(q, w)) == q && FromVector3(q, w).w == w
    ensures FromVector3(Xyz(v), v.w) == v
  {
  }

  lemma DotSelf(v: Vector4)
    ensures Dot(v, v) == LengthSqr(v)
  {
  }

  /** Adding `Vector4(q, 0)` adds q to the colour part and leaves alpha
      unchanged. */
  lemma AddColourOnly(v: Vector4, q: Vector3i.Vector3)
    ensures Xyz(Add(v, FromVector3(q, 0))) == Vector3i.Add(Xyz(v), q)
    ensures Add(v, FromVector3(q, 0)).w == v.w
  {
  }

  /** `v * k / 16.0f` for an int vector and an integral k: the product is
      exact, so each component is trunc(k * c / 16). */
  lemma KernelWeight(v: Vector4, k: int)
    ensures Div(Mul(v, Ratio(k, 1)), Ratio(16, 1)) ==
            Vector4(TruncDiv(k * v.x, 16), TruncDiv(k * v.y, 16), TruncDiv(k * v.z, 16), TruncDiv(k * v.w, 16))
  {
    TruncDivExact(v.x * k, 1);
    TruncDivExact(v.y * k, 1);
    TruncDivExact(v.z * k, 1);
    TruncDivExact(v.w * k, 1);
  }

  /** The in-place view of a Vector4: `operator=` and the compound operators
      assign x, y, z and w of `*this`. */
  class MutableVector4 {
    var x: int
    var y: int
    var z: int
    var w: int

    function Value(): Vector4
      reads this
    {
      Vector4(x, y, z, w)
    }

    constructor (v: Vector4)
      ensures Value() == v
    {
      x, y, z, w := v.x, v.y, v.z, v.w;
    }

    /** `*this = other` */
    method Assign(other: Vector4)
      modifies this
      ensures Value() == other
    {
      x, y, z, w := other.x, other.y, other.z, other.w;
    }

    /** `*this += rhs` leaves `*this` equal to `old + rhs`. */
    method AddAssign(rhs: Vector4)
      modifies this
      ensures Value() == Add(old(Value()), rhs)
    {
      x := x + rhs.x;
      y := y + rhs.y;
      z := z + rhs.z;
      w := w + rhs.w;
    }

    /** `*this -= rhs` */
    method SubAssign(rhs: Vector4)
      modifies this
      ensures Value() == Sub(old(Value()), rhs)
    {
      x := x - rhs.x;
      y := y - rhs.y;
      z := z - rhs.z;
      w := w - rhs.w;
    }

    /** `*this *= f`, each product truncated back to int. */
    method MulAssign(f: Ratio)
      requires f.den > 0
      modifies this
      ensures Value() == Mul(old(Value()), f)
    {
      x := MulRatio(x, f);
      y := MulRatio(y, f);
      z := MulRatio(z, f);
      w := MulRatio(w, f);
    }

    /** `*this /= f`, each quotient truncated back to int. */
    method DivAssign(f: Ratio)
      requires f.num != 0 && f.den > 0
      modifies this
      ensures Value() == Div(old(Value()), f)
    {
      x := DivRatio(x, f);
      y := DivRatio(y, f);
      z := DivRatio(z, f);
      w := DivRatio(w, f);
    }
  }
}
