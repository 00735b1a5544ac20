/** Model of the `Vector3` operators of engine/src/math.rs, instantiated at the
    integer type the source's tests use. */
module EngineMath {

  datatype Vector3 = Vector3(x: int, y: int, z: int)

  function Abs(n: int): (r: int)
    ensures r >= 0 && (r == n || r == -n)
  {
    if n < 0 then -n else n
  }

  lemma EuclideanParts(n: int, m: int)
    requires n >= 0 && m > 0
    ensures n == (n / m) * m + n % m && 0 <= n % m < m
  {
  }

  lemma NegatedProducts(x: int, y: int)
    ensures (-x) * y == -(x * y) && x * (-y) == -(x * y) && (-x) * (-y) == x * y
  {
  }

  lemma AbsOfProduct(k: int, m: int)
    ensures Abs(k * m) == Abs(k) * Abs(m)
  {
    NegatedProducts(k, m);
    if k < 0 {
      assert Abs(k) == -k;
    }
    if m < 0 {
      assert Abs(m) == -m;
    }
  }

  lemma ScaledAtLeast(j: int, n: int)
    requires j >= 1 && n >= 0
    ensures j * n >= n
  {
    assert j * n == (j - 1) * n + n;
    assert (j - 1) * n >= 0;
  }

  /** A non-zero multiple of `m` is at least as large as `m`. */
  lemma MultipleAtLeast(k: int, m: int)
    requires k != 0
    ensures Abs(k * m) >= Abs(m)
  {
    AbsOfProduct(k, m);
    ScaledAtLeast(Abs(k), Abs(m));
  }

  /** Integer division as Rust performs it on `i32`: the quotient is rounded
      toward zero, so the remainder takes the sign of the dividend. */
  function TruncDiv(a: int, b: int): (q: int)
    requires b != 0  // the source panics on a zero divisor
    ensures a >= 0 ==> 0 <= a - q * b < Abs(b)
    ensures a < 0 ==> -Abs(b) < a - q * b <= 0
  {
    var n, m := Abs(a), Abs(b);
    var q := n / m;
    EuclideanParts(n, m);
    NegatedProducts(q, m);
    if (a < 0) == (b < 0) then q else -q
  }

  /** The truncated quotient is the only one whose remainder has the
      dividend's sign and is smaller than the divisor. */
  lemma TruncDivUnique(a: int, b: int, q: int)
    requires b != 0
    requires a >= 0 ==> 0 <= a - q * b < Abs(b)
    requires a < 0 ==> -Abs(b) < a - q * b <= 0
    ensures q == TruncDiv(a, b)
  {
    var t := TruncDiv(a, b);
    if q != t {
      assert (q - t) * b == (a - t * b) - (a - q * b);
      MultipleAtLeast(q - t, b);
    }
  }

  /** `Add`, componentwise: subtracting either operand gives back the other. */
  function Add(a: Vector3, b: Vector3): (r: Vector3)
    ensures Sub(r, b) == a && Sub(r, a) == b
  {
    Vector3(a.x + b.x, a.y + b.y, a.z + b.z)
  }

  /** `Sub`, componentwise: the difference is zero exactly for equal vectors. */
  function Sub(a: Vector3, b: Vector3): (r: Vector3)
    ensures r == Vector3(0, 0, 0) <==> a == b
  {
    Vector3(a.x - b.x, a.y - b.y, a.z - b.z)
  }

  /** `Mul`, componentwise: dividing the product by a factor with no zero
      component gives back the other factor. */
  function Mul(a: Vector3, b: Vector3): (r: Vector3)
    ensures NoZeroComponent(b) ==> Div(r, b) == a
  {
    var r := Vector3(a.x * b.x, a.y * b.y, a.z * b.z);
    if NoZeroComponent(b) then
      TruncDivUnique(r.x, b.x, a.x);
      TruncDivUnique(r.y, b.y, a.y);
      TruncDivUnique(r.z, b.z, a.z);
      r
    else
      r
  }

  predicate NoZeroComponent(v: Vector3) {
    v.x != 0 && v.y != 0 && v.z != 0
  }

  /** `Div`, componentwise with truncating division. */
  function Div(a: Vector3, b: Vector3): (r: Vector3)
    requires NoZeroComponent(b)
    ensures r == Vector3(TruncDiv(a.x, b.x), TruncDiv(a.y, b.y), TruncDiv(a.z, b.z))
  {
    Vector3(TruncDiv(a.x, b.x), TruncDiv(a.y, b.y), TruncDiv(a.z, b.z))
  }

  /** `Sub` undoes `Add`, and `Add` commutes. */
  lemma SubUndoesAdd(a: Vector3, b: Vector3)
    ensures Sub(Add(a, b), b) == a
    ensures Add(a, b) == Add(b, a)
    ensures Add(Sub(a, b), b) == a
  {
  }

  /** Division rounds toward zero, unlike Euclidean division: -7 / 2 is -3. */
  lemma DivRoundsTowardZero()
    ensures Div(Vector3(-7, 7, -7), Vector3(2, 2, -2)) == Vector3(-3, 3, 3)
  {
    TruncDivUnique(-7, 2, -3);
    TruncDivUnique(7, 2, 3);
    TruncDivUnique(-7, -2, 3);
  }

  /** The source's test of `Add`. */
  lemma AddExample()
    ensures Add(Vector3(1, 2, 3), Vector3(4, 5, 6)) == Vector3(5, 7, 9)
  {
  }

  /** The source's test of `Sub`. */
  lemma SubExample()
    ensures Sub(Vector3(1, 2, 3), Vector3(4, 5, 6)) == Vector3(-3, -3, -3)
  {
  }

  /** The source's test of `Mul`. */
  lemma MulExample()
    ensures Mul(Vector3(1, 2, 3), Vector3(4, 5, 6)) == Vector3(4, 10, 18)
  {
  }
}
