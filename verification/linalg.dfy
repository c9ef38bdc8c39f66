/**
 * Fixed-size linear algebra over the reals: 3-vectors and row-major 3x3
 * matrices. The matrix library of the simulator is not part of this model;
 * multiplication, transpose and trace are defined here in the usual
 * row-major way, matching how the element code lays out its matrices
 * (one matrix row per edge vector, flattened row by row).
 */
module LinAlg {

  datatype Vec3 = Vec3(x: real, y: real, z: real)

  /** A 3x3 matrix; entry `mRC` is row R, column C. */
  datatype Mat3 = Mat3(
    m00: real, m01: real, m02: real,
    m10: real, m11: real, m12: real,
    m20: real, m21: real, m22: real)

  function Zero(): Vec3 { Vec3(0.0, 0.0, 0.0) }

  function Add(a: Vec3, b: Vec3): Vec3 { Vec3(a.x + b.x, a.y + b.y, a.z + b.z) }

  function Sub(a: Vec3, b: Vec3): Vec3 { Vec3(a.x - b.x, a.y - b.y, a.z - b.z) }

  function Scale(a: Vec3, s: real): Vec3 { Vec3(s * a.x, s * a.y, s * a.z) }

  function Neg(a: Vec3): Vec3 { Scale(a, -1.0) }

  /** Component 0, 1 or 2 in the order x, y, z (the flat layout of a V3). */
  function Coord(a: Vec3, c: nat): real
    requires c < 3
  {
    if c == 0 then a.x else if c == 1 then a.y else a.z
  }

  /** The matrix whose rows are `r0`, `r1`, `r2`. */
  function Rows(r0: Vec3, r1: Vec3, r2: Vec3): Mat3 {
    Mat3(r0.x, r0.y, r0.z,
         r1.x, r1.y, r1.z,
         r2.x, r2.y, r2.z)
  }

  function Row0(m: Mat3): Vec3 { Vec3(m.m00, m.m01, m.m02) }
  function Row1(m: Mat3): Vec3 { Vec3(m.m10, m.m11, m.m12) }
  function Row2(m: Mat3): Vec3 { Vec3(m.m20, m.m21, m.m22) }

  /** The nine entries row by row, the flat `number[]` the source passes around. */
  function Flat(m: Mat3): (r: seq<real>)
    ensures |r| == 9
  {
    [m.m00, m.m01, m.m02, m.m10, m.m11, m.m12, m.m20, m.m21, m.m22]
  }

  /** Reading a flat row-major array back gives the same matrix. */
  function FromFlat(s: seq<real>): Mat3
    requires |s| == 9
  {
    Mat3(s[0], s[1], s[2], s[3], s[4], s[5], s[6], s[7], s[8])
  }

  function Identity(): Mat3 {
    Mat3(1.0, 0.0, 0.0,
         0.0, 1.0, 0.0,
         0.0, 0.0, 1.0)
  }

  function ZeroMat(): Mat3 {
    Mat3(0.0, 0.0, 0.0, 0.0, 0.0, 0.0, 0.0, 0.0, 0.0)
  }

  function MatAdd(a: Mat3, b: Mat3): Mat3 {
    Mat3(a.m00 + b.m00, a.m01 + b.m01, a.m02 + b.m02,
         a.m10 + b.m10, a.m11 + b.m11, a.m12 + b.m12,
         a.m20 + b.m20, a.m21 + b.m21, a.m22 + b.m22)
  }

  function MatSub(a: Mat3, b: Mat3): Mat3 {
    Mat3(a.m00 - b.m00, a.m01 - b.m01, a.m02 - b.m02,
         a.m10 - b.m10, a.m11 - b.m11, a.m12 - b.m12,
         a.m20 - b.m20, a.m21 - b.m21, a.m22 - b.m22)
  }

  function MatScale(a: Mat3, s: real): Mat3 {
    Mat3(s * a.m00, s * a.m01, s * a.m02,
         s * a.m10, s * a.m11, s * a.m12,
         s * a.m20, s * a.m21, s * a.m22)
  }

  function Dot(u: Vec3, v: Vec3): real { u.x * v.x + u.y * v.y + u.z * v.z }

  function Col0(m: Mat3): Vec3 { Vec3(m.m00, m.m10, m.m20) }
  function Col1(m: Mat3): Vec3 { Vec3(m.m01, m.m11, m.m21) }
  function Col2(m: Mat3): Vec3 { Vec3(m.m02, m.m12, m.m22) }

  /** Row vector times matrix. */
  function VecMat(u: Vec3, b: Mat3): Vec3 {
    Vec3(Dot(u, Col0(b)), Dot(u, Col1(b)), Dot(u, Col2(b)))
  }

  /** Row-major matrix product `a * b`: row `i` of the result is row `i` of `a` times `b`. */
  function MatMul(a: Mat3, b: Mat3): Mat3 {
    Rows(VecMat(Row0(a), b), VecMat(Row1(a), b), VecMat(Row2(a), b))
  }

  /** Matrix applied to a column vector. */
  function MatVec(a: Mat3, v: Vec3): Vec3 {
    Vec3(Dot(Row0(a), v), Dot(Row1(a), v), Dot(Row2(a), v))
  }

  function Transpose(a: Mat3): Mat3 {
    Mat3(a.m00, a.m10, a.m20,
         a.m01, a.m11, a.m21,
         a.m02, a.m12, a.m22)
  }

  function Trace(a: Mat3): real { a.m00 + a.m11 + a.m22 }

  predicate Symmetric(a: Mat3) {
    a.m01 == a.m10 && a.m02 == a.m20 && a.m12 == a.m21
  }

  /** `b` is a two-sided inverse of `a`. */
  predicate IsInverse(a: Mat3, b: Mat3) {
    MatMul(a, b) == Identity() && MatMul(b, a) == Identity()
  }

  /** Flattening and reading back are inverse to each other. */
  lemma FlatRoundTrip(m: Mat3)
    ensures FromFlat(Flat(m)) == m
    ensures forall s: seq<real> {:trigger FromFlat(s)} :: |s| == 9 ==> Flat(FromFlat(s)) == s
  {
    forall s: seq<real> | |s| == 9
      ensures Flat(FromFlat(s)) == s
    {
      assert Flat(FromFlat(s)) == [s[0], s[1], s[2], s[3], s[4], s[5], s[6], s[7], s[8]];
    }
  }

  /** The identity is neutral for the product on both sides. */
  lemma MatMulIdentity(a: Mat3, i: Mat3)
    requires i == Identity()
    ensures MatMul(i, a) == a
    ensures MatMul(a, i) == a
  {
  }

  /** The transpose of a product is the product of the transposes, reversed. */
  lemma TransposeMul(a: Mat3, b: Mat3)
    ensures Transpose(MatMul(a, b)) == MatMul(Transpose(b), Transpose(a))
  {
  }

  /** `a^T a` is symmetric for every `a`, and so is `x + x^T`. */
  lemma GramSymmetric(a: Mat3, b: Mat3)
    ensures Symmetric(MatMul(Transpose(a), a))
    ensures Symmetric(MatAdd(MatMul(Transpose(a), b), MatMul(Transpose(b), a)))
  {
  }

  /** `(u b) . w == u . (b w)`: one entry of a triple product. */
  lemma DotAssoc(u: Vec3, b: Mat3, w: Vec3)
    ensures Dot(VecMat(u, b), w) == Dot(u, MatVec(b, w))
  {
  }

  /** Each row of a product is the row of the left factor times the right one. */
  lemma RowsOfProduct(a: Mat3, b: Mat3)
    ensures Row0(MatMul(a, b)) == VecMat(Row0(a), b)
    ensures Row1(MatMul(a, b)) == VecMat(Row1(a), b)
    ensures Row2(MatMul(a, b)) == VecMat(Row2(a), b)
  {
  }

  /** `(u b) c == u (b c)` for a row vector `u`. */
  lemma VecMatAssoc(u: Vec3, b: Mat3, c: Mat3)
    ensures VecMat(VecMat(u, b), c) == VecMat(u, MatMul(b, c))
  {
    var bc := MatMul(b, c);
    assert Col0(bc) == MatVec(b, Col0(c));
    assert Col1(bc) == MatVec(b, Col1(c));
    assert Col2(bc) == MatVec(b, Col2(c));
    DotAssoc(u, b, Col0(c));
    DotAssoc(u, b, Col1(c));
    DotAssoc(u, b, Col2(c));
  }

  /** The matrix product is associative. */
  lemma MatMulAssoc(a: Mat3, b: Mat3, c: Mat3)
    ensures MatMul(MatMul(a, b), c) == MatMul(a, MatMul(b, c))
  {
    var ab, bc := MatMul(a, b), MatMul(b, c);
    RowsOfProduct(a, b);
    RowsOfProduct(ab, c);
    RowsOfProduct(a, bc);
    VecMatAssoc(Row0(a), b, c);
    VecMatAssoc(Row1(a), b, c);
    VecMatAssoc(Row2(a), b, c);
    assert Row0(MatMul(ab, c)) == Row0(MatMul(a, bc));
    assert Row1(MatMul(ab, c)) == Row1(MatMul(a, bc));
    assert Row2(MatMul(ab, c)) == Row2(MatMul(a, bc));
  }

  /** A row vector times a sum of matrices is the sum of the products. */
  lemma VecMatDistrib(u: Vec3, b: Mat3, c: Mat3)
    ensures VecMat(u, MatAdd(b, c)) == Add(VecMat(u, b), VecMat(u, c))
  {
    var bc := MatAdd(b, c);
    assert Col0(bc) == Add(Col0(b), Col0(c));
    assert Col1(bc) == Add(Col1(b), Col1(c));
    assert Col2(bc) == Add(Col2(b), Col2(c));
  }

  /** The product distributes over a sum on the right. */
  lemma MatMulDistrib(a: Mat3, b: Mat3, c: Mat3)
    ensures MatMul(a, MatAdd(b, c)) == MatAdd(MatMul(a, b), MatMul(a, c))
  {
    VecMatDistrib(Row0(a), b, c);
    VecMatDistrib(Row1(a), b, c);
    VecMatDistrib(Row2(a), b, c);
  }

  /** Multiplying by the zero matrix on either side gives zero. */
  lemma MatMulZero(a: Mat3, z: Mat3)
    requires z == ZeroMat()
    ensures MatMul(a, z) == z
    ensures MatMul(z, a) == z
  {
  }

  /** Scaled identities multiply by multiplying their scales. */
  lemma ScaledIdentityMul(s: real, t: real, i: Mat3)
    requires i == Identity()
    ensures MatMul(MatScale(i, s), MatScale(i, t)) == MatScale(i, s * t)
  {
  }

  /** Adding the zero matrix changes nothing. */
  lemma AddZero(a: Mat3, z: Mat3)
    requires z == ZeroMat()
    ensures MatAdd(a, z) == a
    ensures MatAdd(z, a) == a
  {
  }

  /** The right-handed cross product. */
  function Cross(a: Vec3, b: Vec3): Vec3 {
    Vec3(a.y * b.z - a.z * b.y, a.z * b.x - a.x * b.z, a.x * b.y - a.y * b.x)
  }

  /** Applying a matrix is linear: it distributes over sums and commutes with scaling. */
  lemma MatVecLinear(a: Mat3, u: Vec3, v: Vec3, s: real)
    ensures MatVec(a, Add(u, v)) == Add(MatVec(a, u), MatVec(a, v))
    ensures MatVec(a, Scale(u, s)) == Scale(MatVec(a, u), s)
  {
  }
}
