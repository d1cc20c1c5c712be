/**
  Points and 4x4 homogeneous transforms over the reals: the part of numpy the
  arm uses (3-vectors, 4x4 matrices, the `@` product, slicing out the
  translation column and the rotation block).
 */
module Geometry {

  /** A point or offset in room coordinates. */
  datatype Vec3 = Vec3(x: real, y: real, z: real)

  function Add(u: Vec3, v: Vec3): Vec3 {
    Vec3(u.x + v.x, u.y + v.y, u.z + v.z)
  }

  function Sub(u: Vec3, v: Vec3): Vec3 {
    Vec3(u.x - v.x, u.y - v.y, u.z - v.z)
  }

  function Scale(s: real, v: Vec3): Vec3 {
    Vec3(s * v.x, s * v.y, s * v.z)
  }

  type Row = r: seq<real> | |r| == 4 witness [0.0, 0.0, 0.0, 0.0]

  /** A 4x4 matrix as four rows; `m[i][j]` is row i, column j. */
  type Mat4 = m: seq<Row> | |m| == 4 witness [ZeroRow, ZeroRow, ZeroRow, ZeroRow]

  const ZeroRow: Row := [0.0, 0.0, 0.0, 0.0]
  const BottomRow: Row := [0.0, 0.0, 0.0, 1.0]

  /** The matrix with the given rows. */
  function Rows(r0: Row, r1: Row, r2: Row, r3: Row): Mat4 {
    [r0, r1, r2, r3]
  }

  const Identity: Mat4 :=
    Rows([1.0, 0.0, 0.0, 0.0], [0.0, 1.0, 0.0, 0.0], [0.0, 0.0, 1.0, 0.0], BottomRow)

  /** A rigid-body transform in homogeneous form: its last row is [0, 0, 0, 1]. */
  predicate IsHomogeneous(m: Mat4) {
    m[3] == BottomRow
  }

  /** Row i of `a` times column j of `b`. */
  function Dot(a: Mat4, b: Mat4, i: nat, j: nat): real
    requires i < 4 && j < 4
  {
    a[i][0] * b[0][j] + a[i][1] * b[1][j] + a[i][2] * b[2][j] + a[i][3] * b[3][j]
  }

  /** The matrix product `a @ b`. */
  function Mul(a: Mat4, b: Mat4): (p: Mat4)
    ensures IsHomogeneous(a) && IsHomogeneous(b) ==> IsHomogeneous(p)
  {
    seq(4, i requires 0 <= i < 4 => seq(4, j requires 0 <= j < 4 => Dot(a, b, i, j)))
  }

  /** The translation column `m[0:3, 3]`. */
  function Translation(m: Mat4): Vec3 {
    Vec3(m[0][3], m[1][3], m[2][3])
  }

  /** The image of point `p` under the homogeneous transform `m`. */
  function Apply(m: Mat4, p: Vec3): Vec3 {
    Vec3(m[0][0] * p.x + m[0][1] * p.y + m[0][2] * p.z + m[0][3],
         m[1][0] * p.x + m[1][1] * p.y + m[1][2] * p.z + m[1][3],
         m[2][0] * p.x + m[2][1] * p.y + m[2][2] * p.z + m[2][3])
  }

  /** Entry (i, j) of `m`, as Mul defines it. */
  lemma MulEntry(a: Mat4, b: Mat4, i: nat, j: nat)
    requires i < 4 && j < 4
    ensures Mul(a, b)[i][j] == Dot(a, b, i, j)
  {
  }

  /** Entry (i, j) of `(a @ b) @ c`, written out over the entries of a, b and c. */
  lemma LeftBracketed(a: Mat4, b: Mat4, c: Mat4, i: nat, j: nat)
    requires i < 4 && j < 4
    ensures Dot(Mul(a, b), c, i, j) ==
            (a[i][0] * b[0][0] + a[i][1] * b[1][0] + a[i][2] * b[2][0] + a[i][3] * b[3][0]) * c[0][j]
          + (a[i][0] * b[0][1] + a[i][1] * b[1][1] + a[i][2] * b[2][1] + a[i][3] * b[3][1]) * c[1][j]
          + (a[i][0] * b[0][2] + a[i][1] * b[1][2] + a[i][2] * b[2][2] + a[i][3] * b[3][2]) * c[2][j]
          + (a[i][0] * b[0][3] + a[i][1] * b[1][3] + a[i][2] * b[2][3] + a[i][3] * b[3][3]) * c[3][j]
  {
    MulEntry(a, b, i, 0); MulEntry(a, b, i, 1); MulEntry(a, b, i, 2); MulEntry(a, b, i, 3);
  }

  /** Entry (i, j) of `a @ (b @ c)`, written out over the entries of a, b and c. */
  lemma RightBracketed(a: Mat4, b: Mat4, c: Mat4, i: nat, j: nat)
    requires i < 4 && j < 4
    ensures Dot(a, Mul(b, c), i, j) ==
            a[i][0] * (b[0][0] * c[0][j] + b[0][1] * c[1][j] + b[0][2] * c[2][j] + b[0][3] * c[3][j])
          + a[i][1] * (b[1][0] * c[0][j] + b[1][1] * c[1][j] + b[1][2] * c[2][j] + b[1][3] * c[3][j])
          + a[i][2] * (b[2][0] * c[0][j] + b[2][1] * c[1][j] + b[2][2] * c[2][j] + b[2][3] * c[3][j])
          + a[i][3] * (b[3][0] * c[0][j] + b[3][1] * c[1][j] + b[3][2] * c[2][j] + b[3][3] * c[3][j])
  {
    MulEntry(b, c, 0, j); MulEntry(b, c, 1, j); MulEntry(b, c, 2, j); MulEntry(b, c, 3, j);
  }

  /** Entry (i, j) of a triple product, the two ways of bracketing it. */
  lemma DotAssoc(a: Mat4, b: Mat4, c: Mat4, i: nat, j: nat)
    requires i < 4 && j < 4
    ensures Dot(Mul(a, b), c, i, j) == Dot(a, Mul(b, c), i, j)
  {
    LeftBracketed(a, b, c, i, j);
    RightBracketed(a, b, c, i, j);
    assert (a[i][0] * b[0][0] + a[i][1] * b[1][0] + a[i][2] * b[2][0] + a[i][3] * b[3][0]) * c[0][j]
          + (a[i][0] * b[0][1] + a[i][1] * b[1][1] + a[i][2] * b[2][1] + a[i][3] * b[3][1]) * c[1][j]
          + (a[i][0] * b[0][2] + a[i][1] * b[1][2] + a[i][2] * b[2][2] + a[i][3] * b[3][2]) * c[2][j]
          + (a[i][0] * b[0][3] + a[i][1] * b[1][3] + a[i][2] * b[2][3] + a[i][3] * b[3][3]) * c[3][j]
        == a[i][0] * (b[0][0] * c[0][j] + b[0][1] * c[1][j] + b[0][2] * c[2][j] + b[0][3] * c[3][j])
          + a[i][1] * (b[1][0] * c[0][j] + b[1][1] * c[1][j] + b[1][2] * c[2][j] + b[1][3] * c[3][j])
          + a[i][2] * (b[2][0] * c[0][j] + b[2][1] * c[1][j] + b[2][2] * c[2][j] + b[2][3] * c[3][j])
          + a[i][3] * (b[3][0] * c[0][j] + b[3][1] * c[1][j] + b[3][2] * c[2][j] + b[3][3] * c[3][j]);
  }

  /** The matrix product is associative. */
  lemma MulAssoc(a: Mat4, b: Mat4, c: Mat4)
    ensures Mul(Mul(a, b), c) == Mul(a, Mul(b, c))
  {
    var l, r := Mul(Mul(a, b), c), Mul(a, Mul(b, c));
    forall i | 0 <= i < 4
      ensures l[i] == r[i]
    {
      forall j | 0 <= j < 4
        ensures l[i][j] == r[i][j]
      {
        DotAssoc(a, b, c, i, j);
      }
    }
  }

  /** The identity matrix is a unit of the product on both sides. */
  lemma MulIdentity(m: Mat4)
    ensures Mul(Identity, m) == m && Mul(m, Identity) == m
  {
    var l, r := Mul(Identity, m), Mul(m, Identity);
    forall i | 0 <= i < 4
      ensures l[i] == m[i] && r[i] == m[i]
    {
      forall j | 0 <= j < 4
        ensures l[i][j] == m[i][j] && r[i][j] == m[i][j]
      {
        MulEntry(Identity, m, i, j);
        MulEntry(m, Identity, i, j);
      }
    }
  }

  /** The translation of a product is the left factor applied to the right factor's translation. */
  lemma {:induction false} TranslationOfMul(a: Mat4, b: Mat4)
    requires IsHomogeneous(b)
    ensures Translation(Mul(a, b)) == Apply(a, Translation(b))
  {
    var p := Mul(a, b);
    assert p[0][3] == Dot(a, b, 0, 3) && p[1][3] == Dot(a, b, 1, 3) && p[2][3] == Dot(a, b, 2, 3);
  }

  /** Columns i and j of the rotation block `m[0:3, 0:3]`, multiplied. */
  function ColumnDot(m: Mat4, i: nat, j: nat): real
    requires i < 3 && j < 3
  {
    m[0][i] * m[0][j] + m[1][i] * m[1][j] + m[2][i] * m[2][j]
  }

  /** The rotation block of `m` has orthonormal columns: it is a rotation (or reflection). */
  predicate OrthonormalRotation(m: Mat4) {
    && ColumnDot(m, 0, 0) == 1.0 && ColumnDot(m, 1, 1) == 1.0 && ColumnDot(m, 2, 2) == 1.0
    && ColumnDot(m, 0, 1) == 0.0 && ColumnDot(m, 0, 2) == 0.0 && ColumnDot(m, 1, 2) == 0.0
  }

  /**
    The rigid-body inverse [R^T, -R^T t; 0 0 0 1] of a transform with rotation
    block R and translation t.
   */
  function InvertRigid(m: Mat4): (inv: Mat4)
    ensures IsHomogeneous(inv)
    ensures Apply(inv, Translation(m)) == Vec3(0.0, 0.0, 0.0)
  {
    Rows([m[0][0], m[1][0], m[2][0], -(m[0][0] * m[0][3] + m[1][0] * m[1][3] + m[2][0] * m[2][3])],
         [m[0][1], m[1][1], m[2][1], -(m[0][1] * m[0][3] + m[1][1] * m[1][3] + m[2][1] * m[2][3])],
         [m[0][2], m[1][2], m[2][2], -(m[0][2] * m[0][3] + m[1][2] * m[1][3] + m[2][2] * m[2][3])],
         BottomRow)
  }

  /** Entry (i, j) of the rotation block of `InvertRigid(m) @ m` is the product of columns i and j of m. */
  lemma InvertRigidRotationEntry(m: Mat4, i: nat, j: nat)
    requires IsHomogeneous(m) && i < 3 && j < 3
    ensures Mul(InvertRigid(m), m)[i][j] == ColumnDot(m, i, j)
  {
    MulEntry(InvertRigid(m), m, i, j);
    assert m[3][j] == 0.0;
  }

  /** The translation column of `InvertRigid(m) @ m` is zero. */
  lemma InvertRigidTranslationEntry(m: Mat4, i: nat)
    requires IsHomogeneous(m) && i < 3
    ensures Mul(InvertRigid(m), m)[i][3] == 0.0
  {
    MulEntry(InvertRigid(m), m, i, 3);
    assert m[3][3] == 1.0;
  }

  /** For a rigid transform, InvertRigid is a left inverse. */
  lemma InvertRigidUndoes(m: Mat4)
    requires IsHomogeneous(m) && OrthonormalRotation(m)
    ensures Mul(InvertRigid(m), m) == Identity
  {
    var p := Mul(InvertRigid(m), m);
    forall i | 0 <= i < 3
      ensures p[i][3] == 0.0
    {
      InvertRigidTranslationEntry(m, i);
    }
    InvertRigidRotationEntry(m, 0, 0); InvertRigidRotationEntry(m, 0, 1); InvertRigidRotationEntry(m, 0, 2);
    InvertRigidRotationEntry(m, 1, 0); InvertRigidRotationEntry(m, 1, 1); InvertRigidRotationEntry(m, 1, 2);
    InvertRigidRotationEntry(m, 2, 0); InvertRigidRotationEntry(m, 2, 1); InvertRigidRotationEntry(m, 2, 2);
    assert ColumnDot(m, 1, 0) == ColumnDot(m, 0, 1);
    assert ColumnDot(m, 2, 0) == ColumnDot(m, 0, 2);
    assert ColumnDot(m, 2, 1) == ColumnDot(m, 1, 2);
    assert p[0] == Identity[0] && p[1] == Identity[1] && p[2] == Identity[2];
  }
}
