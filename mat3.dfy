/**
 * The column-major 3x3 matrix of src/ds/mat3.cpp (the branch built without
 * the Accelerate framework). Copying and assigning a Mat3 copies its three
 * columns, which for a datatype value is the value itself.
 */
module Matrices {
  import opened Vectors
  import Numerics

  datatype Mat3 = Mat3(c1: Vec3, c2: Vec3, c3: Vec3)
  {
    /** Column j. */
    function Col(j: Axis): Vec3
    {
      if j == 0 then c1 else if j == 1 then c2 else c3
    }

    /** Row i, read across the three columns. */
    function Row(i: Axis): Vec3
    {
      Vec3(c1.Get(i), c2.Get(i), c3.Get(i))
    }

    /** The entry in row i and column j. */
    function Entry(i: Axis, j: Axis): real
    {
      Col(j).Get(i)
    }

    /** `operator*(Vec3)`: the combination c1 b.x + c2 b.y + c3 b.z of the columns. */
    function MulVec(b: Vec3): Vec3
    {
      c1.Scale(b.x).Add(c2.Scale(b.y)).Add(c3.Scale(b.z))
    }

    /** `operator*(Mat3)`: this matrix applied to each column of B. */
    function MulMat(B: Mat3): Mat3
    {
      Mat3(MulVec(B.c1), MulVec(B.c2), MulVec(B.c3))
    }

    /** `operator*(double)`: every column scaled by d. */
    function Scale(d: real): Mat3
    {
      Mat3(c1.Scale(d), c2.Scale(d), c3.Scale(d))
    }

    /** `transpose()`: the rows become the columns. */
    function Transpose(): Mat3
    {
      Mat3(Vec3(c1.x, c2.x, c3.x), Vec3(c1.y, c2.y, c3.y), Vec3(c1.z, c2.z, c3.z))
    }
  }

  /** Each component of M b is the dot product of a row of M with b. */
  lemma MulVecRows(M: Mat3, b: Vec3)
    ensures M.MulVec(b) == Vec3(M.Row(0).Dot(b), M.Row(1).Dot(b), M.Row(2).Dot(b))
  {
  }

  /** The product with a vector is linear. */
  lemma MulVecLinear(M: Mat3, a: Vec3, b: Vec3, s: real, t: real)
    ensures M.MulVec(a.Scale(s).Add(b.Scale(t))) == M.MulVec(a).Scale(s).Add(M.MulVec(b).Scale(t))
  {
    MulVecSum(M, a.Scale(s), b.Scale(t));
    MulVecScale(M, a, s);
    MulVecScale(M, b, t);
  }

  /** The matrix product composes the two maps: (A B) x = A (B x). */
  lemma {:induction false} MulMatAssociative(A: Mat3, B: Mat3, x: Vec3)
    ensures A.MulMat(B).MulVec(x) == A.MulVec(B.MulVec(x))
  {
    MulVecLinear(A, B.c1, B.c2, x.x, x.y);
    var w := B.c1.Scale(x.x).Add(B.c2.Scale(x.y));
    MulVecSum(A, w, B.c3.Scale(x.z));
    MulVecScale(A, B.c3, x.z);
  }

  /** The product distributes over a sum. */
  lemma MulVecSum(M: Mat3, a: Vec3, b: Vec3)
    ensures M.MulVec(a.Add(b)) == M.MulVec(a).Add(M.MulVec(b))
  {
    SumRow(M.c1.x, M.c2.x, M.c3.x, a, b);
    SumRow(M.c1.y, M.c2.y, M.c3.y, a, b);
    SumRow(M.c1.z, M.c2.z, M.c3.z, a, b);
  }

  lemma SumRow(p: real, q: real, r: real, a: Vec3, b: Vec3)
    ensures Numerics.Mul(p, a.x + b.x) + Numerics.Mul(q, a.y + b.y) + Numerics.Mul(r, a.z + b.z)
         == (Numerics.Mul(p, a.x) + Numerics.Mul(q, a.y) + Numerics.Mul(r, a.z))
          + (Numerics.Mul(p, b.x) + Numerics.Mul(q, b.y) + Numerics.Mul(r, b.z))
  {
  }

  /** The product commutes with scaling the vector. */
  lemma MulVecScale(M: Mat3, a: Vec3, s: real)
    ensures M.MulVec(a.Scale(s)) == M.MulVec(a).Scale(s)
  {
    ScaleArgRow(M.c1.x, M.c2.x, M.c3.x, s, a);
    ScaleArgRow(M.c1.y, M.c2.y, M.c3.y, s, a);
    ScaleArgRow(M.c1.z, M.c2.z, M.c3.z, s, a);
  }

  lemma ScaleArgRow(p: real, q: real, r: real, s: real, v: Vec3)
    ensures Numerics.Mul(p, Numerics.Mul(v.x, s)) + Numerics.Mul(q, Numerics.Mul(v.y, s)) + Numerics.Mul(r, Numerics.Mul(v.z, s))
         == Numerics.Mul(Numerics.Mul(p, v.x) + Numerics.Mul(q, v.y) + Numerics.Mul(r, v.z), s)
  {
  }

  /** Scaling the matrix scales its image: (A d) x = (A x) d. */
  lemma {:induction false} MulScale(A: Mat3, d: real, x: Vec3)
    ensures A.Scale(d).MulVec(x) == A.MulVec(x).Scale(d)
  {
    ScaleRow(A.c1.x, A.c2.x, A.c3.x, d, x);
    ScaleRow(A.c1.y, A.c2.y, A.c3.y, d, x);
    ScaleRow(A.c1.z, A.c2.z, A.c3.z, d, x);
  }

  lemma ScaleRow(p: real, q: real, r: real, d: real, v: Vec3)
    ensures Numerics.Mul(Numerics.Mul(p, d), v.x) + Numerics.Mul(Numerics.Mul(q, d), v.y) + Numerics.Mul(Numerics.Mul(r, d), v.z)
         == Numerics.Mul(Numerics.Mul(p, v.x) + Numerics.Mul(q, v.y) + Numerics.Mul(r, v.z), d)
  {
  }

  /** Transposing swaps entry (i, j) with entry (j, i), so it is an involution. */
  lemma TransposeEntries(M: Mat3)
    ensures forall i: Axis, j: Axis :: M.Transpose().Entry(i, j) == M.Entry(j, i)
    ensures M.Transpose().Transpose() == M
  {
  }

  /** The transpose is the adjoint for the dot product: (M^T a) . b == a . (M b). */
  lemma TransposeAdjoint(M: Mat3, a: Vec3, b: Vec3)
    ensures M.Transpose().MulVec(a).Dot(b) == a.Dot(M.MulVec(b))
  {
    TransposeMulVec(M, a);
    MulVecRows(M, b);
    AdjointSum(M.c1, M.c2, M.c3, a, b);
  }

  /** Each component of M^T a is the dot product of a column of M with a. */
  lemma TransposeMulVec(M: Mat3, a: Vec3)
    ensures M.Transpose().MulVec(a) == Vec3(M.c1.Dot(a), M.c2.Dot(a), M.c3.Dot(a))
  {
  }

  /** Both sides of the adjoint identity are the sum of a_i M_ij b_j over i and j. */
  lemma AdjointSum(c1: Vec3, c2: Vec3, c3: Vec3, a: Vec3, b: Vec3)
    ensures Numerics.Mul(c1.Dot(a), b.x) + Numerics.Mul(c2.Dot(a), b.y) + Numerics.Mul(c3.Dot(a), b.z)
         == Numerics.Mul(a.x, Vec3(c1.x, c2.x, c3.x).Dot(b)) + Numerics.Mul(a.y, Vec3(c1.y, c2.y, c3.y).Dot(b))
          + Numerics.Mul(a.z, Vec3(c1.z, c2.z, c3.z).Dot(b))
  {
  }
}
