/**
 * Dense real matrices as sequences of rows, with the algebra the inversion
 * proof needs: the row-by-column product, the identity, column
 * concatenation and the left and right column blocks.
 *
 * The program works on `double`; here every entry is an exact `real`, so
 * the field laws hold and no rounding happens.
 */
module Matrices {

  type Matrix = seq<seq<real>>

  /** `m` has `rows` rows, each of `cols` entries. */
  ghost predicate IsMatrix(m: Matrix, rows: nat, cols: nat) {
    |m| == rows && forall i :: 0 <= i < rows ==> |m[i]| == cols
  }

  /** Number of columns of a matrix; a matrix with no rows has none. */
  function Width(m: Matrix): (c: nat) {
    if |m| == 0 then 0 else |m[0]|
  }

  /** Absolute value, as `fabs` does for the pivot search. */
  function Abs(x: real): (r: real)
    ensures r >= 0.0 && (r == x || r == -x)
  {
    if x < 0.0 then -x else x
  }

  /** The sum of the products u[t] * v[t]: a row times a column. */
  function Dot(u: seq<real>, v: seq<real>): (r: real)
    requires |u| == |v|
  {
    if |u| == 0 then 0.0 else u[0] * v[0] + Dot(u[1..], v[1..])
  }

  /** Column j of m, read top to bottom. */
  function Column(m: Matrix, j: nat): (c: seq<real>)
    requires forall i :: 0 <= i < |m| ==> j < |m[i]|
    ensures |c| == |m| && forall i :: 0 <= i < |m| ==> c[i] == m[i][j]
  {
    seq(|m|, i requires 0 <= i < |m| => m[i][j])
  }

  /** The matrix product a * b: entry (i, j) is row i of a times column j of b. */
  ghost function Mul(a: Matrix, b: Matrix): (p: Matrix)
    requires forall i :: 0 <= i < |a| ==> |a[i]| == |b|
    requires IsMatrix(b, |b|, Width(b))
    ensures IsMatrix(p, |a|, Width(b))
    ensures forall i, j :: 0 <= i < |a| && 0 <= j < Width(b) ==> p[i][j] == Dot(a[i], Column(b, j))
  {
    seq(|a|, i requires 0 <= i < |a| => VecMat(a[i], b, Width(b)))
  }

  /** The n x n identity matrix. */
  function Identity(n: nat): (id: Matrix)
    ensures IsMatrix(id, n, n)
    ensures forall i, j :: 0 <= i < n && 0 <= j < n ==> id[i][j] == if i == j then 1.0 else 0.0
  {
    seq(n, i requires 0 <= i < n => UnitRow(n, i))
  }

  /** The row of length n that is 1 at index h and 0 elsewhere. */
  function UnitRow(n: nat, h: nat): (e: seq<real>)
    ensures |e| == n && forall t :: 0 <= t < n ==> e[t] == if t == h then 1.0 else 0.0
  {
    seq(n, t requires 0 <= t < n => if t == h then 1.0 else 0.0)
  }

  /** The rows x cols matrix of zeros. */
  ghost function Zero(rows: nat, cols: nat): (z: Matrix)
    ensures IsMatrix(z, rows, cols)
    ensures forall i, j :: 0 <= i < rows && 0 <= j < cols ==> z[i][j] == 0.0
  {
    seq(rows, i => seq(cols, j => 0.0))
  }

  /** [a | b]: the rows of a followed, row by row, by the rows of b. */
  function ConcatCols(a: Matrix, b: Matrix): (m: Matrix)
    requires |a| == |b|
  {
    seq(|a|, i requires 0 <= i < |a| => a[i] + b[i])
  }

  /** The first c columns of m. */
  ghost function Left(m: Matrix, c: nat): (l: Matrix)
    requires forall i :: 0 <= i < |m| ==> c <= |m[i]|
    ensures IsMatrix(l, |m|, c)
    ensures forall i, j :: 0 <= i < |m| && 0 <= j < c ==> l[i][j] == m[i][j]
  {
    seq(|m|, i requires 0 <= i < |m| => m[i][..c])
  }

  /** The columns of m from column c on. */
  ghost function Right(m: Matrix, c: nat): (r: Matrix)
    requires forall i :: 0 <= i < |m| ==> c <= |m[i]|
    ensures |r| == |m|
    ensures forall i :: 0 <= i < |m| ==> |r[i]| == |m[i]| - c
    ensures forall i, j :: 0 <= i < |m| && 0 <= j < |m[i]| - c ==> r[i][j] == m[i][c + j]
  {
    seq(|m|, i requires 0 <= i < |m| => m[i][c..])
  }

  /** Row i of a b is row i of a times b. */
  lemma MulRow(a: Matrix, b: Matrix, i: nat)
    requires forall r :: 0 <= r < |a| ==> |a[r]| == |b|
    requires IsMatrix(b, |b|, Width(b)) && i < |a|
    ensures Mul(a, b)[i] == VecMat(a[i], b, Width(b))
  {
  }

  /** Row i of the first c columns of m is the prefix of row i. */
  lemma LeftRow(m: Matrix, c: nat, i: nat)
    requires forall r :: 0 <= r < |m| ==> c <= |m[r]|
    requires i < |m|
    ensures Left(m, c)[i] == m[i][..c]
  {
  }

  /** Row i of the columns from c on is the suffix of row i. */
  lemma RightRow(m: Matrix, c: nat, i: nat)
    requires forall r :: 0 <= r < |m| ==> c <= |m[r]|
    requires i < |m|
    ensures Right(m, c)[i] == m[i][c..|m[i]|]
  {
  }

  /** Two matrices of the same shape with the same entries are equal. */
  lemma SameEntries(x: Matrix, y: Matrix, rows: nat, cols: nat)
    requires IsMatrix(x, rows, cols) && IsMatrix(y, rows, cols)
    requires forall i, j :: 0 <= i < rows && 0 <= j < cols ==> x[i][j] == y[i][j]
    ensures x == y
  {
    forall i | 0 <= i < rows
      ensures x[i] == y[i]
    {
      assert forall j :: 0 <= j < cols ==> x[i][j] == y[i][j];
    }
  }

  /** Splitting [a | b] at column |a[0]| gives back a and b. */
  lemma ConcatSplit(a: Matrix, b: Matrix, rows: nat, ca: nat, cb: nat)
    requires IsMatrix(a, rows, ca) && IsMatrix(b, rows, cb)
    ensures IsMatrix(ConcatCols(a, b), rows, ca + cb)
    ensures Left(ConcatCols(a, b), ca) == a
    ensures Right(ConcatCols(a, b), ca) == b
  {
    var m := ConcatCols(a, b);
    assert forall i :: 0 <= i < rows ==> m[i] == a[i] + b[i];
    SameEntries(Left(m, ca), a, rows, ca);
    SameEntries(Right(m, ca), b, rows, cb);
  }

  // ---------------------------------------------------------------------
  // Dot products

  /** Adding a multiple of w to the first argument adds that multiple of w . v. */
  lemma {:induction false} DotAddScaled(z: seq<real>, u: seq<real>, w: seq<real>, v: seq<real>, c: real)
    requires |z| == |u| == |w| == |v|
    requires forall t :: 0 <= t < |z| ==> z[t] == u[t] + c * w[t]
    ensures Dot(z, v) == Dot(u, v) + c * Dot(w, v)
  {
    if |z| > 0 {
      DotAddScaled(z[1..], u[1..], w[1..], v[1..], c);
      AddScaledStep(z[0], u[0], w[0], v[0], c, Dot(z[1..], v[1..]), Dot(u[1..], v[1..]), Dot(w[1..], v[1..]));
    }
  }

  /** The arithmetic of one step of DotAddScaled. */
  lemma AddScaledStep(z0: real, u0: real, w0: real, v0: real, c: real, dz: real, du: real, dw: real)
    requires z0 == u0 + c * w0 && dz == du + c * dw
    ensures z0 * v0 + dz == (u0 * v0 + du) + c * (w0 * v0 + dw)
  {
    calc {
      z0 * v0 + dz;
      (u0 + c * w0) * v0 + du + c * dw;
      u0 * v0 + c * (w0 * v0) + du + c * dw;
      (u0 * v0 + du) + c * (w0 * v0 + dw);
    }
  }

  /** Dot is symmetric. */
  lemma {:induction false} DotSymmetric(u: seq<real>, v: seq<real>)
    requires |u| == |v|
    ensures Dot(u, v) == Dot(v, u)
  {
    if |u| > 0 {
      DotSymmetric(u[1..], v[1..]);
    }
  }

  /** Against a vector that is 1 at index h and 0 elsewhere, Dot picks one
      entry; when h is out of range the vector is zero and so is the product. */
  lemma {:induction false} DotOneHot(u: seq<real>, e: seq<real>, h: int)
    requires |u| == |e|
    requires forall t :: 0 <= t < |e| ==> e[t] == if t == h then 1.0 else 0.0
    ensures Dot(u, e) == if 0 <= h < |u| then u[h] else 0.0
  {
    if |u| > 0 {
      DotOneHot(u[1..], e[1..], h - 1);
    }
  }

  /** Entries of v and w that u multiplies by zero do not matter. */
  lemma {:induction false} DotAgree(u: seq<real>, v: seq<real>, w: seq<real>)
    requires |u| == |v| == |w|
    requires forall t :: 0 <= t < |u| ==> u[t] == 0.0 || v[t] == w[t]
    ensures Dot(u, v) == Dot(u, w)
  {
    if |u| > 0 {
      DotAgree(u[1..], v[1..], w[1..]);
      if u[0] == 0.0 {
        assert u[0] * v[0] == 0.0 == u[0] * w[0];
      }
    }
  }

  // ---------------------------------------------------------------------
  // The matrix product

  /** Row vector x times matrix b (|x| rows, c columns). */
  ghost function VecMat(x: seq<real>, b: Matrix, c: nat): (r: seq<real>)
    requires IsMatrix(b, |x|, c)
    ensures |r| == c && forall t :: 0 <= t < c ==> r[t] == Dot(x, Column(b, t))
  {
    seq(c, t requires 0 <= t < c => Dot(x, Column(b, t)))
  }

  /** Matrix b times column vector y. */
  ghost function MatVec(b: Matrix, y: seq<real>): (r: seq<real>)
    requires forall s :: 0 <= s < |b| ==> |b[s]| == |y|
    ensures |r| == |b| && forall s :: 0 <= s < |b| ==> r[s] == Dot(b[s], y)
  {
    seq(|b|, s requires 0 <= s < |b| => Dot(b[s], y))
  }

  /** (x b) y == x (b y): the double sum may be taken in either order. */
  lemma {:induction false} VecMatVec(x: seq<real>, b: Matrix, y: seq<real>)
    requires IsMatrix(b, |x|, |y|)
    ensures Dot(VecMat(x, b, |y|), y) == Dot(x, MatVec(b, y))
  {
    var c := |y|;
    var z := VecMat(x, b, c);
    if |x| == 0 {
      assert forall t :: 0 <= t < c ==> z[t] == 0.0;
      DotOneHot(y, z, -1);
      DotSymmetric(z, y);
    } else {
      var u := VecMat(x[1..], b[1..], c);
      VecMatVec(x[1..], b[1..], y);
      VecMatFirstRow(x, b, c);
      DotAddScaled(z, u, b[0], y, x[0]);
      MatVecFirstRow(b, y);
      var bv := MatVec(b, y);
      assert bv[1..] == MatVec(b[1..], y);
      DotStep(x, bv, Dot(z, y), Dot(u, y), Dot(b[0], y));
    }
  }

  /** b y, split into its first entry and the rest. */
  lemma MatVecFirstRow(b: Matrix, y: seq<real>)
    requires |b| > 0 && forall s :: 0 <= s < |b| ==> |b[s]| == |y|
    ensures MatVec(b, y)[0] == Dot(b[0], y) && MatVec(b, y)[1..] == MatVec(b[1..], y)
  {
  }

  /** The arithmetic of one step of VecMatVec. */
  lemma DotStep(x: seq<real>, bv: seq<real>, dz: real, du: real, db: real)
    requires |x| == |bv| > 0
    requires dz == du + x[0] * db
    requires bv[0] == db && du == Dot(x[1..], bv[1..])
    ensures dz == Dot(x, bv)
  {
    calc {
      Dot(x, bv);
      x[0] * bv[0] + Dot(x[1..], bv[1..]);
      x[0] * db + du;
    }
  }

  /** x b, split into the contribution of the first row and the rest. */
  lemma VecMatFirstRow(x: seq<real>, b: Matrix, c: nat)
    requires |x| > 0 && IsMatrix(b, |x|, c)
    ensures forall t :: 0 <= t < c ==>
      VecMat(x, b, c)[t] == VecMat(x[1..], b[1..], c)[t] + x[0] * b[0][t]
  {
    forall t | 0 <= t < c
      ensures Dot(x, Column(b, t)) == Dot(x[1..], Column(b[1..], t)) + x[0] * b[0][t]
    {
      assert Column(b, t)[1..] == Column(b[1..], t);
    }
  }

  /** The product is associative. */
  lemma MulAssoc(a: Matrix, b: Matrix, c: Matrix, r: nat, m: nat, p: nat, q: nat)
    requires m > 0 && p > 0
    requires IsMatrix(a, r, m) && IsMatrix(b, m, p) && IsMatrix(c, p, q)
    ensures IsMatrix(Mul(a, b), r, p) && IsMatrix(Mul(b, c), m, q)
    ensures Mul(Mul(a, b), c) == Mul(a, Mul(b, c))
  {
    assert Width(b) == p;
    var ab, bc := Mul(a, b), Mul(b, c);
    assert Width(c) == q && (q > 0 ==> Width(bc) == q) && Width(bc) <= q;
    forall i, j | 0 <= i < r && 0 <= j < q
      ensures Mul(ab, c)[i][j] == Mul(a, bc)[i][j]
    {
      assert ab[i] == VecMat(a[i], b, p);
      assert Column(bc, j) == MatVec(b, Column(c, j));
      VecMatVec(a[i], b, Column(c, j));
    }
    SameEntries(Mul(ab, c), Mul(a, bc), r, q);
  }

  /** The identity is neutral on the left. */
  lemma MulIdentityLeft(b: Matrix, n: nat, c: nat)
    requires n > 0 && IsMatrix(b, n, c)
    ensures Mul(Identity(n), b) == b
  {
    assert Width(b) == c;
    forall i, j | 0 <= i < n && 0 <= j < c
      ensures Mul(Identity(n), b)[i][j] == b[i][j]
    {
      DotSymmetric(Identity(n)[i], Column(b, j));
      DotOneHot(Column(b, j), Identity(n)[i], i);
    }
    SameEntries(Mul(Identity(n), b), b, n, c);
  }

  /** The identity is neutral on the right. */
  lemma MulIdentityRight(a: Matrix, r: nat, n: nat)
    requires n > 0 && IsMatrix(a, r, n)
    ensures Mul(a, Identity(n)) == a
  {
    forall i, j | 0 <= i < r && 0 <= j < n
      ensures Mul(a, Identity(n))[i][j] == a[i][j]
    {
      DotOneHot(a[i], Column(Identity(n), j), j);
    }
    SameEntries(Mul(a, Identity(n)), a, r, n);
  }

  /** Anything times the zero matrix is zero. */
  lemma MulZeroRight(a: Matrix, r: nat, m: nat, c: nat)
    requires m > 0 && IsMatrix(a, r, m)
    ensures Mul(a, Zero(m, c)) == Zero(r, c)
  {
    forall i, j | 0 <= i < r && 0 <= j < c
      ensures Mul(a, Zero(m, c))[i][j] == 0.0
    {
      DotOneHot(a[i], Column(Zero(m, c), j), -1);
    }
    SameEntries(Mul(a, Zero(m, c)), Zero(r, c), r, c);
  }

  /** Taking the first c columns commutes with multiplying on the left. */
  lemma MulLeftBlock(s: Matrix, w: Matrix, r: nat, n: nat, width: nat, c: nat)
    requires n > 0 && c <= width
    requires IsMatrix(s, r, n) && IsMatrix(w, n, width)
    ensures Left(Mul(s, w), c) == Mul(s, Left(w, c))
  {
    assert Width(w) == width;
    forall i, j | 0 <= i < r && 0 <= j < c
      ensures Left(Mul(s, w), c)[i][j] == Mul(s, Left(w, c))[i][j]
    {
      assert Column(Left(w, c), j) == Column(w, j);
    }
    SameEntries(Left(Mul(s, w), c), Mul(s, Left(w, c)), r, c);
  }

  /** Dropping the first c columns commutes with multiplying on the left. */
  lemma MulRightBlock(s: Matrix, w: Matrix, r: nat, n: nat, width: nat, c: nat)
    requires n > 0 && c < width
    requires IsMatrix(s, r, n) && IsMatrix(w, n, width)
    ensures Right(Mul(s, w), c) == Mul(s, Right(w, c))
  {
    assert Width(w) == width;
    var rw := Right(w, c);
    assert IsMatrix(rw, n, width - c) && Width(rw) == width - c;
    forall i, j | 0 <= i < r && 0 <= j < width - c
      ensures Right(Mul(s, w), c)[i][j] == Mul(s, rw)[i][j]
    {
      assert Column(rw, j) == Column(w, c + j);
    }
    SameEntries(Right(Mul(s, w), c), Mul(s, rw), r, width - c);
  }
}
