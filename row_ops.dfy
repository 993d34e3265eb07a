/**
 * The three row operations of Gauss-Jordan elimination, on whole rows of a
 * matrix of any width: exchanging two rows (`swapRows`), dividing one row
 * by a value (the normalisation loop), and subtracting a multiple of the
 * pivot row from every other row (the elimination loop).
 *
 * Each is undone by another row operation, and each commutes with
 * multiplication on the right. Together these say that applying a row
 * operation is multiplying on the left by an invertible matrix.
 */
module RowOps {
  import opened Matrices

  datatype RowOp =
    | Swap(p: nat, k: nat)                   // exchange rows p and k
    | Divide(k: nat, v: real)                // divide every entry of row k by v
    | Eliminate(k: nat, factors: seq<real>)  // row i -= row k * factors[i], for every row i != k

  /** The operation fits a matrix of n rows, and a division is never by zero. */
  ghost predicate ValidOp(op: RowOp, n: nat) {
    match op
    case Swap(p, k) => p < n && k < n
    case Divide(k, v) => k < n && v != 0.0
    case Eliminate(k, f) => k < n && |f| == n
  }

  /** The matrix after the operation. */
  function Apply(op: RowOp, w: Matrix): (r: Matrix)
    requires ValidOp(op, |w|) && IsMatrix(w, |w|, Width(w))
    ensures IsMatrix(r, |w|, Width(w)) && Width(r) == Width(w)
  {
    match op
    case Swap(p, k) => w[p := w[k]][k := w[p]]
    case Divide(k, v) => w[k := DividedRow(w[k], v)]
    case Eliminate(k, f) =>
      seq(|w|, i requires 0 <= i < |w| => if i == k then w[k] else SubtractedRow(w[i], w[k], f[i]))
  }

  /** Every entry of u divided by v. */
  function DividedRow(u: seq<real>, v: real): (r: seq<real>)
    requires v != 0.0
    ensures |r| == |u| && forall j :: 0 <= j < |u| ==> r[j] == u[j] / v
  {
    seq(|u|, j requires 0 <= j < |u| => u[j] / v)
  }

  /** u minus g times w, entry by entry. */
  function SubtractedRow(u: seq<real>, w: seq<real>, g: real): (r: seq<real>)
    requires |u| == |w|
    ensures |r| == |u| && forall j :: 0 <= j < |u| ==> r[j] == u[j] - w[j] * g
  {
    seq(|u|, j requires 0 <= j < |u| => u[j] - w[j] * g)
  }

  /** The operation that undoes op. */
  function Inverse(op: RowOp): (inv: RowOp)
    requires op.Divide? ==> op.v != 0.0
    ensures forall n :: ValidOp(op, n) ==> ValidOp(inv, n)
  {
    match op
    case Swap(p, k) => Swap(p, k)
    case Divide(k, v) => Divide(k, 1.0 / v)
    case Eliminate(k, f) => Eliminate(k, seq(|f|, i requires 0 <= i < |f| => -f[i]))
  }

  /** Row i of op(w), in terms of the rows of w. */
  lemma ApplyRow(op: RowOp, w: Matrix, i: nat)
    requires ValidOp(op, |w|) && IsMatrix(w, |w|, Width(w)) && i < |w|
    ensures Apply(op, w)[i] == match op
      case Swap(p, k) => if i == k then w[p] else if i == p then w[k] else w[i]
      case Divide(k, v) => if i == k then DividedRow(w[k], v) else w[i]
      case Eliminate(k, f) => if i == k then w[k] else SubtractedRow(w[i], w[k], f[i])
  {
  }

  /** Applying op and then Inverse(op) gives back the matrix. */
  lemma ApplyInverse(op: RowOp, w: Matrix, n: nat, c: nat)
    requires ValidOp(op, n) && IsMatrix(w, n, c)
    ensures Apply(Inverse(op), Apply(op, w)) == w
  {
    assert n > 0 ==> Width(w) == c;
    var aw := Apply(op, w);
    var back := Apply(Inverse(op), aw);
    forall i | 0 <= i < n
      ensures back[i] == w[i]
    {
      ApplyRow(op, w, i);
      ApplyRow(Inverse(op), aw, i);
      match op
      case Swap(p, k) =>
        ApplyRow(op, w, p);
        ApplyRow(op, w, k);
      case Divide(k, v) =>
        if i == k {
          DivideBack(w[k], v);
        }
      case Eliminate(k, f) =>
        if i != k {
          ApplyRow(op, w, k);
          SubtractBack(w[i], w[k], f[i]);
        }
    }
  }

  /** Dividing a row by v and then by 1 / v gives it back. */
  lemma DivideBack(u: seq<real>, v: real)
    requires v != 0.0
    ensures DividedRow(DividedRow(u, v), 1.0 / v) == u
  {
    forall j | 0 <= j < |u|
      ensures DividedRow(DividedRow(u, v), 1.0 / v)[j] == u[j]
    {
      DivideBackEntry(u[j], v);
    }
  }

  /** x / v / (1 / v) == x */
  lemma DivideBackEntry(x: real, v: real)
    requires v != 0.0
    ensures x / v / (1.0 / v) == x
  {
  }

  /** Subtracting g times w and then -g times w gives the row back. */
  lemma SubtractBack(u: seq<real>, w: seq<real>, g: real)
    requires |u| == |w|
    ensures SubtractedRow(SubtractedRow(u, w, g), w, -g) == u
  {
    var back := SubtractedRow(SubtractedRow(u, w, g), w, -g);
    forall j | 0 <= j < |u|
      ensures back[j] == u[j]
    {
      assert back[j] == (u[j] - w[j] * g) - w[j] * (-g);
    }
  }

  /** A row operation commutes with multiplication on the right:
      op(x y) == op(x) y. */
  lemma ApplyMul(op: RowOp, x: Matrix, y: Matrix, r: nat, m: nat, c: nat)
    requires m > 0 && ValidOp(op, r) && IsMatrix(x, r, m) && IsMatrix(y, m, c)
    ensures IsMatrix(Mul(x, y), r, c) && IsMatrix(Apply(op, x), r, m)
    ensures Apply(op, Mul(x, y)) == Mul(Apply(op, x), y)
  {
    assert Width(y) == c && Width(x) == m;
    var xy, ex := Mul(x, y), Apply(op, x);
    assert r > 0 ==> Width(xy) == c;
    forall i | 0 <= i < r
      ensures Apply(op, xy)[i] == Mul(ex, y)[i]
    {
      ApplyRow(op, x, i);
      ApplyRow(op, xy, i);
      MulRow(ex, y, i);
      match op
      case Swap(p, k) =>
        MulRow(x, y, i);
        MulRow(x, y, p);
        MulRow(x, y, k);
      case Divide(k, v) =>
        MulRow(x, y, i);
        if i == k {
          DividedTimes(x[k], v, y, c);
        }
      case Eliminate(k, f) =>
        MulRow(x, y, i);
        if i != k {
          MulRow(x, y, k);
          SubtractedTimes(x[i], x[k], f[i], y, c);
        }
    }
  }

  /** (u / v) y == (u y) / v, for a row u and a matrix y. */
  lemma DividedTimes(u: seq<real>, v: real, y: Matrix, c: nat)
    requires v != 0.0 && IsMatrix(y, |u|, c)
    ensures VecMat(DividedRow(u, v), y, c) == DividedRow(VecMat(u, y, c), v)
  {
    var z := DividedRow(u, v);
    forall t | 0 <= t < c
      ensures VecMat(z, y, c)[t] == DividedRow(VecMat(u, y, c), v)[t]
    {
      DotDivide(z, u, Column(y, t), v);
    }
  }

  /** (u - g w) y == u y - g (w y), for rows u, w and a matrix y. */
  lemma SubtractedTimes(u: seq<real>, w: seq<real>, g: real, y: Matrix, c: nat)
    requires |u| == |w| && IsMatrix(y, |u|, c)
    ensures VecMat(SubtractedRow(u, w, g), y, c) == SubtractedRow(VecMat(u, y, c), VecMat(w, y, c), g)
  {
    var z := SubtractedRow(u, w, g);
    forall t | 0 <= t < c
      ensures VecMat(z, y, c)[t] == SubtractedRow(VecMat(u, y, c), VecMat(w, y, c), g)[t]
    {
      DotSubtract(z, u, w, Column(y, t), g);
    }
  }

  /** A row divided by v, times a column, is the product divided by v. */
  lemma {:induction false} DotDivide(z: seq<real>, u: seq<real>, y: seq<real>, v: real)
    requires v != 0.0 && |z| == |u| == |y|
    requires forall t :: 0 <= t < |z| ==> z[t] == u[t] / v
    ensures Dot(z, y) == Dot(u, y) / v
  {
    if |z| > 0 {
      DotDivide(z[1..], u[1..], y[1..], v);
      DivideDistributes(u[0], y[0], Dot(u[1..], y[1..]), v);
    }
  }

  /** (a / v) * b + c / v == (a * b + c) / v */
  lemma DivideDistributes(a: real, b: real, c: real, v: real)
    requires v != 0.0
    ensures (a / v) * b + c / v == (a * b + c) / v
  {
  }

  /** A row minus a multiple of another, times a column, is the product
      minus that multiple of the other product. */
  lemma {:induction false} DotSubtract(z: seq<real>, u: seq<real>, w: seq<real>, y: seq<real>, f: real)
    requires |z| == |u| == |w| == |y|
    requires forall t :: 0 <= t < |z| ==> z[t] == u[t] - w[t] * f
    ensures Dot(z, y) == Dot(u, y) - Dot(w, y) * f
  {
    if |z| > 0 {
      DotSubtract(z[1..], u[1..], w[1..], y[1..], f);
      SubtractStep(z[0], u[0], w[0], y[0], f, Dot(z[1..], y[1..]), Dot(u[1..], y[1..]), Dot(w[1..], y[1..]));
    }
  }

  /** The arithmetic of one step of DotSubtract. */
  lemma SubtractStep(z0: real, u0: real, w0: real, y0: real, f: real, dz: real, du: real, dw: real)
    requires z0 == u0 - w0 * f && dz == du - dw * f
    ensures z0 * y0 + dz == (u0 * y0 + du) - (w0 * y0 + dw) * f
  {
    calc {
      z0 * y0 + dz;
      (u0 - w0 * f) * y0 + du - dw * f;
      u0 * y0 - (w0 * y0) * f + du - dw * f;
      (u0 * y0 + du) - (w0 * y0 + dw) * f;
    }
  }

  /** A row operation acts on the first c columns and on the rest independently. */
  lemma ApplyLeft(op: RowOp, w: Matrix, n: nat, width: nat, c: nat)
    requires ValidOp(op, n) && IsMatrix(w, n, width) && c <= width
    ensures IsMatrix(Apply(op, w), n, width)
    ensures Left(Apply(op, w), c) == Apply(op, Left(w, c))
  {
    assert n > 0 ==> Width(w) == width;
    var l := Left(w, c);
    assert n > 0 ==> Width(l) == c;
    forall i | 0 <= i < n
      ensures Left(Apply(op, w), c)[i] == Apply(op, l)[i]
    {
      ApplyRow(op, w, i);
      ApplyRow(op, l, i);
      LeftRow(w, c, i);
      LeftRow(Apply(op, w), c, i);
      match op
      case Swap(p, k) =>
        LeftRow(w, c, p);
        LeftRow(w, c, k);
      case Divide(k, v) =>
        if i == k {
          DividedSlice(w[k], v, 0, c);
        }
      case Eliminate(k, f) =>
        if i != k {
          LeftRow(w, c, k);
          SubtractedSlice(w[i], w[k], f[i], 0, c);
        }
    }
  }

  /** ... and on the columns from c on. */
  lemma ApplyRight(op: RowOp, w: Matrix, n: nat, width: nat, c: nat)
    requires ValidOp(op, n) && IsMatrix(w, n, width) && c <= width
    ensures IsMatrix(Apply(op, w), n, width)
    ensures Right(Apply(op, w), c) == Apply(op, Right(w, c))
  {
    assert n > 0 ==> Width(w) == width;
    var rt := Right(w, c);
    assert IsMatrix(rt, n, width - c) && (n > 0 ==> Width(rt) == width - c);
    forall i | 0 <= i < n
      ensures Right(Apply(op, w), c)[i] == Apply(op, rt)[i]
    {
      ApplyRow(op, w, i);
      ApplyRow(op, rt, i);
      RightRow(w, c, i);
      RightRow(Apply(op, w), c, i);
      match op
      case Swap(p, k) =>
        RightRow(w, c, p);
        RightRow(w, c, k);
      case Divide(k, v) =>
        if i == k {
          DividedSlice(w[k], v, c, width);
        }
      case Eliminate(k, f) =>
        if i != k {
          RightRow(w, c, k);
          SubtractedSlice(w[i], w[k], f[i], c, width);
        }
    }
  }

  /** Dividing a row and then taking a slice is taking the slice and then dividing. */
  lemma DividedSlice(u: seq<real>, v: real, lo: nat, hi: nat)
    requires v != 0.0 && lo <= hi <= |u|
    ensures DividedRow(u, v)[lo..hi] == DividedRow(u[lo..hi], v)
  {
    assert forall j :: 0 <= j < hi - lo ==> DividedRow(u, v)[lo..hi][j] == DividedRow(u[lo..hi], v)[j];
  }

  /** The same for subtracting a multiple of another row. */
  lemma SubtractedSlice(u: seq<real>, w: seq<real>, g: real, lo: nat, hi: nat)
    requires |u| == |w| && lo <= hi <= |u|
    ensures SubtractedRow(u, w, g)[lo..hi] == SubtractedRow(u[lo..hi], w[lo..hi], g)
  {
    assert forall j :: 0 <= j < hi - lo ==>
      SubtractedRow(u, w, g)[lo..hi][j] == SubtractedRow(u[lo..hi], w[lo..hi], g)[j];
  }

  /** The elementary matrix of op: op applied to the identity. Applying op
      to any matrix w is multiplying w on the left by it. */
  lemma ApplyIsMul(op: RowOp, w: Matrix, n: nat, c: nat)
    requires n > 0 && ValidOp(op, n) && IsMatrix(w, n, c)
    ensures IsMatrix(Apply(op, Identity(n)), n, n)
    ensures Apply(op, w) == Mul(Apply(op, Identity(n)), w)
  {
    assert Width(Identity(n)) == n;
    ApplyMul(op, Identity(n), w, n, n, c);
    MulIdentityLeft(w, n, c);
  }
}
