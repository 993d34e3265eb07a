/**
 * `invertSequential` and `multiplyMatrix` of Tp3/src/main.cpp on real
 * matrices: Gauss-Jordan inversion with partial pivoting, done in place on
 * the augmented buffer [A | I], and the row-by-column product used to check
 * its result.
 *
 * Every step of the inversion loop is proved to be one row operation of
 * module RowOps on the buffer; module GaussJordan shows what these steps
 * preserve, and from it InvertSequential gets its contract: it succeeds
 * exactly when the input has a (left) inverse, and then the matrix written
 * back is the two-sided inverse; otherwise it reports "Matrix not
 * invertible" and leaves the input untouched.
 */
module Inversion {
  import opened Matrices
  import opened RowOps
  import opened GaussJordan
  import opened MatrixBuffer

  /** How an inversion ends: the inverse has been written back, or the
      `runtime_error` thrown on a zero pivot, with its message. */
  datatype Status = Inverted | NotInvertible(message: string)

  const SingularMessage: string := "Matrix not invertible"

  /** The pivot row for column k: the row p in k..rows-1 whose entry in
      column k has the largest magnitude; on a tie the first such row wins,
      because a later row replaces p only when it is strictly larger. */
  method FindPivot(w: array2<real>, k: nat) returns (p: nat)
    requires k < w.Length0 && k < w.Length1
    ensures k <= p < w.Length0
    ensures forall i :: k <= i < w.Length0 ==> Abs(w[i, k]) <= Abs(w[p, k])
    ensures forall i :: k <= i < p ==> Abs(w[i, k]) < Abs(w[p, k])
    ensures w[p, k] == 0.0 <==> forall i :: k <= i < w.Length0 ==> w[i, k] == 0.0
  {
    p := k;
    var lMax := Abs(w[k, k]);
    for i := k to w.Length0
      invariant k <= p < w.Length0 && lMax == Abs(w[p, k])
      invariant forall r :: k <= r < i ==> Abs(w[r, k]) <= lMax
      invariant forall r :: k <= r < p ==> Abs(w[r, k]) < lMax
    {
      if Abs(w[i, k]) > lMax {
        lMax := Abs(w[i, k]);
        p := i;
      }
    }
  }

  /** Divides every entry of row k by the pivot, read once before the loop,
      so that the pivot becomes 1. */
  method NormalizeRow(w: array2<real>, k: nat)
    requires k < w.Length0 && k < w.Length1 && w[k, k] != 0.0
    modifies w
    ensures Contents(w) == Apply(Divide(k, old(w[k, k])), old(Contents(w)))
  {
    ghost var before := Contents(w);
    var lValue := w[k, k];
    for j := 0 to w.Length1
      invariant forall r, c :: 0 <= r < w.Length0 && 0 <= c < w.Length1 ==>
        w[r, c] == if r == k && c < j then before[k][c] / lValue else before[r][c]
    {
      w[k, j] := w[k, j] / lValue;
    }
    assert Width(before) == w.Length1;
    SameEntries(Contents(w), Apply(Divide(k, lValue), before), w.Length0, w.Length1);
  }

  /** Subtracts from every row i other than k the row k times the entry of
      row i in column k, read just before that row is updated. */
  method EliminateColumn(w: array2<real>, k: nat)
    requires k < w.Length0 && k < w.Length1
    modifies w
    ensures Contents(w) == Apply(Eliminate(k, Column(old(Contents(w)), k)), old(Contents(w)))
  {
    ghost var before := Contents(w);
    ghost var f := Column(before, k);
    for i := 0 to w.Length0
      invariant forall r :: 0 <= r < w.Length0 ==>
        Contents(w)[r] == if r < i && r != k then SubtractedRow(before[r], before[k], f[r]) else before[r]
    {
      if i != k {
        var lValue := w[i, k];
        SubtractScaledRow(w, i, k, lValue);
      }
    }
    assert Width(before) == w.Length1;
    forall r | 0 <= r < w.Length0
      ensures Contents(w)[r] == Apply(Eliminate(k, f), before)[r]
    {
      ApplyRow(Eliminate(k, f), before, r);
    }
  }

  /** Writes the right half of the n x 2n buffer w into the n x n matrix a. */
  method CopyRightHalf(w: array2<real>, a: array2<real>)
    requires a.Length0 == w.Length0 && w.Length1 == 2 * a.Length1
    requires a != w
    modifies a
    ensures Contents(a) == Right(Contents(w), a.Length1)
  {
    var n := a.Length1;
    for i := 0 to a.Length0
      invariant forall r, c :: 0 <= r < i && 0 <= c < n ==> a[r, c] == w[r, n + c]
    {
      for j := 0 to n
        invariant forall r, c :: 0 <= r < i && 0 <= c < n ==> a[r, c] == w[r, n + c]
        invariant forall c :: 0 <= c < j ==> a[i, c] == w[i, n + c]
      {
        a[i, j] := w[i, n + j];
      }
    }
    SameEntries(Contents(a), Right(Contents(w), n), a.Length0, n);
  }

  /** One column of the elimination once its pivot p is known to be
      nonzero: rows p and k are exchanged when they differ, row k is
      divided by the pivot, and column k is cleared in every other row. */
  method ReduceColumn(w: array2<real>, k: nat, p: nat)
    requires w.Length1 == 2 * w.Length0 && k <= p < w.Length0 && w[p, k] != 0.0
    modifies w
    ensures Contents(w) == ReduceStep(old(Contents(w)), w.Length0, k, p)
  {
    ghost var w0 := Contents(w);
    assert Width(w0) == 2 * w.Length0;
    if p != k {
      SwapRows(w, p, k);
    }
    ghost var w1 := Contents(w);
    assert w1[k] == w0[p] && w[k, k] == w1[k][k];
    NormalizeRow(w, k);
    EliminateColumn(w, k);
  }

  /** The loop over the columns of the n x 2n buffer w, which starts as
      [A | I]. It stops at the first column without a nonzero pivot and then
      reports false; otherwise every column has been reduced and the left
      block of w is the identity. */
  method ReduceColumns(w: array2<real>, ghost a: Matrix) returns (pivoted: bool, ghost s: Matrix)
    requires w.Length1 == 2 * w.Length0 && IsMatrix(a, w.Length0, w.Length0)
    requires Contents(w) == Augment(a)
    modifies w
    ensures pivoted ==> UnitColumns(Contents(w), w.Length0, w.Length0)
    ensures pivoted && w.Length0 > 0 ==> Tracks(Contents(w), s, a, w.Length0)
    ensures !pivoted ==> !HasLeftInverse(a, w.Length0)
  {
    var n := w.Length0;
    s := Identity(n);
    if n > 0 {
      TracksStart(a, n);
    }
    for k := 0 to n
      invariant n > 0 ==> Tracks(Contents(w), s, a, n)
      invariant UnitColumns(Contents(w), n, k)
    {
      var p := FindPivot(w, k);
      if w[p, k] == 0.0 {
        NoLeftInverse(Contents(w), s, a, n, k);
        return false, s;
      }
      ghost var before := Contents(w);
      ReduceStepTracks(before, s, a, n, k, p);
      s := ReduceUndo(before, s, n, k, p);
      ReduceColumn(w, k, p);
    }
    return true, s;
  }

  /** Gauss-Jordan inversion with partial pivoting of the square matrix iA,
      in place. */
  method InvertSequential(iA: array2<real>) returns (status: Status)
    requires iA.Length0 == iA.Length1
    modifies iA
    ensures status == Inverted || status == NotInvertible(SingularMessage)
    ensures status == Inverted <==> HasLeftInverse(old(Contents(iA)), iA.Length0)
    ensures status == Inverted ==>
      Mul(old(Contents(iA)), Contents(iA)) == Identity(iA.Length0) &&
      Mul(Contents(iA), old(Contents(iA))) == Identity(iA.Length0)
    ensures status == Inverted ==>
      forall c :: IsMatrix(c, iA.Length0, iA.Length0) && Mul(c, old(Contents(iA))) == Identity(iA.Length0)
        ==> c == Contents(iA)
    ensures status != Inverted ==> unchanged(iA)
  {
    var n := iA.Length0;
    ghost var a := Contents(iA);
    var id := NewIdentity(n);
    var lAI := NewConcatCols(iA, id);
    var pivoted, s := ReduceColumns(lAI, a);
    if !pivoted {
      return NotInvertible(SingularMessage);
    }
    InverseFound(Contents(lAI), s, a, n);
    CopyRightHalf(lAI, iA);
    forall c | IsMatrix(c, n, n) && Mul(c, a) == Identity(n)
      ensures c == Contents(iA)
    {
      InverseUnique(a, Contents(iA), c, n);
    }
    return Inverted;
  }

  /** The product of m1 (rows x m) and m2 (m x cols): entry (i, j) is row i
      of m1 times column j of m2. */
  method MultiplyMatrix(m1: array2<real>, m2: array2<real>) returns (res: array2<real>)
    requires m1.Length1 == m2.Length0
    ensures fresh(res) && res.Length0 == m1.Length0 && res.Length1 == m2.Length1
    ensures forall i, j :: 0 <= i < res.Length0 && 0 <= j < res.Length1 ==>
      res[i, j] == Dot(Contents(m1)[i], Column(Contents(m2), j))
    ensures m2.Length0 > 0 ==> Contents(res) == Mul(Contents(m1), Contents(m2))
  {
    ghost var a, b := Contents(m1), Contents(m2);
    res := new real[m1.Length0, m2.Length1];
    for i := 0 to res.Length0
      invariant forall r, c :: 0 <= r < i && 0 <= c < res.Length1 ==> res[r, c] == Dot(a[r], Column(b, c))
    {
      for j := 0 to res.Length1
        invariant forall r, c :: 0 <= r < i && 0 <= c < res.Length1 ==> res[r, c] == Dot(a[r], Column(b, c))
        invariant forall c :: 0 <= c < j ==> res[i, c] == Dot(a[i], Column(b, c))
      {
        res[i, j] := Dot(RowCopy(m1, i), ColumnCopy(m2, j));
      }
    }
    if m2.Length0 > 0 {
      assert Width(b) == m2.Length1;
      SameEntries(Contents(res), Mul(a, b), res.Length0, res.Length1);
    }
  }

  /** The check that `main` sketches: invert a copy B of A, then multiply
      A by B. A zero pivot ends the check before the product, as the thrown
      `runtime_error` would; lRes is then an empty matrix. Over exact
      arithmetic the product is the identity whenever the inversion
      succeeds, and A itself is never modified. */
  method CheckInverse(lA: array2<real>) returns (status: Status, lRes: array2<real>)
    requires lA.Length0 == lA.Length1
    ensures fresh(lRes)
    ensures status == Inverted || status == NotInvertible(SingularMessage)
    ensures status == Inverted <==> HasLeftInverse(Contents(lA), lA.Length0)
    ensures status == Inverted ==>
      lRes.Length0 == lA.Length0 && lRes.Length1 == lA.Length0 && Contents(lRes) == Identity(lA.Length0)
    ensures status != Inverted ==> lRes.Length0 == 0 && lRes.Length1 == 0
  {
    ghost var a := Contents(lA);
    var lB := NewCopy(lA);
    status := InvertSequential(lB);
    assert Contents(lA) == a;
    if status == Inverted {
      lRes := MultiplyMatrix(lA, lB);
      if lA.Length0 == 0 {
        assert Contents(lRes) == [];
      }
    } else {
      lRes := new real[0, 0];
      assert Contents(lA) == a;
    }
  }
}
