/**
 * Why Gauss-Jordan elimination on [A | I] computes the inverse of A, and
 * why a zero pivot means that A has none.
 *
 * The working matrix W starts as [A | I] and changes only by row
 * operations. Two facts survive every row operation (`Tracks`):
 *   - some n x n matrix S gives S W == [A | I] (S is the product of the
 *     inverses of the operations applied so far), and
 *   - the right block of W turns A into the left block of W.
 * When the left block has become the identity, the first fact gives S == A
 * and A R == I, the second R A == I, where R is the right block.
 * When column k has no nonzero entry in rows k..n-1 while columns 0..k-1
 * are already unit columns, the left block of W has a nonzero kernel
 * vector, and so has A: no matrix C can satisfy C A == I.
 */
module GaussJordan {
  import opened Matrices
  import opened RowOps

  /** The working matrix [A | I] built before the first column is processed. */
  function Augment(a: Matrix): (w: Matrix)
    requires IsMatrix(a, |a|, |a|)
    ensures IsMatrix(w, |a|, 2 * |a|)
    ensures Left(w, |a|) == a && Right(w, |a|) == Identity(|a|)
  {
    ConcatSplit(a, Identity(|a|), |a|, |a|, |a|);
    ConcatCols(a, Identity(|a|))
  }

  /** Some C gives C a == I. */
  ghost predicate HasLeftInverse(a: Matrix, n: nat)
    requires IsMatrix(a, n, n)
  {
    exists c :: IsMatrix(c, n, n) && Mul(c, a) == Identity(n)
  }

  /** What every row operation keeps true of the working matrix w of the
      input a: s turns w back into [A | I], and the right block of w turns a
      into the left block of w. */
  ghost predicate Tracks(w: Matrix, s: Matrix, a: Matrix, n: nat) {
    n > 0 && IsMatrix(a, n, n) && IsMatrix(w, n, 2 * n) && IsMatrix(s, n, n) &&
    Mul(s, w) == Augment(a) && Mul(Right(w, n), a) == Left(w, n)
  }

  /** Columns 0..k-1 of w are those of the identity. */
  ghost predicate UnitColumns(w: Matrix, n: nat, k: nat) {
    IsMatrix(w, n, 2 * n) && k <= n &&
    forall i, j :: 0 <= i < n && 0 <= j < k ==> w[i][j] == if i == j then 1.0 else 0.0
  }

  /** The new s once op has been applied to w: s times the matrix of the
      operation that undoes op. */
  ghost function Undo(op: RowOp, s: Matrix, n: nat): (s': Matrix)
    requires n > 0 && ValidOp(op, n) && IsMatrix(s, n, n)
    ensures IsMatrix(s', n, n)
  {
    Mul(s, Apply(Inverse(op), Identity(n)))
  }

  /** [A | I] with S == I satisfies the invariant. */
  lemma TracksStart(a: Matrix, n: nat)
    requires n > 0 && IsMatrix(a, n, n)
    ensures Augment(a) == ConcatCols(a, Identity(n))
    ensures Tracks(Augment(a), Identity(n), a, n)
  {
    var w := Augment(a);
    MulIdentityLeft(w, n, 2 * n);
    MulIdentityLeft(a, n, n);
  }

  /** Every row operation keeps the invariant, with s replaced by Undo(op, s, n). */
  lemma TracksStep(op: RowOp, w: Matrix, s: Matrix, a: Matrix, n: nat)
    requires Tracks(w, s, a, n) && ValidOp(op, n)
    ensures Tracks(Apply(op, w), Undo(op, s, n), a, n)
  {
    assert Width(w) == 2 * n;
    var w', inv := Apply(op, w), Inverse(op);
    var f := Apply(inv, Identity(n));
    ApplyIsMul(inv, w', n, 2 * n);
    ApplyInverse(op, w, n, 2 * n);
    MulAssoc(s, f, w', n, n, n, 2 * n);
    ApplyRight(op, w, n, 2 * n, n);
    ApplyLeft(op, w, n, 2 * n, n);
    ApplyMul(op, Right(w, n), a, n, n, n);
  }

  /** Exchanging row k with a row below it keeps columns 0..k-1 unit columns. */
  lemma SwapKeepsUnitColumns(w: Matrix, n: nat, k: nat, p: nat)
    requires UnitColumns(w, n, k) && k <= p < n
    ensures ValidOp(Swap(p, k), n) && UnitColumns(Apply(Swap(p, k), w), n, k)
    ensures Apply(Swap(p, k), w)[k] == w[p]
  {
    assert Width(w) == 2 * n;
    forall i | 0 <= i < n
      ensures Apply(Swap(p, k), w)[i] == if i == k then w[p] else if i == p then w[k] else w[i]
    {
      ApplyRow(Swap(p, k), w, i);
    }
  }

  /** Dividing row k by its pivot makes the pivot 1 and keeps columns 0..k-1
      unit columns. */
  lemma NormalizeKeepsUnitColumns(w: Matrix, n: nat, k: nat)
    requires UnitColumns(w, n, k) && k < n && w[k][k] != 0.0
    ensures ValidOp(Divide(k, w[k][k]), n)
    ensures UnitColumns(Apply(Divide(k, w[k][k]), w), n, k)
    ensures Apply(Divide(k, w[k][k]), w)[k][k] == 1.0
  {
    assert Width(w) == 2 * n;
    var op := Divide(k, w[k][k]);
    forall i | 0 <= i < n
      ensures i != k ==> Apply(op, w)[i] == w[i]
    {
      ApplyRow(op, w, i);
    }
  }

  /** Subtracting w[i][k] times row k from every other row, with pivot 1,
      clears column k outside row k and keeps columns 0..k-1 unit columns. */
  lemma EliminateMakesUnitColumn(w: Matrix, n: nat, k: nat)
    requires UnitColumns(w, n, k) && k < n && w[k][k] == 1.0
    ensures ValidOp(Eliminate(k, Column(w, k)), n)
    ensures UnitColumns(Apply(Eliminate(k, Column(w, k)), w), n, k + 1)
    ensures Apply(Eliminate(k, Column(w, k)), w)[k] == w[k]
  {
    assert Width(w) == 2 * n;
    var op := Eliminate(k, Column(w, k));
    var e := Apply(op, w);
    forall i, j | 0 <= i < n && 0 <= j < k + 1
      ensures e[i][j] == if i == j then 1.0 else 0.0
    {
      if i != k {
        assert e[i][j] == w[i][j] - w[k][j] * w[i][k];
      }
    }
  }

  /** One column of the elimination with pivot row p: rows p and k are
      exchanged when they differ, row k is divided by its new pivot, and
      column k is cleared in every other row. */
  ghost function ReduceStep(w: Matrix, n: nat, k: nat, p: nat): (r: Matrix)
    requires IsMatrix(w, n, 2 * n) && k <= p < n && w[p][k] != 0.0
    ensures IsMatrix(r, n, 2 * n)
  {
    assert Width(w) == 2 * n;
    var w1 := if p != k then Apply(Swap(p, k), w) else w;
    assert w1[k] == w[p];
    var w2 := Apply(Divide(k, w1[k][k]), w1);
    Apply(Eliminate(k, Column(w2, k)), w2)
  }

  /** The s that goes with ReduceStep(w, n, k, p): s times the matrices of
      the inverses of its row operations. */
  ghost function ReduceUndo(w: Matrix, s: Matrix, n: nat, k: nat, p: nat): (s': Matrix)
    requires n > 0 && IsMatrix(w, n, 2 * n) && IsMatrix(s, n, n) && k <= p < n && w[p][k] != 0.0
    ensures IsMatrix(s', n, n)
  {
    assert Width(w) == 2 * n;
    var w1 := if p != k then Apply(Swap(p, k), w) else w;
    var s1 := if p != k then Undo(Swap(p, k), s, n) else s;
    assert w1[k] == w[p];
    var w2 := Apply(Divide(k, w1[k][k]), w1);
    var s2 := Undo(Divide(k, w1[k][k]), s1, n);
    Undo(Eliminate(k, Column(w2, k)), s2, n)
  }

  /** One column step keeps the invariant and adds a unit column. */
  lemma ReduceStepTracks(w: Matrix, s: Matrix, a: Matrix, n: nat, k: nat, p: nat)
    requires Tracks(w, s, a, n) && UnitColumns(w, n, k) && k <= p < n && w[p][k] != 0.0
    ensures Tracks(ReduceStep(w, n, k, p), ReduceUndo(w, s, n, k, p), a, n)
    ensures UnitColumns(ReduceStep(w, n, k, p), n, k + 1)
  {
    var w1, s1 := w, s;
    if p != k {
      SwapKeepsUnitColumns(w, n, k, p);
      TracksStep(Swap(p, k), w, s, a, n);
      w1, s1 := Apply(Swap(p, k), w), Undo(Swap(p, k), s, n);
    }
    NormalizeKeepsUnitColumns(w1, n, k);
    var d := Divide(k, w1[k][k]);
    TracksStep(d, w1, s1, a, n);
    var w2, s2 := Apply(d, w1), Undo(d, s1, n);
    EliminateMakesUnitColumn(w2, n, k);
    TracksStep(Eliminate(k, Column(w2, k)), w2, s2, a, n);
  }

  /** With columns 0..n-1 unit columns, the right block R of w satisfies
      A R == I and R A == I. (With n == 0 all matrices are empty.) */
  lemma InverseFound(w: Matrix, s: Matrix, a: Matrix, n: nat)
    requires IsMatrix(a, n, n) && UnitColumns(w, n, n)
    requires n > 0 ==> Tracks(w, s, a, n)
    ensures IsMatrix(Right(w, n), n, n)
    ensures Mul(a, Right(w, n)) == Identity(n) && Mul(Right(w, n), a) == Identity(n)
    ensures HasLeftInverse(a, n)
  {
    var r := Right(w, n);
    if n > 0 {
      SameEntries(Left(w, n), Identity(n), n, n);
      MulLeftBlock(s, w, n, n, 2 * n, n);
      MulIdentityRight(s, n, n);
      assert s == a;
      MulRightBlock(s, w, n, n, 2 * n, n);
    } else {
      assert Mul(a, r) == [] && Mul(r, a) == [];
    }
    assert IsMatrix(r, n, n) && Mul(r, a) == Identity(n);
  }

  /** A matrix has at most one inverse: every left inverse c of a equals
      every right inverse r of a, since c == c (a r) == (c a) r == r. */
  lemma InverseUnique(a: Matrix, r: Matrix, c: Matrix, n: nat)
    requires IsMatrix(a, n, n) && IsMatrix(r, n, n) && IsMatrix(c, n, n)
    requires Mul(a, r) == Identity(n) && Mul(c, a) == Identity(n)
    ensures c == r
  {
    if n > 0 {
      MulAssoc(c, a, r, n, n, n, n);
      MulIdentityLeft(r, n, n);
      MulIdentityRight(c, n, n);
    }
  }

  /** The vector that the left block of w sends to zero when column k has
      no pivot: -w[j][k] in rows above k, 1 in row k, 0 below. */
  ghost function KernelColumn(w: Matrix, n: nat, k: nat): (v: seq<real>)
    requires IsMatrix(w, n, 2 * n) && k < n
    ensures |v| == n && v[k] == 1.0
  {
    seq(n, j requires 0 <= j < n => if j < k then -w[j][k] else if j == k then 1.0 else 0.0)
  }

  /** Row i of the left block of w times KernelColumn(w, n, k) is zero. */
  lemma KernelRow(w: Matrix, n: nat, k: nat, i: nat)
    requires UnitColumns(w, n, k) && k < n && i < n
    requires forall r :: k <= r < n ==> w[r][k] == 0.0
    ensures Dot(Left(w, n)[i], KernelColumn(w, n, k)) == 0.0
  {
    var v, row := KernelColumn(w, n, k), Left(w, n)[i];
    assert forall t :: 0 <= t < n ==> row[t] == w[i][t];
    DotSymmetric(row, v);
    if i < k {
      KernelRowAbove(v, row, n, k, i);
    } else {
      var zero := Zero(1, n)[0];
      DotAgree(v, row, zero);
      DotOneHot(v, zero, -1);
    }
  }

  /** The case of a row i above k: row i is 1 at i, 0 elsewhere before k, and
      the kernel vector is -row[k] at i and 1 at k, so the two terms cancel. */
  lemma KernelRowAbove(v: seq<real>, row: seq<real>, n: nat, k: nat, i: nat)
    requires |v| == |row| == n && i < k < n
    requires forall t :: 0 <= t < k ==> row[t] == if t == i then 1.0 else 0.0
    requires forall t :: k < t < n ==> v[t] == 0.0
    requires v[k] == 1.0 && v[i] == -row[k]
    ensures Dot(v, row) == 0.0
  {
    var c := row[k];
    var g := -c;
    var ei, ek := UnitRow(n, i), UnitRow(n, k);
    var r := SubtractedRow(ei, ek, g);
    DotSubtract(r, ei, ek, v, g);
    forall t | 0 <= t < n
      ensures v[t] == 0.0 || row[t] == r[t]
    {
      if t < k {
        assert ek[t] == 0.0 && r[t] == ei[t];
      } else if t == k {
        assert ei[t] == 0.0 && r[t] == c;
      }
    }
    DotAgree(v, row, r);
    DotSymmetric(r, v);
    DotSymmetric(ei, v);
    DotOneHot(v, ei, i);
    DotSymmetric(ek, v);
    DotOneHot(v, ek, k);
  }

  /** A zero column k below the diagonal, with columns 0..k-1 unit columns,
      means that the input has no left inverse. */
  lemma NoLeftInverse(w: Matrix, s: Matrix, a: Matrix, n: nat, k: nat)
    requires Tracks(w, s, a, n) && UnitColumns(w, n, k) && k < n
    requires forall r :: k <= r < n ==> w[r][k] == 0.0
    ensures !HasLeftInverse(a, n)
  {
    var v := KernelColumn(w, n, k);
    var vm := seq(n, j requires 0 <= j < n => [v[j]]);
    var l := Left(w, n);
    assert IsMatrix(vm, n, 1) && Width(vm) == 1;
    assert Column(vm, 0) == v;
    forall i, j | 0 <= i < n && 0 <= j < 1
      ensures Mul(l, vm)[i][j] == 0.0
    {
      KernelRow(w, n, k, i);
    }
    SameEntries(Mul(l, vm), Zero(n, 1), n, 1);
    MulLeftBlock(s, w, n, n, 2 * n, n);
    assert Mul(s, l) == a;
    MulAssoc(s, l, vm, n, n, n, 1);
    MulZeroRight(s, n, n, 1);
    assert Mul(a, vm) == Zero(n, 1);
    if HasLeftInverse(a, n) {
      var c :| IsMatrix(c, n, n) && Mul(c, a) == Identity(n);
      MulAssoc(c, a, vm, n, n, n, 1);
      MulIdentityLeft(vm, n, 1);
      MulZeroRight(c, n, n, 1);
      assert false;
    }
  }
}
