/**
 * The operations of the `Matrix` class that the inversion code calls, on a
 * row-major buffer of reals: element access, `rows()` and `cols()`
 * (`Length0` and `Length1`), `MatrixIdentity`, `MatrixConcatCols`,
 * `swapRows`, `getRowCopy`, `getColumnCopy` and the row update
 * `getRowSlice(i) -= getRowCopy(k) * c`. Each is tied to the value model of
 * module Matrices by `Contents`.
 */
module MatrixBuffer {
  import opened Matrices
  import opened RowOps

  /** The entries of m, row by row. */
  ghost function Contents(m: array2<real>): (c: Matrix)
    reads m
    ensures IsMatrix(c, m.Length0, m.Length1)
    ensures forall i, j :: 0 <= i < m.Length0 && 0 <= j < m.Length1 ==> c[i][j] == m[i, j]
  {
    seq(m.Length0, i requires 0 <= i < m.Length0 reads m =>
      seq(m.Length1, j requires 0 <= j < m.Length1 reads m => m[i, j]))
  }

  /** A copy of row i (`getRowCopy`). */
  function RowCopy(m: array2<real>, i: nat): (r: seq<real>)
    reads m
    requires i < m.Length0
    ensures r == Contents(m)[i]
  {
    seq(m.Length1, j requires 0 <= j < m.Length1 reads m => m[i, j])
  }

  /** A copy of column j (`getColumnCopy`). */
  function ColumnCopy(m: array2<real>, j: nat): (c: seq<real>)
    reads m
    requires j < m.Length1
    ensures c == Column(Contents(m), j)
  {
    seq(m.Length0, i requires 0 <= i < m.Length0 reads m => m[i, j])
  }

  /** A new n x n identity matrix (`MatrixIdentity`). */
  method NewIdentity(n: nat) returns (m: array2<real>)
    ensures fresh(m) && m.Length0 == n && m.Length1 == n
    ensures Contents(m) == Identity(n)
  {
    m := new real[n, n]((i, j) => if i == j then 1.0 else 0.0);
    SameEntries(Contents(m), Identity(n), n, n);
  }

  /** A new matrix with the entries of m (the copy constructor). */
  method NewCopy(m: array2<real>) returns (c: array2<real>)
    ensures fresh(c) && c.Length0 == m.Length0 && c.Length1 == m.Length1
    ensures Contents(c) == Contents(m)
  {
    c := new real[m.Length0, m.Length1]((i, j) requires 0 <= i < m.Length0 && 0 <= j < m.Length1 reads m =>
      m[i, j]);
    SameEntries(Contents(c), Contents(m), m.Length0, m.Length1);
  }

  /** A new matrix holding a and b side by side (`MatrixConcatCols`). */
  method NewConcatCols(a: array2<real>, b: array2<real>) returns (m: array2<real>)
    requires a.Length0 == b.Length0
    ensures fresh(m) && m.Length0 == a.Length0 && m.Length1 == a.Length1 + b.Length1
    ensures Contents(m) == ConcatCols(Contents(a), Contents(b))
  {
    var rows, ca, cb := a.Length0, a.Length1, b.Length1;
    m := new real[rows, ca + cb];
    for i := 0 to rows
      invariant forall r, c :: 0 <= r < i && 0 <= c < ca + cb ==>
        m[r, c] == if c < ca then a[r, c] else b[r, c - ca]
    {
      for j := 0 to ca + cb
        invariant forall r, c :: 0 <= r < i && 0 <= c < ca + cb ==>
          m[r, c] == if c < ca then a[r, c] else b[r, c - ca]
        invariant forall c :: 0 <= c < j ==> m[i, c] == if c < ca then a[i, c] else b[i, c - ca]
      {
        m[i, j] := if j < ca then a[i, j] else b[i, j - ca];
      }
    }
    var cat := ConcatCols(Contents(a), Contents(b));
    assert forall r :: 0 <= r < rows ==> cat[r] == Contents(a)[r] + Contents(b)[r];
    SameEntries(Contents(m), cat, rows, ca + cb);
  }

  /** Exchanges rows p and k (`swapRows`). */
  method SwapRows(m: array2<real>, p: nat, k: nat)
    requires p < m.Length0 && k < m.Length0
    modifies m
    ensures Contents(m) == Apply(Swap(p, k), old(Contents(m)))
  {
    ghost var before := Contents(m);
    for j := 0 to m.Length1
      invariant forall r, c :: 0 <= r < m.Length0 && 0 <= c < m.Length1 ==>
        m[r, c] == if c < j && r == k then before[p][c]
                   else if c < j && r == p then before[k][c]
                   else before[r][c]
    {
      m[p, j], m[k, j] := m[k, j], m[p, j];
    }
    assert m.Length0 > 0 ==> Width(before) == m.Length1;
    SameEntries(Contents(m), Apply(Swap(p, k), before), m.Length0, m.Length1);
  }

  /** Subtracts c times row k from row i (`getRowSlice(i) -= getRowCopy(k) * c`);
      row k is copied first, so i == k is allowed. */
  method SubtractScaledRow(m: array2<real>, i: nat, k: nat, c: real)
    requires i < m.Length0 && k < m.Length0
    modifies m
    ensures Contents(m) == old(Contents(m))[i := SubtractedRow(old(Contents(m))[i], old(Contents(m))[k], c)]
  {
    ghost var before := Contents(m);
    var rowK := RowCopy(m, k);
    for j := 0 to m.Length1
      invariant forall r, t :: 0 <= r < m.Length0 && 0 <= t < m.Length1 ==>
        m[r, t] == if r == i && t < j then before[i][t] - before[k][t] * c else before[r][t]
    {
      m[i, j] := m[i, j] - rowK[j] * c;
    }
    ghost var after := before[i := SubtractedRow(before[i], before[k], c)];
    assert IsMatrix(after, m.Length0, m.Length1);
    SameEntries(Contents(m), after, m.Length0, m.Length1);
  }
}
