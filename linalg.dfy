/**
 * The mathematical meaning of the host library's vectors and matrices.
 *
 * A `_vec` is read as a sequence of its `n` elements, a `_mat` as the
 * sequence of its rows (row-major, as la.h:5 says). The functions here are
 * the specifications the methods of module La are proved against; the
 * lemmas state the algebra that la.h and its callers rely on.
 */
module LinAlg {
  import opened Elements

  /** Every divisor in `t` is usable with `op`. */
  predicate DefinedAll(op: Op, t: seq<int>) {
    forall i :: 0 <= i < |t| ==> Defined(op, t[i])
  }

  /** `s[i] op t[i]` at every index: the effect of `v op= x` for vectors. */
  function Zip(op: Op, s: seq<int>, t: seq<int>): seq<int>
    requires |s| == |t| && DefinedAll(op, t)
  {
    seq(|s|, i requires 0 <= i < |s| => Apply(op, s[i], t[i]))
  }

  /** `s[i] op x` at every index: the effect of `v op= x` for a scalar. */
  function Scale(op: Op, s: seq<int>, x: int): seq<int>
    requires Defined(op, x)
  {
    seq(|s|, i requires 0 <= i < |s| => Apply(op, s[i], x))
  }

  /** Every divisor in every row of `b` is usable with `op`. */
  predicate DefinedRows(op: Op, b: seq<seq<int>>) {
    forall i :: 0 <= i < |b| ==> DefinedAll(op, b[i])
  }

  /** `a[i][j] op b[i][j]` at every cell: the effect of `m op= x` for matrices. */
  function ZipRows(op: Op, a: seq<seq<int>>, b: seq<seq<int>>): seq<seq<int>>
    requires |a| == |b| && (forall i :: 0 <= i < |a| ==> |a[i]| == |b[i]|) && DefinedRows(op, b)
  {
    seq(|a|, i requires 0 <= i < |a| => Zip(op, a[i], b[i]))
  }

  /** `a[i][j] op x` at every cell: the effect of `m op= x` for a scalar. */
  function ScaleRows(op: Op, a: seq<seq<int>>, x: int): seq<seq<int>>
    requires Defined(op, x)
  {
    seq(|a|, i requires 0 <= i < |a| => Scale(op, a[i], x))
  }

  /** The sum over `i` of `s[i] * t[i]`, accumulated from index 0 upwards. */
  function InnerSum(s: seq<int>, t: seq<int>): int
    requires |s| == |t|
  {
    if |s| == 0 then 0
    else InnerSum(s[..|s| - 1], t[..|t| - 1]) + s[|s| - 1] * t[|t| - 1]
  }

  /** Extending both operands by one element adds one product. */
  lemma InnerSumStep(s: seq<int>, t: seq<int>, j: nat)
    requires |s| == |t| && j < |s|
    ensures InnerSum(s[..j + 1], t[..j + 1]) == InnerSum(s[..j], t[..j]) + s[j] * t[j]
  {
    assert s[..j + 1][..j] == s[..j];
    assert t[..j + 1][..j] == t[..j];
  }

  /** The inner product is symmetric. */
  lemma {:induction false} InnerSumSymmetric(s: seq<int>, t: seq<int>)
    requires |s| == |t|
    ensures InnerSum(s, t) == InnerSum(t, s)
  {
    if |s| > 0 {
      InnerSumSymmetric(s[..|s| - 1], t[..|t| - 1]);
    }
  }

  /** The unit vector with a 1 at index `k`. */
  function Unit(n: nat, k: int): seq<int> {
    seq(n, j => if j == k then 1 else 0)
  }

  /** The inner product with a unit vector selects one element. */
  lemma {:induction false} InnerSumUnit(n: nat, k: nat, v: seq<int>)
    requires k < n == |v|
    ensures InnerSum(Unit(n, k), v) == v[k]
  {
    var u := Unit(n, k);
    var j := 0;
    while j < n
      invariant 0 <= j <= n
      invariant InnerSum(u[..j], v[..j]) == if k < j then v[k] else 0
    {
      InnerSumStep(u, v, j);
      j := j + 1;
    }
    assert u[..n] == u && v[..n] == v;
  }

  // ---------------------------------------------------------------------
  // Matrices as sequences of rows

  /** `cols()` of la.h:299-303: the length of the first row, 0 when there is none. */
  function Width(m: seq<seq<int>>): nat {
    if |m| == 0 then 0 else |m[0]|
  }

  /** Every row has the same length: the only shape `_mat` can have. */
  predicate Rectangular(m: seq<seq<int>>) {
    forall i :: 0 <= i < |m| ==> |m[i]| == Width(m)
  }

  /** `rows x cols` copies of `val`: `_mat(n, m, val)`. */
  function Filled(rows: nat, cols: nat, val: int): seq<seq<int>> {
    seq(rows, i => seq(cols, j => val))
  }

  /** Row `i` is `m[i]`, so column `k` gathers the `k`-th element of each row. */
  function Column(m: seq<seq<int>>, k: nat): seq<int>
    requires Rectangular(m) && k < Width(m)
  {
    seq(|m|, j requires 0 <= j < |m| => m[j][k])
  }

  /** `tmp[j][i] = a[i][j]` over a `rows x cols` matrix. */
  function Transpose(m: seq<seq<int>>): (t: seq<seq<int>>)
    requires Rectangular(m)
    ensures |t| == Width(m) && forall j :: 0 <= j < |t| ==> |t[j]| == |m|
  {
    seq(Width(m), j requires 0 <= j < Width(m) =>
      seq(|m|, i requires 0 <= i < |m| => m[i][j]))
  }

  /** The matrix product: entry `(i, k)` is the sum over `j` of `a[i][j] * b[j][k]`. */
  function MatMul(a: seq<seq<int>>, b: seq<seq<int>>): seq<seq<int>>
    requires Rectangular(a) && Rectangular(b) && Width(a) == |b|
  {
    seq(|a|, i requires 0 <= i < |a| =>
      seq(Width(b), k requires 0 <= k < Width(b) => InnerSum(a[i], Column(b, k))))
  }

  /** The first `j` terms of the sum that gives entry `(i, k)` of `MatMul(a, b)`. */
  function PartialProduct(a: seq<seq<int>>, b: seq<seq<int>>, i: nat, k: nat, j: nat): int
    requires Rectangular(a) && Rectangular(b) && Width(a) == |b|
    requires i < |a| && k < Width(b) && j <= |b|
  {
    InnerSum(a[i][..j], Column(b, k)[..j])
  }

  /** One more term of the entry sum. */
  lemma PartialProductStep(a: seq<seq<int>>, b: seq<seq<int>>, i: nat, k: nat, j: nat)
    requires Rectangular(a) && Rectangular(b) && Width(a) == |b|
    requires i < |a| && k < Width(b) && j < |b|
    ensures PartialProduct(a, b, i, k, j + 1) == PartialProduct(a, b, i, k, j) + a[i][j] * b[j][k]
  {
    InnerSumStep(a[i], Column(b, k), j);
  }

  /** All the terms give the entry of the product. */
  lemma PartialProductFull(a: seq<seq<int>>, b: seq<seq<int>>, i: nat, k: nat)
    requires Rectangular(a) && Rectangular(b) && Width(a) == |b|
    requires i < |a| && k < Width(b)
    ensures PartialProduct(a, b, i, k, |b|) == MatMul(a, b)[i][k]
  {
    assert a[i][..|b|] == a[i];
    assert Column(b, k)[..|b|] == Column(b, k);
  }

  /** With no terms the entry sum is 0. */
  lemma PartialProductZero(a: seq<seq<int>>, b: seq<seq<int>>, i: nat, k: nat)
    requires Rectangular(a) && Rectangular(b) && Width(a) == |b|
    requires i < |a| && k < Width(b)
    ensures PartialProduct(a, b, i, k, 0) == 0
  {
  }

  /** The matrix-vector product: entry `i` is the sum over `j` of `a[i][j] * v[j]`. */
  function MatVec(a: seq<seq<int>>, v: seq<int>): seq<int>
    requires Rectangular(a) && Width(a) == |v|
  {
    seq(|a|, i requires 0 <= i < |a| => InnerSum(a[i], v))
  }

  /** The outer product: entry `(i, j)` is `u[i] * v[j]`. */
  function Outer(u: seq<int>, v: seq<int>): seq<seq<int>> {
    seq(|u|, i requires 0 <= i < |u| => seq(|v|, j requires 0 <= j < |v| => u[i] * v[j]))
  }

  /** `id(n)`: 1 on the diagonal, 0 elsewhere. */
  function Identity(n: nat): seq<seq<int>> {
    seq(n, i => Unit(n, i))
  }

  /** Two matrices with the same shape and the same cells are equal. */
  lemma SameCells(p: seq<seq<int>>, q: seq<seq<int>>)
    requires |p| == |q|
    requires forall i :: 0 <= i < |p| ==> |p[i]| == |q[i]|
    requires forall i, j :: 0 <= i < |p| && 0 <= j < |p[i]| ==> p[i][j] == q[i][j]
    ensures p == q
  {
    forall i | 0 <= i < |p| ensures p[i] == q[i] {
    }
  }

  /** The transpose of a non-empty `r x c` matrix is a `c x r` matrix. */
  lemma TransposeShape(m: seq<seq<int>>)
    requires Rectangular(m) && |m| > 0 && Width(m) > 0
    ensures Rectangular(Transpose(m))
    ensures |Transpose(m)| == Width(m) && Width(Transpose(m)) == |m|
  {
  }

  /** Transposing a non-empty rectangular matrix twice gives it back. */
  lemma TransposeInvolutive(m: seq<seq<int>>)
    requires Rectangular(m) && |m| > 0 && Width(m) > 0
    ensures Transpose(Transpose(m)) == m
  {
    var t := Transpose(m);
    TransposeShape(m);
    var tt := Transpose(t);
    assert |tt| == |m|;
    forall i | 0 <= i < |m| ensures |tt[i]| == |m[i]| {
    }
    SameCells(tt, m);
  }

  /** The outer product of non-empty vectors is rectangular of shape `|u| x |v|`. */
  lemma OuterShape(u: seq<int>, v: seq<int>)
    requires |u| > 0
    ensures Rectangular(Outer(u, v)) && |Outer(u, v)| == |u| && Width(Outer(u, v)) == |v|
  {
  }

  /** Transposing an outer product swaps its operands. */
  lemma OuterTranspose(u: seq<int>, v: seq<int>)
    requires |u| > 0 && |v| > 0
    ensures Rectangular(Outer(u, v)) && Transpose(Outer(u, v)) == Outer(v, u)
  {
    OuterShape(u, v);
    var t := Transpose(Outer(u, v));
    var o := Outer(v, u);
    forall j, i | 0 <= j < |t| && 0 <= i < |t[j]| ensures t[j][i] == o[j][i] {
      assert t[j][i] == u[i] * v[j];
    }
    SameCells(t, o);
  }

  /** The product of an `r x c` and a `c x l` matrix is an `r x l` matrix. */
  lemma MatMulShape(a: seq<seq<int>>, b: seq<seq<int>>)
    requires Rectangular(a) && Rectangular(b) && Width(a) == |b| && |a| > 0
    ensures Rectangular(MatMul(a, b)) && |MatMul(a, b)| == |a| && Width(MatMul(a, b)) == Width(b)
  {
  }

  /** The identity matrix is square and rectangular. */
  lemma IdentityShape(n: nat)
    ensures |Identity(n)| == n && Rectangular(Identity(n)) && (n > 0 ==> Width(Identity(n)) == n)
  {
  }

  /** Multiplying a vector by the identity matrix gives the vector back. */
  lemma MatVecIdentity(v: seq<int>)
    requires |v| > 0
    ensures IdentityShapeOk(|v|) && MatVec(Identity(|v|), v) == v
  {
    var n := |v|;
    IdentityShape(n);
    var r := MatVec(Identity(n), v);
    forall i | 0 <= i < n ensures r[i] == v[i] {
      InnerSumUnit(n, i, v);
    }
  }

  /** Multiplying by the identity matrix on the left gives the matrix back. */
  lemma MatMulIdentity(b: seq<seq<int>>)
    requires Rectangular(b) && |b| > 0
    ensures IdentityShapeOk(|b|) && MatMul(Identity(|b|), b) == b
  {
    var n := |b|;
    IdentityShape(n);
    var r := MatMul(Identity(n), b);
    forall i, k | 0 <= i < n && 0 <= k < Width(b) ensures r[i][k] == b[i][k] {
      InnerSumUnit(n, i, Column(b, k));
    }
    SameCells(r, b);
  }

  /** What the two identity lemmas need to state their products. */
  predicate IdentityShapeOk(n: nat) {
    Rectangular(Identity(n)) && Width(Identity(n)) == n
  }

  /** Adding and then subtracting the same vector gives the first operand back. */
  lemma AddThenSubtract(s: seq<int>, t: seq<int>)
    requires |s| == |t|
    ensures Zip(Sub, Zip(Add, s, t), t) == s
  {
  }

  /**
   * `i + j * rows`, the column-major offset of cell `(i, j)`, counted one
   * column at a time so that the layout predicates below stay linear.
   */
  function Offset(i: nat, j: nat, rows: nat): nat {
    if j == 0 then i else Offset(i, j - 1, rows) + rows
  }

  /** The offset of cell `(i, j)` is `i + j * rows`. */
  lemma {:induction false} OffsetValue(i: nat, j: nat, rows: nat)
    ensures Offset(i, j, rows) == i + j * rows
  {
    if j > 0 {
      OffsetValue(i, j - 1, rows);
      assert (j - 1) * rows + rows == j * rows;
    }
  }

  /** Element `(i, j)` of a column-major matrix with `rows` rows. */
  function FlatAt(flat: seq<int>, rows: nat, i: nat, j: nat): int
    requires Offset(i, j, rows) < |flat|
  {
    flat[Offset(i, j, rows)]
  }

  /** A row-major `r x c` matrix stored column-major: element `(i, j)` at `i + j * r`. */
  predicate ColumnMajor(flat: seq<int>, m: seq<seq<int>>)
    requires Rectangular(m)
  {
    && |flat| >= |m| * Width(m)
    && forall i: nat, j: nat :: i < |m| && j < Width(m) ==>
         Offset(i, j, |m|) < |flat| && FlatAt(flat, |m|, i, j) == m[i][j]
  }

  /** One cell of a column-major layout. */
  lemma ColumnMajorCell(flat: seq<int>, m: seq<seq<int>>, i: nat, j: nat)
    requires Rectangular(m) && ColumnMajor(flat, m) && i < |m| && j < Width(m)
    ensures Offset(i, j, |m|) < |flat| && FlatAt(flat, |m|, i, j) == m[i][j]
  {
  }

  // ---------------------------------------------------------------------
  // The two products exercised by test.cpp:59-74

  /** `[[1,2,3,4],[5,6,7,8],[9,10,11,12]]` times `[[1,2],[3,4],[5,6],[7,8]]`. */
  lemma ExampleProduct()
    ensures var a := [[1, 2, 3, 4], [5, 6, 7, 8], [9, 10, 11, 12]];
            var b := [[1, 2], [3, 4], [5, 6], [7, 8]];
            Rectangular(a) && Rectangular(b) && Width(a) == |b|
            && MatMul(a, b) == [[50, 60], [114, 140], [178, 220]]
  {
    var a := [[1, 2, 3, 4], [5, 6, 7, 8], [9, 10, 11, 12]];
    var b := [[1, 2], [3, 4], [5, 6], [7, 8]];
    assert Column(b, 0) == [1, 3, 5, 7];
    assert Column(b, 1) == [2, 4, 6, 8];
    SumOfFour(a[0], Column(b, 0));
    SumOfFour(a[0], Column(b, 1));
    SumOfFour(a[1], Column(b, 0));
    SumOfFour(a[1], Column(b, 1));
    SumOfFour(a[2], Column(b, 0));
    SumOfFour(a[2], Column(b, 1));
    SameCells(MatMul(a, b), [[50, 60], [114, 140], [178, 220]]);
  }

  /** The inner product of two four-element vectors, written out. */
  lemma SumOfFour(s: seq<int>, t: seq<int>)
    requires |s| == |t| == 4
    ensures InnerSum(s, t) == s[0] * t[0] + s[1] * t[1] + s[2] * t[2] + s[3] * t[3]
  {
    InnerSumStep(s, t, 0);
    InnerSumStep(s, t, 1);
    InnerSumStep(s, t, 2);
    InnerSumStep(s, t, 3);
    assert s[..0] == [] && t[..0] == [];
    assert s[..4] == s && t[..4] == t;
  }

  /** `[1,2,3,4]` outer `[91,108,-44]`: a 4 x 3 matrix with corners 91 and -176. */
  lemma ExampleOuter()
    ensures var o := Outer([1, 2, 3, 4], [91, 108, -44]);
            |o| == 4 && Width(o) == 3 && o[0][0] == 91 && o[3][2] == -176
  {
  }
}
