/**
 * The device kernels of kernels.c as work-item programs over device
 * buffers. A buffer is an `array<int>` (the element type is an integer, as
 * in the host library model). Each kernel is one method per work item,
 * holding the kernel body, plus a launch method that runs the work items
 * one after the other. The items of one launch write disjoint indices (see
 * `ChunksDisjoint` and `MtTilesDisjoint`), so this sequential
 * order gives the same final buffers as any parallel schedule.
 */
module Kernels {
  import opened Elements
  import opened LinAlg

  /** The chunk width of the vector kernels (`get_global_id(0) * 4`). */
  const CHUNK: nat := 4

  /** Work item `g` of a vector kernel handles the indices `[4g, 4g + 4)`. */
  predicate InChunk(j: int, g: nat) {
    CHUNK * g <= j < CHUNK * g + CHUNK
  }

  /** Index `j` is written by a launch of `items` work items over `n` elements. */
  predicate Written(j: int, n: int, items: nat) {
    0 <= j < n && j < CHUNK * items
  }

  /** No index belongs to the chunks of two different work items. */
  lemma ChunksDisjoint(j: int, g: nat, h: nat)
    requires InChunk(j, g) && InChunk(j, h)
    ensures g == h
  {
  }

  /**
   * An index below `n` is written by a launch exactly when one of the
   * launched work items has it in its chunk.
   */
  lemma ChunksCover(j: int, n: int, items: nat)
    ensures Written(j, n, items) <==> 0 <= j < n && exists g: nat :: g < items && InChunk(j, g)
  {
    if Written(j, n, items) {
      var g: nat := j / CHUNK;
      assert InChunk(j, g);
    }
  }

  /** With at least `n / 4` (rounded up) work items every index below `n` is written. */
  lemma LaunchCoversAll(j: int, n: int, items: nat)
    requires n <= CHUNK * items
    ensures Written(j, n, items) <==> 0 <= j < n
  {
  }

  // ---------------------------------------------------------------------
  // vcopy: b[j] = a[j]
  // ---------------------------------------------------------------------

  /** One work item of `vcopy`. */
  method VCopyItem(a: array<int>, b: array<int>, n: int, g: nat)
    requires n <= a.Length && n <= b.Length
    modifies b
    ensures forall j :: 0 <= j < b.Length ==>
              b[j] == if InChunk(j, g) && j < n then old(a[j]) else old(b[j])
    ensures forall j :: 0 <= j < a.Length ==> a[j] == old(a[j])
  {
    var i := CHUNK * g;
    for j := i to i + CHUNK
      invariant forall k :: 0 <= k < b.Length ==>
                  b[k] == if i <= k < j && k < n then old(a[k]) else old(b[k])
      invariant forall k :: 0 <= k < a.Length ==> a[k] == old(a[k])
    {
      if j < n {
        b[j] := a[j];
      }
    }
  }

  /** A launch of `vcopy` with `items` work items. */
  method VCopy(a: array<int>, b: array<int>, n: int, items: nat)
    requires n <= a.Length && n <= b.Length
    modifies b
    ensures forall j :: 0 <= j < b.Length ==>
              b[j] == if Written(j, n, items) then old(a[j]) else old(b[j])
    ensures forall j :: 0 <= j < a.Length ==> a[j] == old(a[j])
    ensures 0 <= n <= CHUNK * items ==> b[..n] == old(a[..n])
  {
    for g := 0 to items
      invariant forall j :: 0 <= j < b.Length ==>
                  b[j] == if Written(j, n, g) then old(a[j]) else old(b[j])
      invariant forall j :: 0 <= j < a.Length ==> a[j] == old(a[j])
    {
      VCopyItem(a, b, n, g);
    }
  }

  // ---------------------------------------------------------------------
  // vsub: c[j] = a[j] - b[j]
  // ---------------------------------------------------------------------

  /** One work item of `vsub`. */
  method VSubItem(a: array<int>, b: array<int>, c: array<int>, n: int, g: nat)
    requires n <= a.Length && n <= b.Length && n <= c.Length
    modifies c
    ensures forall j :: 0 <= j < c.Length ==>
              c[j] == if InChunk(j, g) && j < n then old(a[j]) - old(b[j]) else old(c[j])
  {
    var i := CHUNK * g;
    for j := i to i + CHUNK
      invariant forall k :: 0 <= k < c.Length ==>
                  c[k] == if i <= k < j && k < n then old(a[k]) - old(b[k]) else old(c[k])
      invariant forall k :: j <= k < a.Length ==> a[k] == old(a[k])
      invariant forall k :: j <= k < b.Length ==> b[k] == old(b[k])
    {
      if j < n {
        c[j] := a[j] - b[j];
      }
    }
  }

  /**
   * A launch of `vsub` with `items` work items; `c` may be one of the
   * operands. With enough items it computes the host's `a - b`.
   */
  method VSub(a: array<int>, b: array<int>, c: array<int>, n: int, items: nat)
    requires n <= a.Length && n <= b.Length && n <= c.Length
    modifies c
    ensures forall j :: 0 <= j < c.Length ==>
              c[j] == if Written(j, n, items) then old(a[j]) - old(b[j]) else old(c[j])
    ensures 0 <= n <= CHUNK * items ==> c[..n] == Zip(Sub, old(a[..n]), old(b[..n]))
  {
    for g := 0 to items
      invariant forall j :: 0 <= j < c.Length ==>
                  c[j] == if Written(j, n, g) then old(a[j]) - old(b[j]) else old(c[j])
      invariant forall j :: 0 <= j < a.Length && (c != a || j >= CHUNK * g) ==> a[j] == old(a[j])
      invariant forall j :: 0 <= j < b.Length && (c != b || j >= CHUNK * g) ==> b[j] == old(b[j])
    {
      VSubItem(a, b, c, n, g);
    }
  }

  // ---------------------------------------------------------------------
  // vsmul: b[j] = a[j] * y
  // ---------------------------------------------------------------------

  /** One work item of `vsmul`. */
  method VSmulItem(a: array<int>, b: array<int>, y: int, n: int, g: nat)
    requires n <= a.Length && n <= b.Length
    modifies b
    ensures forall j :: 0 <= j < b.Length ==>
              b[j] == if InChunk(j, g) && j < n then old(a[j]) * y else old(b[j])
  {
    var i := CHUNK * g;
    for j := i to i + CHUNK
      invariant forall k :: 0 <= k < b.Length ==>
                  b[k] == if i <= k < j && k < n then old(a[k]) * y else old(b[k])
      invariant forall k :: j <= k < a.Length ==> a[k] == old(a[k])
    {
      if j < n {
        b[j] := a[j] * y;
      }
    }
  }

  /** A launch of `vsmul`; with enough items it computes the host's `a * y`. */
  method VSmul(a: array<int>, b: array<int>, y: int, n: int, items: nat)
    requires n <= a.Length && n <= b.Length
    modifies b
    ensures forall j :: 0 <= j < b.Length ==>
              b[j] == if Written(j, n, items) then old(a[j]) * y else old(b[j])
    ensures 0 <= n <= CHUNK * items ==> b[..n] == Scale(Mul, old(a[..n]), y)
  {
    for g := 0 to items
      invariant forall j :: 0 <= j < b.Length ==>
                  b[j] == if Written(j, n, g) then old(a[j]) * y else old(b[j])
      invariant forall j :: 0 <= j < a.Length && (b != a || j >= CHUNK * g) ==> a[j] == old(a[j])
    {
      VSmulItem(a, b, y, n, g);
    }
  }

  // ---------------------------------------------------------------------
  // vsubc: a[j] -= b[j]
  // ---------------------------------------------------------------------

  /** One work item of `vsubc`. */
  method VSubcItem(a: array<int>, b: array<int>, n: int, g: nat)
    requires n <= a.Length && n <= b.Length
    modifies a
    ensures forall j :: 0 <= j < a.Length ==>
              a[j] == if InChunk(j, g) && j < n then old(a[j]) - old(b[j]) else old(a[j])
    ensures a != b ==> forall j :: 0 <= j < b.Length ==> b[j] == old(b[j])
  {
    var i := CHUNK * g;
    for j := i to i + CHUNK
      invariant forall k :: 0 <= k < a.Length ==>
                  a[k] == if i <= k < j && k < n then old(a[k]) - old(b[k]) else old(a[k])
      invariant forall k :: 0 <= k < b.Length && (a != b || k >= j) ==> b[k] == old(b[k])
    {
      if j < n {
        a[j] := a[j] - b[j];
      }
    }
  }

  /** A launch of `vsubc`; with enough items it is the host's `a -= b`. */
  method VSubc(a: array<int>, b: array<int>, n: int, items: nat)
    requires n <= a.Length && n <= b.Length
    modifies a
    ensures forall j :: 0 <= j < a.Length ==>
              a[j] == if Written(j, n, items) then old(a[j]) - old(b[j]) else old(a[j])
    ensures a != b ==> forall j :: 0 <= j < b.Length ==> b[j] == old(b[j])
    ensures 0 <= n <= CHUNK * items ==> a[..n] == Zip(Sub, old(a[..n]), old(b[..n]))
  {
    for g := 0 to items
      invariant forall j :: 0 <= j < a.Length ==>
                  a[j] == if Written(j, n, g) then old(a[j]) - old(b[j]) else old(a[j])
      invariant forall j :: 0 <= j < b.Length && (a != b || j >= CHUNK * g) ==> b[j] == old(b[j])
    {
      VSubcItem(a, b, n, g);
    }
  }

  // ---------------------------------------------------------------------
  // mt: column-major n×m → m×n transpose in 2×2 tiles
  // ---------------------------------------------------------------------

  /** A product of two non-negative factors is non-negative. */
  lemma MulNonNegative(x: int, y: int)
    requires 0 <= x && 0 <= y
    ensures 0 <= x * y
  {
  }

  /** Multiplying by a non-negative factor keeps the order. */
  lemma MulMonotone(x: int, y: int, z: int)
    requires x <= y && 0 <= z
    ensures x * z <= y * z
  {
    MulNonNegative(y - x, z);
    assert (y - x) * z == y * z - x * z;
  }

  /** Quotient and remainder are the only pair that rebuilds `k`. */
  lemma DivModUnique(k: int, m: int, q: int, r: int)
    requires 0 < m && 0 <= r < m && k == q * m + r
    ensures k / m == q && k % m == r
  {
    var d := q - k / m;
    assert k == (k / m) * m + k % m;
    assert d * m == k % m - r;
    if d >= 1 {
      MulMonotone(1, d, m);
    } else if d <= -1 {
      MulMonotone(d, -1, m);
    }
  }

  /** Cell `(ii, jj)` of an `n × m` matrix sits at `jj + ii*m`, which lies below `n*m`. */
  lemma FlatIndex(ii: int, jj: int, n: int, m: int)
    requires 0 <= ii < n && 0 <= jj < m
    ensures 0 <= jj + ii * m < n * m
    ensures (jj + ii * m) / m == ii && (jj + ii * m) % m == jj
  {
    MulNonNegative(ii, m);
    MulMonotone(ii + 1, n, m);
    assert (ii + 1) * m == ii * m + m;
    DivModUnique(jj + ii * m, m, ii, jj);
  }

  /** Index `k` below `n*m` is cell `(k / m, k % m)` of an `n × m` matrix. */
  lemma CellOf(k: int, n: nat, m: nat)
    requires m > 0 && 0 <= k < n * m
    ensures 0 <= k / m < n && 0 <= k % m < m && k == k / m * m + k % m
  {
    var c := k / m;
    if c < 0 {
      MulMonotone(c, -1, m);
    }
    if c >= n {
      MulMonotone(n, c, m);
    }
  }

  /** Where `mt` reads the value it stores at index `k` of `b`. */
  function MtSource(k: int, n: nat, m: nat): (s: int)
    requires m > 0 && 0 <= k < n * m
    ensures 0 <= s < n * m
  {
    CellOf(k, n, m);
    FlatIndex(k % m, k / m, m, n);
    k / m + (k % m) * n
  }

  /**
   * Index `k` of `b` is the transposed cell `(k / m, k % m)` with the
   * source row `k / m` in `[r0, r1)` and the source column `k % m` in
   * `[c0, c1)`.
   */
  predicate Covers(k: int, n: nat, m: nat, r0: int, r1: int, c0: int, c1: int) {
    m > 0 && 0 <= k < n * m && r0 <= k / m < r1 && c0 <= k % m < c1
  }

  /** Widening the column range by `jj` adds exactly the cell `(ii, jj)`, if it exists. */
  lemma CoversStep(k: int, n: nat, m: nat, ii: int, ii1: int, j: int, jj: int, jj1: int)
    requires 0 <= ii && 0 <= jj && ii1 == ii + 1 && jj1 == jj + 1
    ensures Covers(k, n, m, ii, ii1, j, jj1) <==>
            Covers(k, n, m, ii, ii1, j, jj) || (ii < n && jj < m && j <= jj && k == jj + ii * m)
  {
    if Covers(k, n, m, ii, ii1, j, jj1) {
      CellOf(k, n, m);
    }
    if ii < n && jj < m && j <= jj && k == jj + ii * m {
      FlatIndex(ii, jj, n, m);
    }
  }

  /**
   * One work item `(gi, gj)` of `mt`: the 2×2 tile with rows `[2gi, 2gi + 2)`
   * and columns `[2gj, 2gj + 2)`, clipped to the matrix.
   */
  method MtItem(a: array<int>, b: array<int>, n: nat, m: nat, gi: nat, gj: nat)
    requires a != b && n * m <= a.Length && n * m <= b.Length
    modifies b
    ensures forall k :: 0 <= k < b.Length ==>
              b[k] == if Covers(k, n, m, 2 * gi, 2 * gi + 2, 2 * gj, 2 * gj + 2)
                      then a[MtSource(k, n, m)] else old(b[k])
  {
    var i, j := 2 * gi, 2 * gj;
    for ii := i to i + 2
      invariant forall k :: 0 <= k < b.Length ==>
                  b[k] == if Covers(k, n, m, i, ii, j, j + 2) then a[MtSource(k, n, m)] else old(b[k])
    {
      MtTileRow(a, b, n, m, ii, j);
    }
  }

  /** The inner loop of `mt`: source row `ii`, columns `[j, j + 2)`, clipped to the matrix. */
  method MtTileRow(a: array<int>, b: array<int>, n: nat, m: nat, ii: nat, j: nat)
    requires a != b && n * m <= a.Length && n * m <= b.Length
    modifies b
    ensures forall k :: 0 <= k < b.Length ==>
              b[k] == if Covers(k, n, m, ii, ii + 1, j, j + 2) then a[MtSource(k, n, m)] else old(b[k])
  {
    var ii1 := ii + 1;
    for jj := j to j + 2
      invariant forall k :: 0 <= k < b.Length ==>
                  b[k] == if Covers(k, n, m, ii, ii1, j, jj) then a[MtSource(k, n, m)] else old(b[k])
    {
      MtCell(a, b, n, m, ii, jj);
    }
  }

  /** The guarded store of `mt` for source cell `(ii, jj)`. */
  method MtCell(a: array<int>, b: array<int>, n: nat, m: nat, ii: nat, jj: nat)
    requires a != b && n * m <= a.Length && n * m <= b.Length
    modifies b
    ensures forall k :: 0 <= k < b.Length ==>
              b[k] == if Covers(k, n, m, ii, ii + 1, jj, jj + 1) then a[MtSource(k, n, m)] else old(b[k])
  {
    var ii1, jj1 := ii + 1, jj + 1;
    if ii < n && jj < m {
      FlatIndex(ii, jj, n, m);
      FlatIndex(jj, ii, m, n);
      b[jj + ii * m] := a[ii + jj * n];
    }
    forall k | 0 <= k < b.Length
      ensures Covers(k, n, m, ii, ii1, jj, jj1) <==> ii < n && jj < m && k == jj + ii * m
    {
      CoversStep(k, n, m, ii, ii1, jj, jj, jj1);
    }
  }

  /** A launch of `mt` over `gx × gy` work items. */
  method Mt(a: array<int>, b: array<int>, n: nat, m: nat, gx: nat, gy: nat)
    requires a != b && n * m <= a.Length && n * m <= b.Length
    modifies b
    ensures forall k :: 0 <= k < b.Length ==>
              b[k] == if Covers(k, n, m, 0, 2 * gx, 0, 2 * gy) then a[MtSource(k, n, m)] else old(b[k])
  {
    for gi := 0 to gx
      invariant forall k :: 0 <= k < b.Length ==>
                  b[k] == if Covers(k, n, m, 0, 2 * gi, 0, 2 * gy) then a[MtSource(k, n, m)] else old(b[k])
    {
      for gj := 0 to gy
        invariant forall k :: 0 <= k < b.Length ==>
                    b[k] == if Covers(k, n, m, 0, 2 * gi, 0, 2 * gy) || Covers(k, n, m, 2 * gi, 2 * gi + 2, 0, 2 * gj)
                            then a[MtSource(k, n, m)] else old(b[k])
      {
        MtItem(a, b, n, m, gi, gj);
      }
    }
  }

  /** No cell belongs to the 2×2 tiles of two different work items of `mt`. */
  lemma MtTilesDisjoint(k: int, n: nat, m: nat, gi: nat, gj: nat, hi: nat, hj: nat)
    requires Covers(k, n, m, 2 * gi, 2 * gi + 2, 2 * gj, 2 * gj + 2)
    requires Covers(k, n, m, 2 * hi, 2 * hi + 2, 2 * hj, 2 * hj + 2)
    ensures gi == hi && gj == hj
  {
  }

  /** With enough work items on both axes `mt` writes every index below `n*m`. */
  lemma MtCoversAll(k: int, n: nat, m: nat, gx: nat, gy: nat)
    requires n <= 2 * gx && m <= 2 * gy
    ensures Covers(k, n, m, 0, 2 * gx, 0, 2 * gy) <==> m > 0 && 0 <= k < n * m
  {
    if m > 0 && 0 <= k < n * m {
      CellOf(k, n, m);
    }
  }

  /**
   * `b`, column-major with `m` rows, holds the transpose of `a`,
   * column-major with `n` rows: cell `(i, j)` of `b` is cell `(j, i)` of `a`.
   */
  predicate TransposedLayout(a: seq<int>, b: seq<int>, n: nat, m: nat) {
    && n * m <= |a| && n * m <= |b|
    && forall i: nat, j: nat :: i < m && j < n ==>
         Offset(i, j, m) < |b| && Offset(j, i, n) < |a| && FlatAt(b, m, i, j) == FlatAt(a, n, j, i)
  }

  /** Once `mt` has written every index below `n*m`, `b` is laid out as the transpose of `a`. */
  lemma MtCells(a: seq<int>, b: seq<int>, n: nat, m: nat)
    requires m > 0 && n * m <= |a| && n * m <= |b|
    requires forall k :: 0 <= k < n * m ==> b[k] == a[MtSource(k, n, m)]
    ensures TransposedLayout(a, b, n, m)
  {
    forall i: nat, j: nat | i < m && j < n
      ensures Offset(i, j, m) < |b| && Offset(j, i, n) < |a| && FlatAt(b, m, i, j) == FlatAt(a, n, j, i)
    {
      OffsetValue(i, j, m);
      OffsetValue(j, i, n);
      FlatIndex(j, i, n, m);
      FlatIndex(i, j, m, n);
      assert MtSource(i + j * m, n, m) == j + i * n;
    }
  }

  /**
   * When `a` holds the `n × m` matrix `A` in column-major order and `b` is
   * laid out as its transpose, `b` holds `Transpose(A)` in column-major order.
   */
  lemma MtIsTranspose(a: seq<int>, b: seq<int>, A: seq<seq<int>>)
    requires Rectangular(A) && |A| > 0 && Width(A) > 0
    requires ColumnMajor(a, A) && TransposedLayout(a, b, |A|, Width(A))
    ensures ColumnMajor(b, Transpose(A))
  {
    TransposeShape(A);
    MtTransposeSize(b, A);
    MtTransposeCells(a, b, A);
  }

  /** `b` is long enough for the transpose of `A`. */
  lemma MtTransposeSize(b: seq<int>, A: seq<seq<int>>)
    requires Rectangular(A) && |A| > 0 && Width(A) > 0 && |A| * Width(A) <= |b|
    ensures |b| >= |Transpose(A)| * Width(Transpose(A))
  {
    TransposeShape(A);
  }

  /** Every cell of `MtIsTranspose`. */
  lemma MtTransposeCells(a: seq<int>, b: seq<int>, A: seq<seq<int>>)
    requires Rectangular(A) && |A| > 0 && Width(A) > 0
    requires ColumnMajor(a, A) && TransposedLayout(a, b, |A|, Width(A))
    ensures forall i: nat, j: nat :: i < |Transpose(A)| && j < Width(Transpose(A)) ==>
              Offset(i, j, |Transpose(A)|) < |b| && FlatAt(b, |Transpose(A)|, i, j) == Transpose(A)[i][j]
  {
    TransposeShape(A);
    forall i: nat, j: nat | i < |Transpose(A)| && j < Width(Transpose(A))
      ensures Offset(i, j, |Transpose(A)|) < |b| && FlatAt(b, |Transpose(A)|, i, j) == Transpose(A)[i][j]
    {
      MtTransposeCell(a, b, A, i, j);
    }
  }

  /** One cell of `MtIsTranspose`: cell `(i, j)` of `b` is cell `(j, i)` of `A`. */
  lemma MtTransposeCell(a: seq<int>, b: seq<int>, A: seq<seq<int>>, i: nat, j: nat)
    requires Rectangular(A) && |A| > 0 && Width(A) > 0
    requires ColumnMajor(a, A) && TransposedLayout(a, b, |A|, Width(A))
    requires i < |Transpose(A)| && j < Width(Transpose(A))
    ensures Offset(i, j, |Transpose(A)|) < |b| && FlatAt(b, |Transpose(A)|, i, j) == Transpose(A)[i][j]
  {
    TransposeShape(A);
    var T := Transpose(A);
    var n, m := |A|, Width(A);
    assert |T| == m && i < m && j < n;
    ColumnMajorCell(a, A, j, i);
    assert Offset(i, j, m) < |b| && FlatAt(b, m, i, j) == FlatAt(a, n, j, i);
  }

  // ---------------------------------------------------------------------
  // mvdot: c[i] = sum over j < m of a[i + j*n] * b[j]
  // ---------------------------------------------------------------------

  /** `i + t*n` is below `j*n` for `i < n` and `t < j`. */
  lemma StrideBound(i: nat, t: nat, n: nat, j: nat)
    requires i < n && t < j
    ensures i + t * n < j * n
  {
    MulMonotone(t + 1, j, n);
    assert (t + 1) * n == t * n + n;
  }

  /** Row `i` of a column-major matrix with `n` rows: `a[i], a[i + n], …`, `j` entries. */
  function Strided(a: seq<int>, n: nat, i: nat, j: nat): (r: seq<int>)
    requires i < n && j * n <= |a|
    ensures |r| == j
  {
    seq(j, t requires 0 <= t < j => StridedEntry(a, n, i, j, t))
  }

  /** Entry `t` of `Strided(a, n, i, j)`. */
  function StridedEntry(a: seq<int>, n: nat, i: nat, j: nat, t: int): int
    requires i < n && j * n <= |a| && 0 <= t < j
  {
    StrideBound(i, t, n, j);
    a[i + t * n]
  }

  /** A shorter stride is a prefix of a longer one. */
  lemma StridedPrefix(a: seq<int>, n: nat, i: nat, j: nat)
    requires i < n && (j + 1) * n <= |a|
    ensures j * n <= |a|
    ensures Strided(a, n, i, j + 1)[..j] == Strided(a, n, i, j)
    ensures Strided(a, n, i, j + 1)[j] == a[i + j * n]
  {
  }

  /** The value work item `i` of `mvdot` stores after `j` rounds. */
  function MvSum(a: seq<int>, b: seq<int>, n: nat, i: nat, j: nat): int
    requires i < n && j * n <= |a| && j <= |b|
  {
    InnerSum(Strided(a, n, i, j), b[..j])
  }

  /** One work item of `mvdot`; it needs `i < n`, because the kernel has no guard. */
  method MvDotItem(a: array<int>, b: array<int>, c: array<int>, n: nat, m: nat, i: nat)
    requires i < n && m * n <= a.Length && m <= b.Length && n <= c.Length
    requires c != a && c != b
    modifies c
    ensures c[i] == MvSum(a[..], b[..], n, i, m)
    ensures forall k :: 0 <= k < c.Length && k != i ==> c[k] == old(c[k])
  {
    ghost var A, B := a[..], b[..];
    var z := 0;
    for j := 0 to m
      invariant j * n <= a.Length
      invariant z == MvSum(A, B, n, i, j)
      invariant c[..] == old(c[..])
    {
      MulMonotone(j + 1, m, n);
      StrideBound(i, j, n, m);
      StridedPrefix(A, n, i, j);
      ghost var s, t := Strided(A, n, i, j + 1), B[..j + 1];
      assert InnerSum(s, t) == InnerSum(s[..j], t[..j]) + s[j] * t[j];
      assert t[..j] == B[..j];
      z := z + a[i + j * n] * b[j];
    }
    c[i] := z;
    assert a[..] == A && b[..] == B;
  }

  /**
   * A launch of `mvdot` with `items` work items. Work item `i` writes
   * `c[i]` with no bound check, so the launch is in bounds only when
   * `items <= n`.
   */
  method MvDot(a: array<int>, b: array<int>, c: array<int>, n: nat, m: nat, items: nat)
    requires items <= n && m * n <= a.Length && m <= b.Length && n <= c.Length
    requires c != a && c != b
    modifies c
    ensures forall i :: 0 <= i < items ==> c[i] == MvSum(a[..], b[..], n, i, m)
    ensures forall k :: items <= k < c.Length ==> c[k] == old(c[k])
  {
    for g := 0 to items
      invariant forall i :: 0 <= i < g ==> c[i] == MvSum(a[..], b[..], n, i, m)
      invariant forall k :: g <= k < c.Length ==> c[k] == old(c[k])
    {
      MvDotItem(a, b, c, n, m, g);
    }
  }

  /**
   * When `a` holds the `n × m` matrix `A` in column-major order, what work
   * item `i` of `mvdot` stores is entry `i` of the host's `A.dot(b)`.
   */
  lemma MvDotIsMatVec(a: seq<int>, b: seq<int>, A: seq<seq<int>>, i: nat)
    requires Rectangular(A) && ColumnMajor(a, A) && i < |A|
    requires Width(A) <= |b|
    ensures Width(A) * |A| <= |a|
    ensures MvSum(a, b, |A|, i, Width(A)) == MatVec(A, b[..Width(A)])[i]
  {
    var n, m := |A|, Width(A);
    forall t | 0 <= t < m ensures Strided(a, n, i, m)[t] == A[i][t] {
      OffsetValue(i, t, n);
      ColumnMajorCell(a, A, i, t);
    }
    assert Strided(a, n, i, m) == A[i];
  }
}
