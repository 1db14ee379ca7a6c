/**
 * The host-side dense vector and matrix library of la.h.
 *
 * `_vec<T>` owns a heap array of `n` elements (`Vec`: the field `a` is that
 * array, `null` when the vector owns none). `_mat<U>` is a vector of row
 * vectors; its rows always have one common length (the constructors make
 * them so and the row proxies cannot resize a row), so `Mat` keeps them in
 * one two-dimensional array whose first index is the row.
 *
 * The element type is `int` (see module Elements). Operations that throw in
 * C++ return an `Outcome` or a `Result` here; nothing changes before the
 * throw, as in the source.
 */
module La {
  import opened Elements
  import opened LinAlg

  class Vec {
    var n: int
    var a: array?<int>

    /** Storage and size agree: no storage means size 0. */
    ghost predicate Valid()
      reads this
    {
      if a == null then n == 0 else a.Length == n
    }

    /** The elements `a[0..n)`. */
    function Elems(): (s: seq<int>)
      reads this, a
      requires Valid()
      ensures |s| == n
    {
      if a == null then [] else a[..]
    }

    /** `size()` of la.h:88: the number of elements of a consistent vector. */
    function Size(): (size: int)
      reads this, a
      ensures Valid() ==> size == |Elems()|
      ensures a != null && Valid() ==> size == a.Length
    {
      n
    }

    /** `empty()` of la.h:90: a consistent vector is empty exactly when it has no elements. */
    predicate IsEmpty(): (e: bool)
      reads this, a
      ensures Valid() ==> (e <==> Elems() == [])
      ensures e ==> Size() == 0
    {
      n == 0
    }

    /** `_vec()`: size 0, no storage. */
    constructor Empty()
      ensures Valid() && n == 0 && a == null && Elems() == []
    {
      n := 0;
      a := null;
    }

    /** `_vec(n)`: `n` elements whose values are left unspecified. */
    constructor Sized(n: nat)
      ensures Valid() && this.n == n && a != null && fresh(a)
    {
      this.n := n;
      a := new int[n];
    }

    /** `_vec(n, val)`: `n` copies of `val`. */
    constructor Fill(n: nat, val: int)
      ensures Valid() && a != null && fresh(a)
      ensures Elems() == seq(n, _ => val)
    {
      var arr := new int[n];
      for i := 0 to n
        invariant forall k :: 0 <= k < i ==> arr[k] == val
      {
        arr[i] := val;
      }
      this.n := n;
      a := arr;
    }

    /** `_vec(std::initializer_list<U>)`: the listed elements in order. */
    constructor FromList(b: seq<int>)
      ensures Valid() && a != null && fresh(a) && Elems() == b
    {
      var arr := new int[|b|];
      var i := 0;
      while i < |b|
        invariant 0 <= i <= |b|
        invariant arr[..i] == b[..i]
      {
        arr[i] := b[i];
        i := i + 1;
      }
      n := |b|;
      a := arr;
    }

    /** Copy constructor: an element-equal vector with its own storage. */
    constructor Copy(b: Vec)
      requires b.Valid()
      ensures Valid() && n == b.n && a != null && fresh(a) && Elems() == b.Elems()
    {
      var arr := new int[b.n];
      for i := 0 to b.n
        invariant arr[..i] == b.Elems()[..i]
      {
        arr[i] := b.a[i];
      }
      n := b.n;
      a := arr;
    }

    /**
     * Move constructor: takes over `b`'s size and storage and leaves `b`
     * empty. It never reads `b`'s elements, so any `b` is accepted, and a
     * stale size left by the move assignment passes on unchanged.
     */
    constructor Move(b: Vec)
      modifies b
      ensures n == old(b.n) && a == old(b.a)
      ensures old(b.Valid()) ==> Valid() && Elems() == old(b.Elems())
      ensures b.n == 0 && b.a == null && b.Valid()
    {
      n := b.n;
      a := b.a;
      b.a := null;
      b.n := 0;
    }

    /** Copy assignment: self-assignment changes nothing; otherwise an independent copy, also into a moved-from target. */
    method CopyAssign(b: Vec)
      requires b.Valid()
      modifies this
      ensures Valid() && Elems() == old(b.Elems())
      ensures b == this ==> a == old(a)
      ensures b != this ==> a != null && fresh(a) && b.n == old(b.n) && b.a == old(b.a)
    {
      if b == this {
        return;
      }
      n := b.n;
      var arr := new int[n];
      a := arr;
      for i := 0 to n
        invariant a == arr && n == b.n
        invariant arr[..i] == b.Elems()[..i]
      {
        arr[i] := b.a[i];
      }
    }

    /**
     * Move assignment as la.h:75-84 writes it: the elements are copied
     * into fresh storage, `b.a` is set to null, and the second write meant
     * for `b.n` stores into `b.a` again, so `b` keeps its old size with no
     * storage behind it. A self-move ends with no storage as well.
     */
    method MoveAssign(b: Vec)
      requires b.Valid()
      modifies this, b
      ensures b != this ==> Valid() && a != null && fresh(a) && Elems() == old(b.Elems())
      ensures b.a == null && b.n == old(b.n)
      ensures old(b.n) != 0 ==> !b.Valid()
    {
      ghost var src := b.Elems();
      n := b.n;
      var arr := new int[n];
      a := arr;
      for i := 0 to n
        invariant a == arr && n == b.n && b.n == old(b.n)
        invariant b == this ==> b.a == arr
        invariant b != this ==> b.a == old(b.a) && b.Valid() && b.Elems() == src
        invariant b != this ==> arr[..i] == src[..i]
      {
        arr[i] := b.a[i];
      }
      assert b != this ==> arr[..] == src;
      b.a := null;
    }

    /** Move assignment with the evidently intended `b.n = 0`: `b` is left empty and valid. */
    method MoveAssignCorrected(b: Vec)
      requires b.Valid()
      modifies this, b
      ensures b != this ==> Valid() && a != null && fresh(a) && Elems() == old(b.Elems())
      ensures b.a == null && b.n == 0 && b.Valid() && b.Elems() == []
    {
      ghost var src := b.Elems();
      n := b.n;
      var arr := new int[n];
      a := arr;
      for i := 0 to n
        invariant a == arr && n == b.n && b.n == old(b.n)
        invariant b == this ==> b.a == arr
        invariant b != this ==> b.a == old(b.a) && b.Valid() && b.Elems() == src
        invariant b != this ==> arr[..i] == src[..i]
      {
        arr[i] := b.a[i];
      }
      b.a := null;
      b.n := 0;
    }

    /** `v op= x` for a scalar `x`: every element becomes `a[i] op x`. */
    method ScalarUpdate(op: Op, x: int)
      requires Valid() && Defined(op, x)
      modifies a
      ensures Valid() && Elems() == Scale(op, old(Elems()), x)
    {
      if a == null {
        return;
      }
      for i := 0 to n
        invariant forall k :: 0 <= k < i ==> a[k] == Apply(op, old(a[k]), x)
        invariant forall k :: i <= k < n ==> a[k] == old(a[k])
      {
        a[i] := Apply(op, a[i], x);
      }
      assert a[..] == Scale(op, old(a[..]), x);
    }

    /**
     * `v op= x` for a vector `x`: on a size mismatch throws "operand size
     * mismatch" with nothing changed; otherwise element `i` becomes
     * `a[i] op x[i]`, the size is unchanged, and so is `x` unless it shares
     * this vector's storage.
     */
    method Update(op: Op, x: Vec) returns (out: Outcome)
      requires Valid() && x.Valid()
      requires n == x.n ==> DefinedAll(op, x.Elems())
      modifies a
      ensures Valid() && x.Valid()
      ensures out == if n == x.n then Pass else Fail(OperandSizeMismatch)
      ensures out.Fail? ==> Elems() == old(Elems())
      ensures out.Pass? ==> Elems() == Zip(op, old(Elems()), old(x.Elems()))
      ensures x.a != a ==> x.Elems() == old(x.Elems())
    {
      if n != x.n {
        return Fail(OperandSizeMismatch);
      }
      out := Pass;
      if n == 0 {
        return;
      }
      ghost var s, t := a[..], x.a[..];
      for i := 0 to n
        invariant forall k :: 0 <= k < i ==> a[k] == Apply(op, s[k], t[k])
        invariant forall k :: i <= k < n ==> a[k] == s[k] && x.a[k] == t[k]
        invariant x.a != a ==> x.a[..] == t
      {
        a[i] := Apply(op, a[i], x.a[i]);
      }
    }

    /** `v op x` for a vector: a fresh vector equal to "copy, then `op=`"; both operands unchanged. */
    method Combine(op: Op, x: Vec) returns (r: Result<Vec>)
      requires Valid() && x.Valid()
      requires n == x.n ==> DefinedAll(op, x.Elems())
      ensures r.Ok? <==> n == x.n
      ensures r.Err? ==> r.error == OperandSizeMismatch
      ensures r.Ok? ==> fresh(r.value) && r.value.a != null && fresh(r.value.a)
      ensures r.Ok? ==> r.value.Valid() && r.value.Elems() == Zip(op, Elems(), x.Elems())
    {
      var tmp := new Vec.Copy(this);
      var out := tmp.Update(op, x);
      if out.Fail? {
        return Err(out.error);
      }
      return Ok(tmp);
    }

    /** `v op x` for a scalar: a fresh vector with `a[i] op x`; `v` unchanged. */
    method ScalarCombine(op: Op, x: int) returns (r: Vec)
      requires Valid() && Defined(op, x)
      ensures fresh(r) && r.a != null && fresh(r.a)
      ensures r.Valid() && r.Elems() == Scale(op, Elems(), x)
    {
      r := new Vec.Copy(this);
      r.ScalarUpdate(op, x);
    }

    /** Unary minus, written in la.h as `*this * -1`: every element negated. */
    method Negate() returns (r: Vec)
      requires Valid()
      ensures fresh(r) && r.a != null && fresh(r.a) && r.Valid() && r.n == n
      ensures forall i :: 0 <= i < n ==> r.Elems()[i] == -Elems()[i]
    {
      r := ScalarCombine(Mul, -1);
    }

    /** `inner(x)`: throws on a size mismatch, otherwise the sum of `a[i] * x[i]`. */
    method Inner(x: Vec) returns (r: Result<int>)
      requires Valid() && x.Valid()
      ensures r == if n == x.n then Ok(InnerSum(Elems(), x.Elems())) else Err(OperandSizeMismatch)
    {
      if n != x.n {
        return Err(OperandSizeMismatch);
      }
      var z := 0;
      for i := 0 to n
        invariant z == InnerSum(Elems()[..i], x.Elems()[..i])
      {
        InnerSumStep(Elems(), x.Elems(), i);
        z := z + a[i] * x.a[i];
      }
      assert Elems()[..n] == Elems() && x.Elems()[..n] == x.Elems();
      return Ok(z);
    }

    /** `dot(x)`: an alias of `inner`. */
    method Dot(x: Vec) returns (r: Result<int>)
      requires Valid() && x.Valid()
      ensures r.Ok? <==> n == x.n
      ensures r.Err? ==> r.error == OperandSizeMismatch
      ensures r.Ok? ==> r.value == InnerSum(Elems(), x.Elems()) == InnerSum(x.Elems(), Elems())
    {
      r := Inner(x);
      if r.Ok? {
        InnerSumSymmetric(Elems(), x.Elems());
      }
    }

    /** `outer(x)`: empty if either operand is, else the `n x x.n` matrix of products. */
    method Outer(x: Vec) returns (r: Mat)
      requires Valid() && x.Valid()
      ensures fresh(r) && fresh(r.a)
      ensures r.Cells() == if n == 0 || x.n == 0 then [] else LinAlg.Outer(Elems(), x.Elems())
    {
      if n == 0 || x.n == 0 {
        r := new Mat.Empty();
        return;
      }
      r := new Mat.Sized(n, x.n);
      var z := r.a;
      for i := 0 to n
        invariant r.a == z
        invariant forall p, q :: 0 <= p < i && 0 <= q < x.n ==> z[p, q] == a[p] * x.a[q]
      {
        for j := 0 to x.n
          invariant r.a == z
          invariant forall p, q :: 0 <= p < i && 0 <= q < x.n ==> z[p, q] == a[p] * x.a[q]
          invariant forall q :: 0 <= q < j ==> z[i, q] == a[i] * x.a[q]
        {
          z[i, j] := a[i] * x.a[j];
        }
      }
      ghost var o := LinAlg.Outer(Elems(), x.Elems());
      OuterShape(Elems(), x.Elems());
      forall p, q | 0 <= p < n && 0 <= q < x.n ensures r.Cells()[p][q] == o[p][q] {
        assert Elems()[p] == a[p] && x.Elems()[q] == x.a[q];
      }
      SameCells(r.Cells(), o);
    }
  }

  class Mat {
    var a: array2<int>

    /** `rows()` of la.h:297: with no rows there are no columns either. */
    function Rows(): (rows: nat)
      reads this
      ensures rows == 0 ==> Cols() == 0
    {
      a.Length0
    }

    /**
     * `cols()` of la.h:299-303: 0 when there are no rows. `rows() * cols()`
     * counts every stored cell, and no row is shorter than `cols()`; that
     * every row has exactly `cols()` cells is stated by `Cells`.
     */
    function Cols(): (cols: nat)
      reads this
      ensures a.Length0 * cols == a.Length0 * a.Length1
      ensures cols <= a.Length1
    {
      if a.Length0 == 0 then 0 else a.Length1
    }

    /** `empty()` of la.h:334-336: `rows() * cols() == 0`. */
    predicate IsEmpty()
      reads this
      ensures IsEmpty() <==> Rows() == 0 || Cols() == 0
    {
      Rows() * Cols() == 0
    }

    /** The rows, each as the sequence of its cells. */
    function Cells(): (m: seq<seq<int>>)
      reads this, a
      ensures |m| == Rows() && forall i :: 0 <= i < Rows() ==> |m[i]| == Cols()
      ensures Rectangular(m) && Width(m) == Cols()
      ensures forall i, j :: 0 <= i < Rows() && 0 <= j < Cols() ==> m[i][j] == a[i, j]
    {
      seq(a.Length0, i requires 0 <= i < a.Length0 reads this, a =>
        seq(a.Length1, j requires 0 <= i < a.Length0 && 0 <= j < a.Length1 reads this, a => a[i, j]))
    }

    /** `_mat()`: no rows. */
    constructor Empty()
      ensures fresh(a) && Rows() == 0 && Cells() == []
    {
      a := new int[0, 0];
    }

    /** `_mat(n, m)`: `n` rows of `m` cells whose values are left unspecified. */
    constructor Sized(n: nat, m: nat)
      ensures fresh(a) && a.Length0 == n && a.Length1 == m
    {
      a := new int[n, m];
    }

    /** `_mat(n, m, val)`: `n` rows of `m` copies of `val`. */
    constructor Fill(n: nat, m: nat, val: int)
      ensures fresh(a) && a.Length0 == n && a.Length1 == m
      ensures Cells() == Filled(n, m, val)
    {
      var arr := new int[n, m];
      for i := 0 to n
        invariant forall p, q :: 0 <= p < i && 0 <= q < m ==> arr[p, q] == val
      {
        for j := 0 to m
          invariant forall p, q :: 0 <= p < i && 0 <= q < m ==> arr[p, q] == val
          invariant forall q :: 0 <= q < j ==> arr[i, q] == val
        {
          arr[i, j] := val;
        }
      }
      a := arr;
      new;
      SameCells(Cells(), Filled(n, m, val));
    }

    /**
     * `_mat(std::initializer_list<_vec<U>>)`: throws "row size mismatch"
     * when two adjacent rows differ in length; an empty list or an empty
     * first row gives the empty matrix; otherwise the rows as listed.
     */
    static method FromList(rows: seq<seq<int>>) returns (r: Result<Mat>)
      ensures r.Err? <==> exists i :: 0 <= i < |rows| - 1 && |rows[i]| != |rows[i + 1]|
      ensures r.Err? ==> r.error == RowSizeMismatch
      ensures r.Ok? ==> fresh(r.value) && fresh(r.value.a)
      ensures r.Ok? ==> r.value.Cells() == if |rows| == 0 || |rows[0]| == 0 then [] else rows
    {
      if |rows| == 0 {
        var e := new Mat.Empty();
        return Ok(e);
      }
      var i := 0;
      while i + 1 < |rows|
        invariant 0 <= i < |rows|
        invariant forall k :: 0 <= k <= i ==> |rows[k]| == |rows[0]|
        invariant forall k :: 0 <= k < i ==> |rows[k]| == |rows[k + 1]|
      {
        if |rows[i]| != |rows[i + 1]| {
          return Err(RowSizeMismatch);
        }
        i := i + 1;
      }
      var w := |rows[0]|;
      if w == 0 {
        var e := new Mat.Empty();
        return Ok(e);
      }
      var m := new Mat.Sized(|rows|, w);
      var arr := m.a;
      for p := 0 to |rows|
        invariant m.a == arr
        invariant forall s, t :: 0 <= s < p && 0 <= t < w ==> arr[s, t] == rows[s][t]
      {
        for q := 0 to w
          invariant m.a == arr
          invariant forall s, t :: 0 <= s < p && 0 <= t < w ==> arr[s, t] == rows[s][t]
          invariant forall t :: 0 <= t < q ==> arr[p, t] == rows[p][t]
        {
          arr[p, q] := rows[p][q];
        }
      }
      SameCells(m.Cells(), rows);
      return Ok(m);
    }

    /** `m op= x` for a scalar `x`: every cell becomes `a[i][j] op x`. */
    method ScalarUpdate(op: Op, x: int)
      requires Defined(op, x)
      modifies a
      ensures Rows() == old(Rows()) && Cols() == old(Cols())
      ensures Cells() == ScaleRows(op, old(Cells()), x)
    {
      ghost var c := Cells();
      var r, w := Rows(), Cols();
      for i := 0 to r
        invariant forall p, q :: 0 <= p < i && 0 <= q < w ==> a[p, q] == Apply(op, c[p][q], x)
        invariant forall p, q :: i <= p < r && 0 <= q < w ==> a[p, q] == c[p][q]
      {
        for j := 0 to w
          invariant forall p, q :: 0 <= p < i && 0 <= q < w ==> a[p, q] == Apply(op, c[p][q], x)
          invariant forall q :: 0 <= q < j ==> a[i, q] == Apply(op, c[i][q], x)
          invariant forall p, q :: i <= p < r && 0 <= q < w && (p > i || q >= j) ==> a[p, q] == c[p][q]
        {
          a[i, j] := Apply(op, a[i, j], x);
        }
      }
      SameCells(Cells(), ScaleRows(op, c, x));
    }

    /**
     * `m op= x` for a matrix `x`: on a shape mismatch throws "operand size
     * mismatch" with nothing changed; otherwise cell `(i, j)` becomes
     * `a[i][j] op x[i][j]` and `x` is unchanged unless it shares this storage.
     */
    method Update(op: Op, x: Mat) returns (out: Outcome)
      requires Rows() == x.Rows() && Cols() == x.Cols() ==> DefinedRows(op, x.Cells())
      modifies a
      ensures Rows() == old(Rows()) && Cols() == old(Cols())
      ensures out == if Rows() == x.Rows() && Cols() == x.Cols() then Pass else Fail(OperandSizeMismatch)
      ensures out.Fail? ==> Cells() == old(Cells())
      ensures out.Pass? ==> Cells() == ZipRows(op, old(Cells()), old(x.Cells()))
      ensures x.a != a ==> x.Cells() == old(x.Cells())
    {
      if Rows() != x.Rows() || Cols() != x.Cols() {
        return Fail(OperandSizeMismatch);
      }
      out := Pass;
      ghost var c, d := Cells(), x.Cells();
      var r, w := Rows(), Cols();
      for i := 0 to r
        invariant forall p, q :: 0 <= p < i && 0 <= q < w ==> a[p, q] == Apply(op, c[p][q], d[p][q])
        invariant forall p, q :: i <= p < r && 0 <= q < w ==> a[p, q] == c[p][q] && x.a[p, q] == d[p][q]
        invariant x.a != a ==> x.Cells() == d
      {
        UpdateRow(a, i, op, x.a);
      }
      SameCells(Cells(), ZipRows(op, c, d));
    }

    /** Copy construction of a matrix (the implicit `_mat` copy): equal cells, own storage. */
    constructor Copy(b: Mat)
      ensures fresh(a) && a.Length0 == b.a.Length0 && a.Length1 == b.a.Length1
      ensures Cells() == b.Cells()
    {
      var r, w := b.a.Length0, b.a.Length1;
      var arr := new int[r, w];
      for i := 0 to r
        invariant forall p, q :: 0 <= p < i && 0 <= q < w ==> arr[p, q] == b.a[p, q]
      {
        for j := 0 to w
          invariant forall p, q :: 0 <= p < i && 0 <= q < w ==> arr[p, q] == b.a[p, q]
          invariant forall q :: 0 <= q < j ==> arr[i, q] == b.a[i, q]
        {
          arr[i, j] := b.a[i, j];
        }
      }
      a := arr;
      new;
      SameCells(Cells(), b.Cells());
    }

    /** `m op x` for a matrix: a fresh matrix equal to "copy, then `op=`"; both operands unchanged. */
    method Combine(op: Op, x: Mat) returns (r: Result<Mat>)
      requires Rows() == x.Rows() && Cols() == x.Cols() ==> DefinedRows(op, x.Cells())
      ensures r.Ok? <==> Rows() == x.Rows() && Cols() == x.Cols()
      ensures r.Err? ==> r.error == OperandSizeMismatch
      ensures r.Ok? ==> fresh(r.value) && fresh(r.value.a) && r.value.Rows() == Rows() && r.value.Cols() == Cols()
      ensures r.Ok? ==> r.value.Cells() == ZipRows(op, Cells(), x.Cells())
    {
      var tmp := new Mat.Copy(this);
      var out := tmp.Update(op, x);
      if out.Fail? {
        return Err(out.error);
      }
      return Ok(tmp);
    }

    /** `m op x` for a scalar: a fresh matrix with `a[i][j] op x`; `m` unchanged. */
    method ScalarCombine(op: Op, x: int) returns (r: Mat)
      requires Defined(op, x)
      ensures fresh(r) && fresh(r.a) && r.Rows() == Rows() && r.Cols() == Cols()
      ensures r.Cells() == ScaleRows(op, Cells(), x)
    {
      r := new Mat.Copy(this);
      r.ScalarUpdate(op, x);
    }

    /**
     * `dot(x)` with a matrix: empty if either operand is empty; throws when
     * `cols() != x.rows()`; otherwise the `rows() x x.cols()` product.
     */
    method DotMat(x: Mat) returns (r: Result<Mat>)
      ensures IsEmpty() || x.IsEmpty() ==> r.Ok? && fresh(r.value) && fresh(r.value.a) && r.value.Cells() == []
      ensures !IsEmpty() && !x.IsEmpty() && Cols() != x.Rows() ==> r == Err(OperandSizeMismatch)
      ensures !IsEmpty() && !x.IsEmpty() && Cols() == x.Rows() ==>
                r.Ok? && fresh(r.value) && fresh(r.value.a) && r.value.Cells() == MatMul(Cells(), x.Cells())
    {
      if IsEmpty() || x.IsEmpty() {
        var e := new Mat.Empty();
        return Ok(e);
      }
      if Cols() != x.Rows() {
        return Err(OperandSizeMismatch);
      }
      var tmp := MatProduct(x);
      return Ok(tmp);
    }

    /** The triple loop of `dot(x)` for operands whose shapes agree. */
    method MatProduct(x: Mat) returns (tmp: Mat)
      requires Cols() == x.Rows()
      ensures fresh(tmp) && fresh(tmp.a) && tmp.Cells() == MatMul(Cells(), x.Cells())
    {
      ghost var A, B := Cells(), x.Cells();
      ghost var P := MatMul(A, B);
      var rows, cols := Rows(), x.Cols();
      tmp := new Mat.Fill(rows, cols, 0);
      var t := tmp.a;
      for i := 0 to rows
        invariant tmp.a == t
        invariant forall p, k :: 0 <= p < i && 0 <= k < cols ==> t[p, k] == P[p][k]
        invariant forall p, k :: i <= p < rows && 0 <= k < cols ==> t[p, k] == 0
      {
        ProductRow(x, t, i, A, B);
      }
      SameCells(tmp.Cells(), P);
    }

    /** Row `i` of `dot(x)`, accumulated into the zeroed row `i` of `t`. */
    method ProductRow(x: Mat, t: array2<int>, i: nat, ghost A: seq<seq<int>>, ghost B: seq<seq<int>>)
      requires Cols() == x.Rows() && t != a && t != x.a && A == Cells() && B == x.Cells()
      requires t.Length0 == Rows() && t.Length1 == x.Cols() && i < Rows()
      requires forall k :: 0 <= k < t.Length1 ==> t[i, k] == 0
      modifies t
      ensures forall p, k :: 0 <= p < t.Length0 && 0 <= k < t.Length1 ==>
                t[p, k] == if p == i then MatMul(A, B)[i][k] else old(t[p, k])
    {
      forall k | 0 <= k < t.Length1 ensures PartialProduct(A, B, i, k, 0) == 0 {
        PartialProductZero(A, B, i, k);
      }
      for j := 0 to Cols()
        invariant forall p, k :: 0 <= p < t.Length0 && 0 <= k < t.Length1 ==>
                    t[p, k] == if p == i then PartialProduct(A, B, i, k, j) else old(t[p, k])
      {
        AddScaledRow(t, i, a[i, j], x.a, j);
        forall k | 0 <= k < t.Length1
          ensures t[i, k] == PartialProduct(A, B, i, k, j + 1)
        {
          PartialProductStep(A, B, i, k, j);
        }
      }
      forall k | 0 <= k < t.Length1 ensures PartialProduct(A, B, i, k, Cols()) == MatMul(A, B)[i][k] {
        PartialProductFull(A, B, i, k);
      }
    }

    /**
     * `dot(x)` with a vector: empty if either operand is empty; throws when
     * `cols() != x.size()`; otherwise the length-`rows()` product.
     */
    method DotVec(x: Vec) returns (r: Result<Vec>)
      requires x.Valid()
      ensures IsEmpty() || x.n == 0 ==> r.Ok? && fresh(r.value) && r.value.a == null && r.value.Valid() && r.value.Elems() == []
      ensures !IsEmpty() && x.n != 0 && Cols() != x.n ==> r == Err(OperandSizeMismatch)
      ensures !IsEmpty() && x.n != 0 && Cols() == x.n ==>
                r.Ok? && fresh(r.value) && r.value.a != null && fresh(r.value.a)
                && r.value.Valid() && r.value.Elems() == MatVec(Cells(), x.Elems())
    {
      if IsEmpty() || x.n == 0 {
        var e := new Vec.Empty();
        return Ok(e);
      }
      if Cols() != x.n {
        return Err(OperandSizeMismatch);
      }
      var tmp := VecProduct(x);
      return Ok(tmp);
    }

    /** The double loop of `dot(x)` for a non-empty vector whose length is `cols()`. */
    method VecProduct(x: Vec) returns (tmp: Vec)
      requires x.Valid() && x.n != 0 && Cols() == x.n
      ensures fresh(tmp) && tmp.a != null && fresh(tmp.a) && tmp.Valid() && tmp.Elems() == MatVec(Cells(), x.Elems())
    {
      ghost var A, v := Cells(), x.Elems();
      var rows, cols := Rows(), Cols();
      tmp := new Vec.Fill(rows, 0);
      var t := tmp.a;
      for i := 0 to rows
        invariant tmp.a == t && tmp.n == rows
        invariant forall p :: 0 <= p < i ==> t[p] == InnerSum(A[p], v)
        invariant forall p :: i <= p < rows ==> t[p] == 0
      {
        assert A[i] == RowOf(a, i);
        AddRowDot(t, i, a, x.a);
      }
      assert tmp.Elems() == MatVec(A, v);
    }

    /** `T()`: empty for an empty matrix, otherwise the `cols() x rows()` transpose. */
    method Transposed() returns (r: Mat)
      ensures fresh(r) && fresh(r.a)
      ensures r.Cells() == if IsEmpty() then [] else Transpose(Cells())
    {
      if IsEmpty() {
        r := new Mat.Empty();
        return;
      }
      var rows, cols := Rows(), Cols();
      r := new Mat.Sized(cols, rows);
      var t := r.a;
      for i := 0 to rows
        invariant r.a == t
        invariant forall p, q :: 0 <= p < i && 0 <= q < cols ==> t[q, p] == a[p, q]
      {
        for j := 0 to cols
          invariant r.a == t
          invariant forall p, q :: 0 <= p < i && 0 <= q < cols ==> t[q, p] == a[p, q]
          invariant forall q :: 0 <= q < j ==> t[q, i] == a[i, q]
        {
          t[j, i] := a[i, j];
        }
      }
      SameCells(r.Cells(), Transpose(Cells()));
    }

    /** `id(n)`: the `n x n` matrix with 1 on the diagonal and 0 elsewhere. */
    static method Id(n: nat) returns (r: Mat)
      ensures fresh(r) && fresh(r.a) && r.Rows() == n && r.Cells() == Identity(n)
    {
      r := new Mat.Fill(n, n, 0);
      var t := r.a;
      for i := 0 to n
        invariant r.a == t
        invariant forall p, q :: 0 <= p < n && 0 <= q < n ==> t[p, q] == if p == q && p < i then 1 else 0
      {
        t[i, i] := 1;
      }
      SameCells(r.Cells(), Identity(n));
    }
  }

  /** Row `i` of a two-dimensional array. */
  function RowOf(m: array2<int>, i: nat): (r: seq<int>)
    reads m
    requires i < m.Length0
    ensures |r| == m.Length1 && forall j :: 0 <= j < m.Length1 ==> r[j] == m[i, j]
  {
    seq(m.Length1, j requires 0 <= j < m.Length1 reads m => m[i, j])
  }

  /**
   * The inner loop of `_mat::operator op=`: row `i` of `t` becomes
   * `t[i][j] op s[i][j]`; `s` may be `t` itself.
   */
  method UpdateRow(t: array2<int>, i: nat, op: Op, s: array2<int>)
    requires i < t.Length0 && t.Length0 == s.Length0 && t.Length1 == s.Length1
    requires forall q :: 0 <= q < s.Length1 ==> Defined(op, s[i, q])
    modifies t
    ensures forall p, q :: 0 <= p < t.Length0 && 0 <= q < t.Length1 ==>
              t[p, q] == if p == i then Apply(op, old(t[p, q]), old(s[p, q])) else old(t[p, q])
    ensures s != t ==> forall p, q :: 0 <= p < s.Length0 && 0 <= q < s.Length1 ==> s[p, q] == old(s[p, q])
  {
    for j := 0 to t.Length1
      invariant forall p, q :: 0 <= p < t.Length0 && 0 <= q < t.Length1 ==>
                  t[p, q] == if p == i && q < j then Apply(op, old(t[p, q]), old(s[p, q])) else old(t[p, q])
      invariant s != t ==> forall p, q :: 0 <= p < s.Length0 && 0 <= q < s.Length1 ==> s[p, q] == old(s[p, q])
    {
      t[i, j] := Apply(op, t[i, j], s[i, j]);
    }
  }

  /**
   * The inner loop of `_mat::dot(vec)`: `t[i]` gains the inner product of
   * row `i` of `m` with `v`; every other entry keeps its value.
   */
  method AddRowDot(t: array<int>, i: nat, m: array2<int>, v: array<int>)
    requires t != v && i < t.Length && i < m.Length0 && m.Length1 == v.Length
    modifies t
    ensures t[i] == old(t[i]) + InnerSum(RowOf(m, i), v[..])
    ensures forall p :: 0 <= p < t.Length && p != i ==> t[p] == old(t[p])
  {
    ghost var row := RowOf(m, i);
    for j := 0 to m.Length1
      invariant t[i] == old(t[i]) + InnerSum(row[..j], v[..j])
      invariant forall p :: 0 <= p < t.Length && p != i ==> t[p] == old(t[p])
    {
      InnerSumStep(row, v[..], j);
      t[i] := t[i] + m[i, j] * v[j];
    }
    assert row[..m.Length1] == row && v[..m.Length1] == v[..];
  }

  /**
   * The innermost loop of `_mat::dot`: row `i` of `t` gains `c` times row
   * `j` of `b`; every other cell keeps its value.
   */
  method AddScaledRow(t: array2<int>, i: nat, c: int, b: array2<int>, j: nat)
    requires t != b && i < t.Length0 && j < b.Length0 && t.Length1 == b.Length1
    modifies t
    ensures forall p, q :: 0 <= p < t.Length0 && 0 <= q < t.Length1 ==>
              t[p, q] == if p == i then old(t[p, q]) + c * b[j, q] else old(t[p, q])
  {
    for k := 0 to t.Length1
      invariant forall p, q :: 0 <= p < t.Length0 && 0 <= q < t.Length1 ==>
                  t[p, q] == if p == i && q < k then old(t[p, q]) + c * b[j, q] else old(t[p, q])
    {
      t[i, k] := t[i, k] + c * b[j, k];
    }
  }

  /** Transposing a non-empty matrix twice with `T()` gives back its cells. */
  method TransposeTwice(m: Mat) returns (r: Mat)
    requires !m.IsEmpty()
    ensures fresh(r) && fresh(r.a) && r.Cells() == m.Cells()
  {
    var t := m.Transposed();
    TransposeShape(m.Cells());
    r := t.Transposed();
    TransposeInvolutive(m.Cells());
  }

  /** After the move assignment of la.h:75-84, a three-element source still reports size 3 with no storage. */
  method MoveAssignLeavesStaleSize() returns (src: Vec)
    ensures src.n == 3 && src.a == null && !src.Valid()
  {
    var dst := new Vec.Empty();
    src := new Vec.Fill(3, 7);
    dst.MoveAssign(src);
  }

  /**
   * Move-constructing from a vector emptied by the move assignment of
   * la.h:75-84 hands its stale size on: the new vector reports size 3 and
   * has no storage.
   */
  method MoveAfterMoveAssign() returns (v: Vec)
    ensures v.n == 3 && v.a == null && !v.Valid()
  {
    var dst := new Vec.Empty();
    var src := new Vec.Fill(3, 7);
    dst.MoveAssign(src);
    v := new Vec.Move(src);
  }
}
