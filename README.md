# A verified model of the iopp host library, device runtime and kernels

iopp is a small C++ library for dense linear algebra on the host and on an
OpenCL device. This project models its core in Dafny and proves properties
of the model. The core has four files:

- `la.h`: the host vector `_vec<T>` and matrix `_mat<U>`.
- `iopp.h` and `iopp.cpp`: the device runtime. This is the context with its
  buffer pool and kernel cache, the launch-size policy, the argument binder,
  and the device value types `cl_vec` and `cl_mat`.
- `kernels.c`: the six OpenCL kernels.

The Dafny modules follow those files:

| module | file | models |
|---|---|---|
| `Elements` | elements.dfy | the element operators `+ - * /` with C++ integer division; the thrown strings as `Error`; `Outcome` and `Result` for operations that can throw |
| `LinAlg` | linalg.dfy | what a vector or matrix means: element-wise maps, inner and outer product, transpose, matrix products, identity, column-major layout; the algebra the library relies on |
| `La` | la.dfy | `la.h`: class `Vec` (fields `n` and `a`, as in `_vec`) and class `Mat` (rows in one `array2`), with every constructor and operator of `_vec` and `_mat` and the two assignments of `_vec` as methods proved against `LinAlg` |
| `Kernels` | kernels.dfy | `kernels.c`: one method per work item holding the kernel body, and a launch method that runs the items in order; coverage lemmas connect a launch to the host operation it computes |
| `Runtime` | runtime.dfy | `iopp.h`/`iopp.cpp`: class `Context` (pool, kernel cache, handle counter, driver command log), the launch sizes, argument binding, and classes `ClVec` and `ClMat` |

Modelling choices:

- **Element type.** `la.h` is a template, and `float` is only its final
  typedef. The model instantiates the element type with unbounded integers.
  Division is C++ integer division, which truncates toward zero.
- **Matrices.** A `_mat` is a vector of rows, and its rows always share
  one length: the constructors make them so, and a row proxy cannot resize
  a row. `Mat` therefore keeps the cells in one `array2<int>`.
- **Errors.** An operation that throws in C++ returns `Fail(e)` or `Err(e)`.
  Its contract states what happened before the throw. In la.h and in
  `cl_vec::set` and `operator-` the check comes first, so nothing changes.
  `run_kernel_impl` with more than two dims fetches (and maybe creates) the
  kernel and binds every argument before it throws (iopp.cpp:131-132
  before iopp.cpp:115). The contract of `Runtime.Context.RunKernelImpl`
  states those calls.
- **OpenCL.** The driver is not modelled. Every handle is a number drawn
  from the counter `issued`. Every driver call the runtime makes is
  appended to `log` as a `Command`. So the contracts can say which calls
  are made, in which order and with which arguments.
- **Launches.** The work items of one launch write disjoint indices
  (`Kernels.ChunksDisjoint` for the vector kernels, `Kernels.MtTilesDisjoint`
  for `mt`, one output index per id for `mvdot`). A sequential
  loop over the work-item ids therefore ends in the same buffers as any
  parallel schedule.
- **Pool and copies.** The pool is keyed by element count, not by bytes
  (iopp.cpp:73, iopp.cpp:176). `cl_vec` declares no copy operations, so an
  implicit copy shares its buffer with its source (see
  `Runtime.DoubleRecycleServesTwice`). Move assignment of `_vec` does not
  empty its source (la.h:82, see Findings).

## Model

| member | source | states |
|---|---|---|
| Elements.TruncDiv | la.h:123-127 | `x / y` on integers for `y != 0`: the remainder is smaller than the divisor in magnitude and has the sign of `x`, and the quotient times `y` does not exceed `x` in magnitude (truncation toward zero) |
| Elements.TruncDivRemainder | la.h:123-127 | the remainder of the truncated quotient is `Abs(x) % Abs(y)` with the sign of `x`, and `Abs(q * y)` is the largest multiple of `Abs(y)` not above `Abs(x)` |
| Elements.Apply | la.h:105-127 | the element operators: `+` is undone by `-` and the other way round, `*` multiplies, and `/` leaves a remainder smaller than the divisor that never exceeds `x` in magnitude |
| LinAlg.InnerSumStep | la.h:216-218 | one more round of the accumulation loop adds exactly `a[i] * x[i]` to the sum |
| LinAlg.InnerSumSymmetric | la.h:223-225 | the inner product is symmetric, so `v.dot(x) == x.dot(v)` |
| LinAlg.InnerSumUnit | la.h:498-503 | the inner product with a row of `id(n)` selects one element |
| LinAlg.Transpose | la.h:486-496 | the transpose of an `r x c` matrix has `c` rows of length `r` |
| LinAlg.TransposeShape | la.h:490 | the transpose of a non-empty rectangular `r x c` matrix is a rectangular `c x r` matrix |
| LinAlg.TransposeInvolutive | la.h:486-496 | transposing a non-empty rectangular matrix twice gives the matrix back |
| LinAlg.OuterShape | la.h:232 | the outer product of non-empty `u` and `v` is a rectangular matrix with one row per element of `u` and one column per element of `v` |
| LinAlg.OuterTranspose | la.h:228-239 | the transpose of `u.outer(v)` is `v.outer(u)` |
| LinAlg.MatMulShape | la.h:462 | the product of an `r x c` and a `c x l` matrix is an `r x l` matrix |
| LinAlg.PartialProductStep | la.h:464-466 | one round of the middle loop of `dot` adds `a[i][j] * x[j][k]` to entry `(i, k)` |
| LinAlg.PartialProductFull | la.h:463-466 | after all rounds the accumulated entry is entry `(i, k)` of the product |
| LinAlg.PartialProductZero | la.h:462 | before any round the entry is the 0 that `_mat(rows, cols, 0)` stores |
| LinAlg.IdentityShape | la.h:498-499 | `id(n)` is a rectangular `n x n` matrix |
| LinAlg.MatVecIdentity | la.h:498-503 | `id(n).dot(v) == v` for every non-empty `v` of length `n` |
| LinAlg.MatMulIdentity | la.h:498-503 | `id(n).dot(b) == b` for every non-empty rectangular `b` with `n` rows |
| LinAlg.AddThenSubtract | la.h:185-195 | `(v + x) - x == v` for vectors of one size |
| LinAlg.OffsetValue | kernels.c:43 | the column-major offset of cell `(i, j)` with `rows` rows is `i + j * rows` |
| LinAlg.ColumnMajorCell | kernels.c:59 | in a column-major layout, cell `(i, j)` is stored at offset `i + j * rows` and holds `m[i][j]` |
| LinAlg.ExampleProduct | test.cpp:59-66 | `[[1,2,3,4],[5,6,7,8],[9,10,11,12]]` times `[[1,2],[3,4],[5,6],[7,8]]` is `[[50,60],[114,140],[178,220]]` |
| LinAlg.SumOfFour | test.cpp:59-66 | a four-term inner product is the four products added up |
| LinAlg.ExampleOuter | test.cpp:68-74 | `[1,2,3,4]` outer `[91,108,-44]` is `4 x 3` with corners 91 and -176 |
| La.Vec.Elems | la.h:18-19 | the elements are exactly `n` values |
| La.Vec.Size | la.h:88 | `size()` of a consistent vector is the number of its elements, the length of its storage |
| La.Vec.Empty | la.h:30 | `_vec()` has size 0 and no storage |
| La.Vec.IsEmpty | la.h:90 | `empty()` of a consistent vector holds exactly when it has no elements |
| La.Vec.Sized | la.h:32 | `_vec(n)` has size `n` and fresh storage of `n` elements |
| La.Vec.Fill | la.h:34-37 | `_vec(n, val)` has `n` elements, every one `val`, in fresh storage |
| La.Vec.FromList | la.h:53-61 | the initializer-list vector holds the listed elements in order |
| La.Vec.Copy | la.h:43-46 | the copy has the same size and elements and its own storage |
| La.Vec.Move | la.h:48-51 | any `b` is accepted, a moved-from one included: the new vector takes over `b`'s size and storage, with `b`'s elements when `b` was consistent; `b` is left with size 0 and no storage |
| La.Vec.CopyAssign | la.h:63-73 | any target is accepted, a moved-from one included; self-assignment changes nothing; otherwise `this` gets `b`'s elements in fresh storage and `b` is untouched |
| La.Vec.MoveAssign | la.h:75-84 | as written: `this` gets `b`'s elements in fresh storage, `b.a` becomes null, but `b.n` keeps its old value, so a non-empty `b` is left inconsistent |
| La.Vec.MoveAssignCorrected | la.h:75-84 | with line 82 writing `b.n = 0`: `this` gets `b`'s elements and `b` is left empty and consistent |
| La.MoveAssignLeavesStaleSize | la.h:81-82 | after moving a three-element vector its source reports size 3 with no storage |
| La.MoveAfterMoveAssign | la.h:48-51 | move-constructing from a vector the move assignment left behind passes the stale size on: size 3 with no storage |
| La.Vec.ScalarUpdate | la.h:105-127 | `v op= x`: every element becomes `a[i] op x`; the size is unchanged |
| La.Vec.Update | la.h:156-182 | `v op= x`: on a size mismatch it throws "operand size mismatch" with nothing changed; otherwise element `i` becomes `a[i] op x[i]`, and `x` is unchanged unless it shares the storage |
| La.Vec.Combine | la.h:185-207 | `v op x`: the result is `Ok` exactly when the sizes agree, and is then a fresh vector, with fresh storage, of `a[i] op x[i]`; on a mismatch it throws "operand size mismatch" |
| La.Vec.ScalarCombine | la.h:131-153 | `v op x` for a scalar: a fresh vector, with fresh storage, of `a[i] op x` |
| La.Vec.Negate | la.h:209-211 | `-v`: a fresh vector with fresh storage, of the same size, with every element negated |
| La.Vec.Inner | la.h:214-220 | `inner(x)` throws "operand size mismatch" on a size mismatch, otherwise it is the sum of `a[i] * x[i]` |
| La.Vec.Dot | la.h:223-225 | `dot(x)` succeeds exactly when the sizes agree, otherwise it throws "operand size mismatch"; its value is `inner(x)`, which is also `x.dot(v)` |
| La.Vec.Outer | la.h:228-239 | `outer(x)` is empty if either operand is empty, otherwise the `n x x.n` matrix with cell `(i, j) = a[i] * x[j]` |
| La.Mat.Rows | la.h:297 | `rows()`; with no rows `cols()` is 0 |
| La.Mat.Cols | la.h:299-303 | `rows() * cols()` is the number of stored cells, and no row is shorter than `cols()`; that every row has exactly `cols()` cells is the contract of `La.Mat.Cells` |
| La.Mat.IsEmpty | la.h:334-336 | `empty()` holds exactly when there are no rows or no columns |
| La.Mat.Cells | la.h:297-303 | the cells form a rectangular matrix of `rows()` rows of `cols()` cells |
| La.Mat.Empty | la.h:290 | `_mat()` has no rows |
| La.Mat.Sized | la.h:292 | `_mat(n, m)` has `n` rows of `m` cells |
| La.Mat.Fill | la.h:294-295 | `_mat(n, m, val)` has `n` rows of `m` copies of `val` |
| La.Mat.FromList | la.h:305-332 | the initializer-list matrix throws "row size mismatch" exactly when two adjacent rows differ in length; an empty list or an empty first row gives the empty matrix; otherwise its rows are the listed rows |
| La.Mat.Copy | la.h:374 | the implicit copy of a matrix has the same shape and cells in its own storage |
| La.Mat.ScalarUpdate | la.h:343-369 | `m op= x`: every cell becomes `a[i][j] op x`; the shape is unchanged |
| La.Mat.Update | la.h:398-428 | `m op= x`: on a shape mismatch it throws "operand size mismatch" with nothing changed; otherwise cell `(i, j)` becomes `a[i][j] op x[i][j]`, and `x` is unchanged unless it shares the storage |
| La.UpdateRow | la.h:400-402 | the inner loop of `op=` updates row `i` only, also when both operands are one matrix |
| La.Mat.Combine | la.h:431-453 | `m op x`: `Ok` exactly when the shapes agree, and then a fresh matrix, with fresh storage, of `a[i][j] op x[i][j]`; on a mismatch it throws "operand size mismatch" |
| La.Mat.ScalarCombine | la.h:373-395 | `m op x` for a scalar: a fresh matrix, with fresh storage, of `a[i][j] op x` |
| La.Mat.DotMat | la.h:455-469 | `dot(x)` is a fresh empty matrix if either operand is empty; it throws "operand size mismatch" when `cols() != x.rows()`; otherwise it is the matrix product in fresh storage |
| La.Mat.MatProduct | la.h:462-468 | the triple loop leaves the matrix product in a fresh matrix with fresh storage |
| La.Mat.ProductRow | la.h:464-466 | after the loops for row `i`, row `i` of the result is row `i` of the product and every other row is unchanged |
| La.AddScaledRow | la.h:465-466 | the innermost loop adds `a[i][j]` times row `j` of `x` to row `i` and changes nothing else |
| La.Mat.DotVec | la.h:471-484 | `dot(x)` with a vector is a fresh empty vector with no storage if either operand is empty; it throws "operand size mismatch" when `cols() != x.size()`; otherwise it is the matrix-vector product in fresh storage |
| La.Mat.VecProduct | la.h:478-483 | the double loop leaves the matrix-vector product in a fresh vector with fresh storage |
| La.AddRowDot | la.h:480-481 | the inner loop adds the inner product of row `i` with `x` to `tmp[i]` and changes nothing else |
| La.Mat.Transposed | la.h:486-496 | `T()` is a fresh matrix with fresh storage: empty for an empty matrix, otherwise the `cols() x rows()` matrix with `tmp[j][i] = a[i][j]` |
| La.TransposeTwice | la.h:486-496 | `m.T().T()` is a fresh matrix with fresh storage and the cells of `m`, for every non-empty `m` |
| La.Mat.Id | la.h:498-503 | `id(n)` is a fresh `n x n` matrix with fresh storage, 1 on the diagonal and 0 elsewhere |
| Kernels.ChunksDisjoint | kernels.c:9-10 | no index lies in the chunks of two different work items |
| Kernels.ChunksCover | kernels.c:9-13 | a launch writes an index below `n` exactly when some launched work item has it in its chunk |
| Kernels.LaunchCoversAll | kernels.c:9-13 | with at least `n / 4` (rounded up) work items every index below `n` is written |
| Kernels.VCopyItem | kernels.c:4-15 | work item `g` of `vcopy` sets `b[j] = a[j]` on `[4g, 4g + 4)` below `n`, changes nothing else, and leaves `a` unchanged |
| Kernels.VCopy | kernels.c:4-15 | a launch of `vcopy` copies exactly the written indices; with enough items `b[..n] == a[..n]` |
| Kernels.VSubItem | kernels.c:17-29 | work item `g` of `vsub` sets `c[j] = a[j] - b[j]` on its chunk below `n` and nowhere else, also when `c` is an operand |
| Kernels.VSub | kernels.c:17-29 | a launch of `vsub` writes exactly the indices below `min(n, 4 * items)`; with enough items `c[..n]` is the host's `a - b` |
| Kernels.VSmulItem | kernels.c:64-76 | work item `g` of `vsmul` sets `b[j] = a[j] * y` on its chunk below `n` and nowhere else |
| Kernels.VSmul | kernels.c:64-76 | a launch of `vsmul` writes exactly the written indices; with enough items `b[..n]` is the host's `a * y` |
| Kernels.VSubcItem | kernels.c:78-89 | work item `g` of `vsubc` does `a[j] -= b[j]` on its chunk below `n`; `b` is unchanged unless it is `a` |
| Kernels.VSubc | kernels.c:78-89 | a launch of `vsubc` updates exactly the written indices; with enough items `a[..n]` is the host's `a -= b` |
| Kernels.FlatIndex | kernels.c:43 | cell `(ii, jj)` of an `n x m` matrix is at `jj + ii * m`, below `n * m`, and is recovered by `/ m` and `% m` |
| Kernels.CellOf | kernels.c:43 | every index below `n * m` is cell `(k / m, k % m)` of an `n x m` matrix |
| Kernels.MtSource | kernels.c:43 | the index `mt` reads for output index `k` lies below `n * m` |
| Kernels.CoversStep | kernels.c:41-45 | widening the column range by one adds exactly the cell `(ii, jj)`, if it exists |
| Kernels.MtCell | kernels.c:42-44 | the guarded store of `mt` writes `b[jj + ii * m] = a[ii + jj * n]` only when `ii < n` and `jj < m` |
| Kernels.MtTileRow | kernels.c:41-45 | the inner loop of `mt` writes exactly the cells of source row `ii` in columns `[j, j + 2)` inside the matrix |
| Kernels.MtItem | kernels.c:37-46 | work item `(gi, gj)` of `mt` writes exactly the cells of its 2x2 tile inside the matrix |
| Kernels.Mt | kernels.c:31-47 | a launch of `mt` over `gx x gy` items writes exactly the cells with source row below `2 gx` and column below `2 gy`, each from its transposed position |
| Kernels.MtTilesDisjoint | kernels.c:37-46 | no output index lies in the 2x2 tiles of two different work items of `mt` |
| Kernels.MtCoversAll | kernels.c:37-46 | with at least half as many items as rows and columns, `mt` writes every index below `n * m` |
| Kernels.MtCells | kernels.c:43 | once every index is written, `b` is the transposed layout of `a` |
| Kernels.MtIsTranspose | kernels.c:31-47 | if `a` holds matrix `A` column-major, then `b` holds the host's `A.T()` column-major |
| Kernels.Strided | kernels.c:58-59 | the entries `a[i], a[i + n], ...` that work item `i` of `mvdot` reads, one per round |
| Kernels.StridedPrefix | kernels.c:58-59 | one more round of `mvdot` reads exactly one more entry, `a[i + j * n]` |
| Kernels.MvDotItem | kernels.c:49-62 | work item `i` of `mvdot` stores the sum of `a[i + j * n] * b[j]` over `j < m` into `c[i]` and changes nothing else |
| Kernels.MvDot | kernels.c:49-62 | a launch of `mvdot` with `items <= n` fills `c[0..items)` with those sums and changes nothing else |
| Kernels.MvDotIsMatVec | kernels.c:56-61 | if `a` holds `A` column-major, the value of work item `i` is entry `i` of the host's `A.dot(b)` |
| Runtime.ArgSize | iopp.cpp:131 | the `sizeof(T)` of an argument is 8 for a buffer handle and 4 for an `int` or `float` |
| Runtime.RoundUp | iopp.cpp:105 | `(d + q - 1) / q * q` is the least multiple of `q` that is at least `d` |
| Runtime.WorkSizes | iopp.cpp:102-116 | 0 dims give `dc = gws = lws = 1`; 1 dim gives `lws = 16`; 2 dims give `lws = 4` per axis; more throw "invalid number of dimensions"; every axis covers its size with less than one group to spare |
| Runtime.OneDimLaunchOverrunsMvDot | iopp.cpp:104-107 | a one-dimensional launch over `n` ids launches ids beyond `n` unless 16 divides `n`, which `mvdot` has no guard against |
| Runtime.TwoDimLaunchCoversMt | iopp.cpp:108-113 | a two-dimensional launch over `[n, m]` gives `mt` enough work items to write every index below `n * m` and no other |
| Runtime.Bindings | iopp.cpp:127-133 | the `clSetKernelArg` calls of the recursive binder, one per argument |
| Runtime.Launch | iopp.cpp:97-133 | after the kernel is known: one `SetArg` for argument `i` at slot `cnt + i`, then `Enqueue` with `WorkSizes(dims)` and `Finish` exactly when there are at most two dims |
| Runtime.Ran | iopp.cpp:127-133 | a run only appends to the log, issues at most one handle (the kernel that `get_kernel` creates on a cache miss), and changes neither the cache nor the counter when the kernel was cached or is not needed |
| Runtime.BindingsSlots | iopp.cpp:127-138 | argument `i` is bound to slot `cnt + i` with its own size, one slot per argument, in call order |
| Runtime.LaunchStep | iopp.cpp:127-133 | binding the first argument and then the rest from the next slot gives the whole launch |
| Runtime.RanStep | iopp.cpp:127-133 | fetching the kernel, binding one argument and running the rest from the next slot is one run over all the arguments |
| Runtime.Bucket | iopp.cpp:73 | `available_buffers[len]` reads a missing bucket as empty, and every handle in a bucket is in the pool |
| Runtime.Served | iopp.cpp:73-79 | `new_buffer(len)` serves a handle exactly when bucket `len` is not empty, and it is the last one: popping it leaves the rest of the bucket |
| Runtime.Allocation | iopp.cpp:73-75 | `new_buffer(len)` calls `clCreateBuffer` for `len * 4` bytes on the next handle exactly when the bucket serves nothing |
| Runtime.PoolAfterTake | iopp.cpp:72-81 | `new_buffer(len)` pops the last handle of bucket `len`, leaves an empty bucket when there was none, and leaves every other bucket unchanged |
| Runtime.PoolAfterPut | iopp.cpp:175-177 | `recycle(n, mem)` pushes `mem` on bucket `n` and changes no other bucket |
| Runtime.RecycleThenTake | iopp.cpp:175-177 | the pool is last-in first-out: after `recycle(n, mem)` the next `new_buffer(n)` serves `mem` and restores every bucket |
| Runtime.DoubleRecycleServesTwice | iopp.cpp:169-177 | a handle recycled twice, as by a `cl_vec` and an implicit copy of it, is served to two later `new_buffer(n)` calls |
| Runtime.TakeKeepsPoolOk | iopp.cpp:77-79 | taking from a consistent pool hands out a handle of `len` elements that nobody holds, and keeps the pool consistent |
| Runtime.PutKeepsPoolOk | iopp.cpp:175-177 | returning a held handle of the right size keeps the pool consistent |
| Runtime.Context.constructor | iopp.cpp:64-70 | a new context has an empty pool, an empty kernel cache and no buffers |
| Runtime.Context.GetKernel | iopp.cpp:58-62 | `get_kernel(name)` creates and caches a kernel only when `name` is not cached; otherwise it returns the cached kernel and changes nothing |
| Runtime.Context.NewBuffer | iopp.cpp:72-81 | with a non-empty bucket it returns the most recently recycled handle and creates nothing; otherwise it creates a buffer of `len * sizeof(cl_float)` bytes; either way the handle was held by nobody |
| Runtime.Context.Recycle | iopp.cpp:175-177 | `recycle(n, mem)` pushes `mem` on bucket `n` and makes no driver call |
| Runtime.Context.Vec | iopp.cpp:93-95 | `vec(n)` makes a `cl_vec` of `n` elements on the handle `new_buffer(n)` gives: the last handle of bucket `n` with no driver call, or else a newly issued handle with one `clCreateBuffer` of `n * 4` bytes |
| Runtime.Context.Mat | iopp.cpp:89-91 | `mat(n, m)` makes a `cl_mat` of `n x m` elements on the handle `new_buffer(n * m)` gives, with the same driver calls as `vec(n * m)` |
| Runtime.Context.RunKernelBase | iopp.cpp:97-125 | with no arguments left it throws for more than two dims before any launch; otherwise it fetches the kernel, enqueues it with `WorkSizes(dims)` and waits |
| Runtime.Context.RunKernelImpl | iopp.cpp:127-133 | the driver calls are the kernel creation if it was not cached, one `clSetKernelArg` per argument from slot `cnt`, then the launch and `clFinish` unless the dims are rejected |
| Runtime.Context.RunKernel | iopp.cpp:135-138 | `run_kernel` binds the arguments from slot 0 |
| Runtime.ClVec.constructor | iopp.cpp:86-87 | a `cl_vec` records its context, buffer and length |
| Runtime.ClMat.constructor | iopp.cpp:83-84 | a `cl_mat` records its context, buffer and shape |
| Runtime.ClVec.Set | iopp.cpp:140-147 | `set(v)` throws "operand size mismatch" with no driver call unless `v` has `n` elements; otherwise it writes `v` into `mem` and waits |
| Runtime.ClVec.Get | iopp.cpp:157-163 | `get()` returns a fresh host vector with fresh storage of `n` elements after one blocking read of `mem` |
| Runtime.ClVec.Minus | iopp.cpp:149-155 | as written: throws "operand size mismatch" with nothing changed when the lengths differ; otherwise it takes a `cl_vec` of `b.n` elements from bucket `n` of the pool, binds `(mem, b.mem, r.mem, n)` to slots 0 to 3 of `vsub`, and launches it with one work item; the command log is exactly those calls; the cache gains only `vsub`, a cached `vsub` is kept, and the handle counter and byte sizes change only by the new buffer and kernel |
| Runtime.ClVec.MinusCorrected | iopp.cpp:149-155 | with `{n}` as the dims: the same pool draw and bindings as `Minus`, but `vsub` is launched with the sizes of a one-dimensional launch over `n`; the same frame on the cache, the counter and the byte sizes |
| Runtime.ClVec.MinusWith | iopp.cpp:149-155 | the shared body: size check with nothing changed on a mismatch, then a vector from bucket `n`, `(mem, b.mem, r.mem, n)` bound to slots 0 to 3 of `vsub`, and the launch over the given dims; the command log is exactly those calls; only `vsub` enters the cache, and the counter and byte sizes change only by what was created |
| Runtime.ClVec.Destroy | iopp.cpp:169-173 | `~cl_vec` gives `(n, mem)` back to the pool exactly when `context` is set, and changes nothing else: no driver call, the same cache, counter and byte sizes, so a live buffer of `n` elements leaves the context consistent |
| Runtime.ReuseAfterDestroy | iopp.cpp:169-177 | after `~cl_vec`, the next `vec(n)` of the same size gets the same buffer with no driver call, and the context stays consistent |
| Runtime.MinusAsWrittenLeavesTail | iopp.cpp:153 | with no dims `vsub` gets one work item, which writes only indices 0 to 3; for `n > 4` index 4 is never written |
| Runtime.CorrectedMinusCoversAll | iopp.cpp:153 | launched over `[n]`, `vsub` writes every index below `n` |

## Left out

- OpenCL driver calls are not modelled. Handles are numbers from a counter, and the calls are a command log. Allocation failure and driver errors are not modelled.
- The context constructor's platform, device, context, queue and program setup is not modelled (iopp.cpp:64-70). `get_program` reads `kernels.c` from a file and is not part of this model.
- The contents of device buffers are not tracked by `Runtime`. What a launch computes is modelled by `Kernels`, and the lemmas on `WorkSizes` connect the two.
- Runtime.ClVec.Get: the contents of the returned vector come from the device, so only its length is stated.
- Floating point is not modelled. Elements are unbounded integers, so there is no rounding and no overflow.
- Division by zero is undefined for integers, so the division forms of the operators require nonzero divisors. With `float` the source would produce infinities.
- Integer widths are not modelled. `int` sizes, the `n * m` of `mat(n, m)`, the `size_t` launch sizes and index arithmetic in the kernels are unbounded, and sizes are non-negative.
- `cl_mem` is taken to be 8 bytes in `clSetKernelArg`, as on a 64-bit host.
- The `std::cerr` diagnostic in `run_kernel_impl` (iopp.cpp:118) and the `operator<<` printers of la.h are stream output and are left out.
- The storage accessors of `_vec` (`begin`, `end`, `operator[]`) and the row proxies of `_mat` are represented by direct array access.
- Deallocation (`delete[]`, `~_vec`) is left to the garbage collector. Leaks and double frees are not modelled.
- Implicit copies of `cl_vec`, including the copy returned by `operator-`, are not modelled as operations. Runtime.DoubleRecycleServesTwice shows what two destructors of one handle do to the pool.
- Runtime.ClVec.constructor: Dafny has no protected constructors or friends, so the model cannot restrict creation to `Context.Vec`. The ownership invariant is stated for values made by the factories.
- Parallel execution of the work items is not modelled. The items of one launch write disjoint indices, so they run one after the other.
- Kernels.MvDot: `mvdot` has no bound check on `c[i]`. A launch with ids at or beyond `n` writes out of bounds, which is undefined behaviour, so the model requires `items <= n`.
- Kernels.Mt: the model requires distinct input and output buffers, as the kernel assumes.
- Kernels.MvDotItem and Kernels.MvDot: the model requires the output buffer `c` to differ from the inputs `a` and `b`. With `c` aliasing an input, a work item's store would change what later items read, and the result would depend on the schedule.
- The copy and move assignments of `_mat` are not modelled. They are the implicit member-wise ones of `_vec<_vec<U>> a` (la.h:256). The move assignment therefore inherits the la.h:82 defect: a moved-from `_mat` keeps its `rows()` with no storage, and `cols()` then dereferences null. `Mat` keeps its cells in one two-dimensional array, which cannot express that state.
- mnist.cpp (file input, training), stopwatch.h (timing) and the benchmarks of test.cpp are not part of this model. They use a `cl_mat`/`cl_vec` API that iopp.h does not declare. The two worked examples of test.cpp:59-74 are stated as lemmas on the host library instead.
- `opencl_context()` (iopp.cpp:165-167) only returns a new context; it is `Runtime.Context.constructor`.

## Findings

| source | as written | input that shows it | evidently intended | confidence | as-written member | corrected member |
|---|---|---|---|---|---|---|
| la.h:82 | the move assignment writes `b.a = 0` after `b.a = nullptr`, so `b.n` keeps its old value | moving from a vector of 3 elements leaves the source with `n == 3` and no storage; its `size()` is 3 and indexing it dereferences null | `b.n = 0`, as the move constructor does at la.h:50 | high, not executed | La.Vec.MoveAssign, La.MoveAssignLeavesStaleSize | La.Vec.MoveAssignCorrected |
| iopp.cpp:153 | `operator-` launches `vsub` with empty dims, which `run_kernel_impl` turns into one work item | two `cl_vec` of 5 elements: the one work item writes indices 0 to 3, and index 4 of the result is never computed | dims `{n}`, so that the launch covers every element | high, not executed | Runtime.ClVec.Minus, Runtime.MinusAsWrittenLeavesTail | Runtime.ClVec.MinusCorrected, Runtime.CorrectedMinusCoversAll |
