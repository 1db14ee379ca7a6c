/**
 * The device runtime of iopp.h / iopp.cpp: the `_opencl_context` with its
 * buffer pool and kernel cache, the launch-size policy and argument binder
 * of `run_kernel_impl`, and the device value types `cl_vec` and `cl_mat`.
 *
 * OpenCL itself is not modelled. Every handle (`cl_mem`, `cl_kernel`) is an
 * opaque number drawn from a counter, and every driver call the runtime
 * makes is appended to a command log, so the contracts can say which calls
 * are made, in which order and with which arguments.
 */
module Runtime {
  import opened Elements
  import La
  import opened Kernels

  /** A `cl_mem` buffer handle. */
  type Mem = nat

  /** A `cl_kernel` handle. */
  type Kernel = nat

  /** `LOCAL_SIZE`: the work-group size of a one-dimensional launch. */
  const LOCAL_SIZE: nat := 16

  /** `LOCAL_SIZE_SQRT`: the work-group size per axis of a two-dimensional launch. */
  const LOCAL_SIZE_SQRT: nat := 4

  /** `sizeof(cl_float)`, the bytes of one element on the device. */
  const FLOAT_SIZE: nat := 4

  /** The work dimension `dc` and the global and local sizes per axis. */
  datatype LaunchSize = LaunchSize(dc: nat, gws: seq<nat>, lws: seq<nat>)

  /** A kernel argument: a buffer handle, an `int` or a `float` (an integer here). */
  datatype Arg = MemArg(mem: Mem) | IntArg(i: int) | FloatArg(f: int)

  /** The `sizeof(T)` passed to `clSetKernelArg`; a `cl_mem` is a 64-bit pointer. */
  function ArgSize(arg: Arg): (size: nat)
    ensures size == 4 || size == 8
  {
    match arg
    case MemArg(_) => 8
    case IntArg(_) => 4
    case FloatArg(_) => 4
  }

  /** A driver call the runtime makes. */
  datatype Command =
    | CreateBuffer(mem: Mem, bytes: nat)
    | CreateKernel(kernel: Kernel, name: string)
    | SetArg(kernel: Kernel, slot: int, size: nat, arg: Arg)
    | Enqueue(kernel: Kernel, launch: LaunchSize)
    | Finish
    | WriteBuffer(mem: Mem, bytes: nat, data: seq<int>)
    | ReadBuffer(mem: Mem, bytes: nat)

  // ---------------------------------------------------------------------
  // Launch sizes
  // ---------------------------------------------------------------------

  /** `(d + q - 1) / q * q`: `d` rounded up to a multiple of `q`. */
  function RoundUp(d: nat, q: nat): (g: nat)
    requires q > 0
    ensures d <= g && g - d < q && g % q == 0
  {
    var g := (d + q - 1) / q * q;
    assert d + q - 1 == g + (d + q - 1) % q;
    DivModUnique(g, q, (d + q - 1) / q, 0);
    g
  }

  /** Axis size `g` with group size `l` covers `d` ids with less than one group to spare. */
  predicate Fits(d: nat, g: nat, l: nat) {
    l > 0 && d <= g && g - d < l && g % l == 0
  }

  /**
   * The sizes `run_kernel_impl` passes to `clEnqueueNDRangeKernel` for
   * `dims`, or the error it throws for more than two dimensions.
   */
  function WorkSizes(dims: seq<nat>): (r: Result<LaunchSize>)
    ensures r.Ok? <==> |dims| <= 2
    ensures r.Err? ==> r.error == InvalidNumberOfDimensions
    ensures r.Ok? ==> r.value.dc == (if |dims| == 0 then 1 else |dims|)
    ensures r.Ok? ==> |r.value.gws| == r.value.dc && |r.value.lws| == r.value.dc
    ensures r.Ok? ==> forall k :: 0 <= k < |dims| ==> Fits(dims[k], r.value.gws[k], r.value.lws[k])
    ensures |dims| == 0 ==> r == Ok(LaunchSize(1, [1], [1]))
    ensures |dims| == 1 ==> r.value.lws == [LOCAL_SIZE]
    ensures |dims| == 2 ==> r.value.lws == [LOCAL_SIZE_SQRT, LOCAL_SIZE_SQRT]
  {
    if |dims| == 0 then
      Ok(LaunchSize(1, [1], [1]))
    else if |dims| == 1 then
      Ok(LaunchSize(1, [RoundUp(dims[0], LOCAL_SIZE)], [LOCAL_SIZE]))
    else if |dims| == 2 then
      Ok(LaunchSize(2, [RoundUp(dims[0], LOCAL_SIZE_SQRT), RoundUp(dims[1], LOCAL_SIZE_SQRT)],
                       [LOCAL_SIZE_SQRT, LOCAL_SIZE_SQRT]))
    else
      Err(InvalidNumberOfDimensions)
  }

  /**
   * `mvdot` writes `c[i]` for every launched id without a bound check. A
   * one-dimensional launch over `n` ids rounds up to a multiple of 16, so
   * unless 16 divides `n` it launches ids at and beyond `n`.
   */
  lemma OneDimLaunchOverrunsMvDot(n: nat)
    requires n % LOCAL_SIZE != 0
    ensures WorkSizes([n]).Ok? && WorkSizes([n]).value.gws[0] > n
  {
    assert Fits(n, WorkSizes([n]).value.gws[0], LOCAL_SIZE);
  }

  /** A two-dimensional launch over `[n, m]` gives `mt` enough work items to write every index. */
  lemma TwoDimLaunchCoversMt(k: int, n: nat, m: nat)
    ensures var r := WorkSizes([n, m]);
            r.Ok? && (Covers(k, n, m, 0, 2 * r.value.gws[0], 0, 2 * r.value.gws[1]) <==> m > 0 && 0 <= k < n * m)
  {
    var r := WorkSizes([n, m]);
    assert Fits(n, r.value.gws[0], LOCAL_SIZE_SQRT) && Fits(m, r.value.gws[1], LOCAL_SIZE_SQRT);
    MtCoversAll(k, n, m, r.value.gws[0], r.value.gws[1]);
  }

  // ---------------------------------------------------------------------
  // Argument binding
  // ---------------------------------------------------------------------

  /** The `clSetKernelArg` calls for `args`, starting at slot `cnt`: one call per argument. */
  function Bindings(k: Kernel, cnt: int, args: seq<Arg>): (r: seq<Command>)
    ensures |r| == |args|
    decreases |args|
  {
    if |args| == 0 then []
    else [SetArg(k, cnt, ArgSize(args[0]), args[0])] + Bindings(k, cnt + 1, args[1..])
  }

  /** Argument `i` is bound to slot `cnt + i` with its own size, in call order. */
  lemma {:induction false} BindingsSlots(k: Kernel, cnt: int, args: seq<Arg>)
    ensures |Bindings(k, cnt, args)| == |args|
    ensures forall i :: 0 <= i < |args| ==>
              Bindings(k, cnt, args)[i] == SetArg(k, cnt + i, ArgSize(args[i]), args[i])
    decreases |args|
  {
    if |args| > 0 {
      BindingsSlots(k, cnt + 1, args[1..]);
      forall i | 0 <= i < |args|
        ensures Bindings(k, cnt, args)[i] == SetArg(k, cnt + i, ArgSize(args[i]), args[i])
      {
        if i > 0 {
          assert Bindings(k, cnt, args)[i] == Bindings(k, cnt + 1, args[1..])[i - 1];
          assert args[1..][i - 1] == args[i];
        }
      }
    }
  }

  /**
   * What `run_kernel_impl` sends after the kernel is known: the argument
   * bindings, then, unless the dimensions are rejected, the launch and a
   * `clFinish`.
   */
  function Launch(k: Kernel, dims: seq<nat>, cnt: int, args: seq<Arg>): (r: seq<Command>)
    ensures |r| == |args| + (if |dims| <= 2 then 2 else 0)
    ensures forall i :: 0 <= i < |args| ==> r[i] == SetArg(k, cnt + i, ArgSize(args[i]), args[i])
    ensures |dims| <= 2 ==> r[|args|] == Enqueue(k, WorkSizes(dims).value) && r[|args| + 1] == Finish
  {
    BindingsSlots(k, cnt, args);
    Bindings(k, cnt, args) + (if WorkSizes(dims).Ok? then [Enqueue(k, WorkSizes(dims).value), Finish] else [])
  }

  /** Binding the first argument, then the rest from the next slot, is the whole launch. */
  lemma LaunchStep(k: Kernel, dims: seq<nat>, cnt: int, args: seq<Arg>)
    requires |args| > 0
    ensures Launch(k, dims, cnt, args) == [SetArg(k, cnt, ArgSize(args[0]), args[0])] + Launch(k, dims, cnt + 1, args[1..])
  {
  }

  /** `run_kernel_impl` asks for the kernel when it binds an argument or launches. */
  predicate NeedsKernel(dims: seq<nat>, args: seq<Arg>) {
    |args| > 0 || |dims| <= 2
  }

  /** The `clCreateKernel` call `get_kernel` makes when `name` is not cached. */
  function Creation(cache: map<string, Kernel>, name: string, k: Kernel): seq<Command> {
    if name in cache then [] else [CreateKernel(k, name)]
  }

  /**
   * The effect of a `run_kernel_impl` call that takes the kernel cache,
   * command log and handle counter from `cache0`, `log0`, `issued0` to
   * `cache`, `log`, `issued`: when it needs the kernel, the kernel is
   * fetched (and created if it was not cached) and the launch commands
   * follow; otherwise nothing changes.
   */
  predicate Ran(cache0: map<string, Kernel>, log0: seq<Command>, issued0: nat,
                cache: map<string, Kernel>, log: seq<Command>, issued: nat,
                name: string, dims: seq<nat>, cnt: int, args: seq<Arg>): (ran: bool)
    ensures ran ==> |log0| <= |log| && log[..|log0|] == log0
    ensures ran ==> issued0 <= issued <= issued0 + 1
    ensures ran && (name in cache0 || !NeedsKernel(dims, args)) ==> cache == cache0 && issued == issued0
  {
    if NeedsKernel(dims, args) then
      && name in cache
      && cache == cache0[name := cache[name]]
      && (name in cache0 ==> cache[name] == cache0[name])
      && log == log0 + Creation(cache0, name, cache[name]) + Launch(cache[name], dims, cnt, args)
      && issued == issued0 + |Creation(cache0, name, cache[name])|
    else
      cache == cache0 && log == log0 && issued == issued0
  }

  /**
   * Fetching the kernel, binding the first argument to slot `cnt` and
   * running the rest from slot `cnt + 1` is a run over all the arguments.
   */
  lemma RanStep(cache0: map<string, Kernel>, log0: seq<Command>, issued0: nat, k: Kernel,
                cache1: map<string, Kernel>, log1: seq<Command>, issued1: nat,
                cache2: map<string, Kernel>, log2: seq<Command>, issued2: nat,
                name: string, dims: seq<nat>, cnt: int, args: seq<Arg>)
    requires |args| > 0
    requires name in cache1 && cache1 == cache0[name := k] && (name in cache0 ==> k == cache0[name])
    requires issued1 == issued0 + |Creation(cache0, name, k)|
    requires log1 == log0 + Creation(cache0, name, k) + [SetArg(k, cnt, ArgSize(args[0]), args[0])]
    requires Ran(cache1, log1, issued1, cache2, log2, issued2, name, dims, cnt + 1, args[1..])
    ensures Ran(cache0, log0, issued0, cache2, log2, issued2, name, dims, cnt, args)
  {
    LaunchStep(k, dims, cnt, args);
    if NeedsKernel(dims, args[1..]) {
      assert cache2[name] == k && cache2 == cache1;
      assert log2 == log1 + Launch(k, dims, cnt + 1, args[1..]);
    } else {
      assert Launch(k, dims, cnt + 1, args[1..]) == [];
    }
    assert log2 == log0 + Creation(cache0, name, k) + Launch(k, dims, cnt, args);
  }

  // ---------------------------------------------------------------------
  // The buffer pool as a value
  // ---------------------------------------------------------------------

  /** The list for element count `k`; `operator[]` reads a missing one as empty. */
  function Bucket(pool: map<nat, seq<Mem>>, k: nat): (b: seq<Mem>)
    ensures k !in pool ==> b == []
    ensures forall mem :: mem in b ==> k in pool && mem in pool[k]
  {
    if k in pool then pool[k] else []
  }

  /**
   * The pool after `new_buffer(len)`: the last handle of bucket `len` is
   * popped; `operator[]` leaves an empty bucket behind when there was none.
   */
  function PoolAfterTake(pool: map<nat, seq<Mem>>, len: nat): (p: map<nat, seq<Mem>>)
    ensures len in p && p.Keys == pool.Keys + {len}
    ensures Bucket(pool, len) == [] ==> p[len] == []
    ensures Bucket(pool, len) != [] ==> p[len] + [Bucket(pool, len)[|Bucket(pool, len)| - 1]] == Bucket(pool, len)
    ensures forall k :: k != len ==> Bucket(p, k) == Bucket(pool, k)
  {
    var b := Bucket(pool, len);
    if b == [] then pool[len := []] else pool[len := b[..|b| - 1]]
  }

  /** The pool after `recycle(n, mem)`: `mem` is pushed on bucket `n`. */
  function PoolAfterPut(pool: map<nat, seq<Mem>>, n: nat, mem: Mem): (p: map<nat, seq<Mem>>)
    ensures Bucket(p, n) == Bucket(pool, n) + [mem]
    ensures forall k :: k != n ==> Bucket(p, k) == Bucket(pool, k)
  {
    pool[n := Bucket(pool, n) + [mem]]
  }

  /** The handle `new_buffer(len)` serves from the pool, if the bucket is not empty. */
  function Served(pool: map<nat, seq<Mem>>, len: nat): (s: Option<Mem>)
    ensures s.Some? <==> Bucket(pool, len) != []
    ensures s.Some? ==> Bucket(PoolAfterTake(pool, len), len) + [s.value] == Bucket(pool, len)
  {
    var b := Bucket(pool, len);
    if b == [] then None else Some(b[|b| - 1])
  }

  datatype Option<T> = None | Some(value: T)

  /**
   * The driver calls `new_buffer(len)` makes: none when the bucket serves a
   * handle, otherwise one `clCreateBuffer` of `len * sizeof(cl_float)`
   * bytes whose handle is the next one issued.
   */
  function Allocation(pool: map<nat, seq<Mem>>, len: nat, issued: nat): (r: seq<Command>)
    ensures Served(pool, len).Some? <==> r == []
    ensures Served(pool, len).None? ==> r == [CreateBuffer(issued, len * FLOAT_SIZE)]
  {
    if Bucket(pool, len) == [] then [CreateBuffer(issued, len * FLOAT_SIZE)] else []
  }

  /**
   * The pool is last-in first-out: after `recycle(n, mem)` the next
   * `new_buffer(n)` serves `mem` and leaves bucket `n` as it was.
   */
  lemma RecycleThenTake(pool: map<nat, seq<Mem>>, n: nat, mem: Mem)
    ensures Served(PoolAfterPut(pool, n, mem), n) == Some(mem)
    ensures forall k :: Bucket(PoolAfterTake(PoolAfterPut(pool, n, mem), n), k) == Bucket(pool, k)
  {
    var p := PoolAfterPut(pool, n, mem);
    var q := PoolAfterTake(p, n);
    assert Bucket(q, n) + [mem] == Bucket(pool, n) + [mem];
    assert Bucket(q, n) == (Bucket(q, n) + [mem])[..|Bucket(q, n)|];
  }

  /**
   * Recycling one handle twice, as the destructors of a `cl_vec` and of an
   * implicit copy of it do, lets two later `new_buffer(n)` calls serve the
   * same handle: two owners of one device buffer.
   */
  lemma DoubleRecycleServesTwice(pool: map<nat, seq<Mem>>, n: nat, mem: Mem)
    ensures var p := PoolAfterPut(PoolAfterPut(pool, n, mem), n, mem);
            Served(p, n) == Some(mem) && Served(PoolAfterTake(p, n), n) == Some(mem)
  {
    var p1 := PoolAfterPut(pool, n, mem);
    RecycleThenTake(p1, n, mem);
    RecycleThenTake(pool, n, mem);
  }

  /**
   * Every pooled handle is a buffer of `k` elements in bucket `k`, is held
   * by no live device value, and sits in one slot only.
   */
  ghost predicate PoolOk(pool: map<nat, seq<Mem>>, bytes: map<Mem, nat>, owned: set<Mem>) {
    && (forall k, i :: k in pool && 0 <= i < |pool[k]| ==>
          pool[k][i] in bytes && bytes[pool[k][i]] == k * FLOAT_SIZE && pool[k][i] !in owned)
    && (forall k, i, j :: k in pool && 0 <= i < j < |pool[k]| ==> pool[k][i] != pool[k][j])
  }

  /** Taking from a consistent pool keeps it consistent and hands out a handle nobody holds. */
  lemma TakeKeepsPoolOk(pool: map<nat, seq<Mem>>, bytes: map<Mem, nat>, owned: set<Mem>, len: nat)
    requires PoolOk(pool, bytes, owned) && Served(pool, len).Some?
    ensures var mem := Served(pool, len).value;
            && mem in bytes && bytes[mem] == len * FLOAT_SIZE && mem !in owned
            && PoolOk(PoolAfterTake(pool, len), bytes, owned + {mem})
  {
    var b := Bucket(pool, len);
    var mem := b[|b| - 1];
    var p := PoolAfterTake(pool, len);
    assert p[len] == b[..|b| - 1];
    forall k, i | k in p && 0 <= i < |p[k]|
      ensures p[k][i] in bytes && bytes[p[k][i]] == k * FLOAT_SIZE && p[k][i] !in owned + {mem}
    {
      if k == len {
        assert p[k][i] == pool[len][i];
      } else {
        assert p[k] == pool[k];
      }
    }
  }

  /** Returning a held handle of the right size keeps the pool consistent. */
  lemma PutKeepsPoolOk(pool: map<nat, seq<Mem>>, bytes: map<Mem, nat>, owned: set<Mem>, n: nat, mem: Mem)
    requires PoolOk(pool, bytes, owned) && mem in owned && mem in bytes && bytes[mem] == n * FLOAT_SIZE
    ensures PoolOk(PoolAfterPut(pool, n, mem), bytes, owned - {mem})
  {
    var p := PoolAfterPut(pool, n, mem);
    assert p == pool[n := Bucket(pool, n) + [mem]];
    forall k, i | k in p && 0 <= i < |p[k]|
      ensures p[k][i] in bytes && bytes[p[k][i]] == k * FLOAT_SIZE && p[k][i] !in owned - {mem}
    {
      if k != n {
        assert p[k] == pool[k];
      } else if i < |Bucket(pool, n)| {
        assert p[k][i] == pool[k][i];
      }
    }
    forall k, i, j | k in p && 0 <= i < j < |p[k]|
      ensures p[k][i] != p[k][j]
    {
      if k != n {
        assert p[k] == pool[k];
      } else if j < |Bucket(pool, n)| {
        assert p[k][i] == pool[k][i] && p[k][j] == pool[k][j];
      } else {
        assert p[k][i] == pool[k][i];
      }
    }
  }

  // ---------------------------------------------------------------------
  // The context
  // ---------------------------------------------------------------------

  /**
   * `_opencl_context`: the pool `available_buffers` (element count to a
   * stack of handles) and the memo `kernel_cache` (name to kernel). The
   * fields `issued` and `log` stand for the OpenCL driver; the ghost fields
   * record the byte size of each created buffer and the handles held by
   * live `cl_vec` and `cl_mat` values.
   */
  class Context {
    var availableBuffers: map<nat, seq<Mem>>
    var kernelCache: map<string, Kernel>
    var issued: nat
    var log: seq<Command>
    ghost var bytes: map<Mem, nat>
    ghost var owned: set<Mem>

    /**
     * Handles come from the counter; every kernel and buffer is distinct;
     * live values hold created buffers; the pool is consistent.
     */
    ghost predicate Valid()
      reads this
    {
      && (forall h :: h in bytes ==> h < issued)
      && (forall name :: name in kernelCache ==> kernelCache[name] < issued && kernelCache[name] !in bytes)
      && owned <= bytes.Keys
      && PoolOk(availableBuffers, bytes, owned)
    }

    /** `_opencl_context()`: the driver setup is not modelled; pool and cache start empty. */
    constructor()
      ensures Valid()
      ensures availableBuffers == map[] && kernelCache == map[]
      ensures issued == 0 && log == [] && bytes == map[] && owned == {}
    {
      availableBuffers := map[];
      kernelCache := map[];
      issued := 0;
      log := [];
      bytes := map[];
      owned := {};
    }

    /** `get_kernel(name)`: the cached kernel, created and cached on the first request. */
    method GetKernel(name: string) returns (k: Kernel)
      requires Valid()
      modifies this
      ensures Valid()
      ensures name in kernelCache && k == kernelCache[name]
      ensures old(name in kernelCache) ==> k == old(kernelCache[name]) && kernelCache == old(kernelCache)
      ensures kernelCache == old(kernelCache)[name := k]
      ensures log == old(log) + Creation(old(kernelCache), name, k)
      ensures issued == old(issued) + |Creation(old(kernelCache), name, k)|
      ensures !old(name in kernelCache) ==> k == old(issued)
      ensures availableBuffers == old(availableBuffers) && bytes == old(bytes) && owned == old(owned)
    {
      if name !in kernelCache {
        var created := issued;
        issued := issued + 1;
        log := log + [CreateKernel(created, name)];
        kernelCache := kernelCache[name := created];
      }
      k := kernelCache[name];
    }

    /**
     * `new_buffer(len)`: the most recently recycled handle of bucket `len`,
     * or else a new buffer of `len * sizeof(cl_float)` bytes. Either way the
     * handle was held by no live value and now belongs to the caller.
     */
    method NewBuffer(len: nat) returns (mem: Mem)
      requires Valid()
      modifies this
      ensures Valid()
      ensures availableBuffers == PoolAfterTake(old(availableBuffers), len)
      ensures mem !in old(owned) && owned == old(owned) + {mem}
      ensures mem in bytes && bytes[mem] == len * FLOAT_SIZE
      ensures Served(old(availableBuffers), len).Some? ==>
                mem == Served(old(availableBuffers), len).value
                && issued == old(issued) && log == old(log) && bytes == old(bytes)
      ensures Served(old(availableBuffers), len).None? ==>
                mem == old(issued) && issued == old(issued) + 1
                && log == old(log) + [CreateBuffer(mem, len * FLOAT_SIZE)]
                && bytes == old(bytes)[mem := len * FLOAT_SIZE]
      ensures kernelCache == old(kernelCache)
    {
      if Bucket(availableBuffers, len) == [] {
        availableBuffers := availableBuffers[len := []];
        mem := issued;
        issued := issued + 1;
        log := log + [CreateBuffer(mem, len * FLOAT_SIZE)];
        bytes := bytes[mem := len * FLOAT_SIZE];
        owned := owned + {mem};
        assert PoolOk(availableBuffers, bytes, owned) by {
          assert forall k :: k in availableBuffers && k != len ==> availableBuffers[k] == old(availableBuffers)[k];
        }
      } else {
        var b := availableBuffers[len];
        mem := b[|b| - 1];
        TakeKeepsPoolOk(availableBuffers, bytes, owned, len);
        availableBuffers := availableBuffers[len := b[..|b| - 1]];
        owned := owned + {mem};
      }
    }

    /** `recycle(n, mem)`: push `mem` on bucket `n`; a held handle of `n` elements keeps the pool consistent. */
    method Recycle(n: nat, mem: Mem)
      requires Valid()
      modifies this
      ensures availableBuffers == PoolAfterPut(old(availableBuffers), n, mem)
      ensures owned == old(owned) - {mem}
      ensures kernelCache == old(kernelCache) && issued == old(issued) && log == old(log) && bytes == old(bytes)
      ensures mem in old(owned) && bytes[mem] == n * FLOAT_SIZE ==> Valid()
    {
      if mem in owned && bytes[mem] == n * FLOAT_SIZE {
        PutKeepsPoolOk(availableBuffers, bytes, owned, n, mem);
      }
      availableBuffers := availableBuffers[n := Bucket(availableBuffers, n) + [mem]];
      owned := owned - {mem};
    }

    /** `vec(n)`: a `cl_vec` of `n` elements on a buffer from bucket `n`. */
    method Vec(n: nat) returns (v: ClVec)
      requires Valid()
      modifies this
      ensures Valid() && fresh(v)
      ensures v.context == this && v.n == n && v.mem !in old(owned) && owned == old(owned) + {v.mem}
      ensures bytes[v.mem] == n * FLOAT_SIZE
      ensures availableBuffers == PoolAfterTake(old(availableBuffers), n)
      ensures Served(old(availableBuffers), n).Some? ==>
                v.mem == Served(old(availableBuffers), n).value && bytes == old(bytes)
      ensures Served(old(availableBuffers), n).None? ==>
                v.mem == old(issued) && bytes == old(bytes)[v.mem := n * FLOAT_SIZE]
      ensures log == old(log) + Allocation(old(availableBuffers), n, old(issued))
      ensures issued == old(issued) + |Allocation(old(availableBuffers), n, old(issued))|
      ensures kernelCache == old(kernelCache)
    {
      var mem := NewBuffer(n);
      v := new ClVec(this, mem, n);
    }

    /** `mat(n, m)`: a `cl_mat` of `n × m` elements on a buffer from bucket `n * m`. */
    method Mat(n: nat, m: nat) returns (x: ClMat)
      requires Valid()
      modifies this
      ensures Valid() && fresh(x)
      ensures x.context == this && x.n == n && x.m == m && x.mem !in old(owned) && owned == old(owned) + {x.mem}
      ensures bytes[x.mem] == n * m * FLOAT_SIZE
      ensures availableBuffers == PoolAfterTake(old(availableBuffers), n * m)
      ensures Served(old(availableBuffers), n * m).Some? ==>
                x.mem == Served(old(availableBuffers), n * m).value && bytes == old(bytes)
      ensures Served(old(availableBuffers), n * m).None? ==>
                x.mem == old(issued) && bytes == old(bytes)[x.mem := n * m * FLOAT_SIZE]
      ensures log == old(log) + Allocation(old(availableBuffers), n * m, old(issued))
      ensures issued == old(issued) + |Allocation(old(availableBuffers), n * m, old(issued))|
      ensures kernelCache == old(kernelCache)
    {
      var mem := NewBuffer(n * m);
      x := new ClMat(this, mem, n, m);
    }

    /**
     * `run_kernel_impl(name, dims, cnt)` with no arguments left: throw
     * "invalid number of dimensions" for more than two, otherwise launch
     * the kernel with the sizes of `WorkSizes(dims)` and wait.
     */
    method RunKernelBase(name: string, dims: seq<nat>, cnt: int) returns (o: Outcome)
      requires Valid()
      modifies this
      ensures Valid()
      ensures o == if WorkSizes(dims).Ok? then Pass else Fail(InvalidNumberOfDimensions)
      ensures Ran(old(kernelCache), old(log), old(issued), kernelCache, log, issued, name, dims, cnt, [])
      ensures availableBuffers == old(availableBuffers) && bytes == old(bytes) && owned == old(owned)
    {
      var sizes := WorkSizes(dims);
      if sizes.Err? {
        return Fail(InvalidNumberOfDimensions);
      }
      var k := GetKernel(name);
      log := log + [Enqueue(k, sizes.value), Finish];
      return Pass;
    }

    /**
     * `run_kernel_impl(name, dims, cnt, arg, args...)`: bind `arg` to slot
     * `cnt` of the kernel, then go on with the rest from slot `cnt + 1`.
     */
    method RunKernelImpl(name: string, dims: seq<nat>, cnt: int, args: seq<Arg>) returns (o: Outcome)
      requires Valid()
      modifies this
      decreases |args|
      ensures Valid()
      ensures o == if WorkSizes(dims).Ok? then Pass else Fail(InvalidNumberOfDimensions)
      ensures Ran(old(kernelCache), old(log), old(issued), kernelCache, log, issued, name, dims, cnt, args)
      ensures availableBuffers == old(availableBuffers) && bytes == old(bytes) && owned == old(owned)
    {
      if |args| == 0 {
        o := RunKernelBase(name, dims, cnt);
        return;
      }
      var k := GetKernel(name);
      ghost var cache1, issued1 := kernelCache, issued;
      log := log + [SetArg(k, cnt, ArgSize(args[0]), args[0])];
      ghost var log1 := log;
      o := RunKernelImpl(name, dims, cnt + 1, args[1..]);
      RanStep(old(kernelCache), old(log), old(issued), k, cache1, log1, issued1,
              kernelCache, log, issued, name, dims, cnt, args);
    }

    /** `run_kernel(name, dims, args...)`: binding starts at slot 0. */
    method RunKernel(name: string, dims: seq<nat>, args: seq<Arg>) returns (o: Outcome)
      requires Valid()
      modifies this
      ensures Valid()
      ensures o == if WorkSizes(dims).Ok? then Pass else Fail(InvalidNumberOfDimensions)
      ensures Ran(old(kernelCache), old(log), old(issued), kernelCache, log, issued, name, dims, 0, args)
      ensures availableBuffers == old(availableBuffers) && bytes == old(bytes) && owned == old(owned)
    {
      o := RunKernelImpl(name, dims, 0, args);
    }
  }

  // ---------------------------------------------------------------------
  // Device values
  // ---------------------------------------------------------------------

  /**
   * `cl_vec`: `n` floats in buffer `mem` of `context`. Its constructor is
   * protected, so values come from `Context.Vec`; copies are not modelled.
   */
  class ClVec {
    var context: Context?
    var mem: Mem
    var n: nat

    constructor(context: Context?, mem: Mem, n: nat)
      ensures this.context == context && this.mem == mem && this.n == n
    {
      this.context := context;
      this.mem := mem;
      this.n := n;
    }

    /**
     * `set(v)`: throws "operand size mismatch" unless `v` has `n`
     * elements; otherwise a blocking write of `v` into `mem`, then
     * `clFinish`.
     */
    method Set(v: La.Vec) returns (o: Outcome)
      requires context != null && v.Valid()
      modifies context
      ensures v.n != n ==> o == Fail(OperandSizeMismatch) && context.log == old(context.log)
      ensures v.n == n ==> o == Pass && context.log == old(context.log) + [WriteBuffer(mem, FLOAT_SIZE * n, v.Elems()), Finish]
      ensures context.availableBuffers == old(context.availableBuffers) && context.kernelCache == old(context.kernelCache)
      ensures context.issued == old(context.issued) && context.bytes == old(context.bytes) && context.owned == old(context.owned)
    {
      if n != v.n {
        return Fail(OperandSizeMismatch);
      }
      context.log := context.log + [WriteBuffer(mem, FLOAT_SIZE * n, v.Elems()), Finish];
      return Pass;
    }

    /** `get()`: a fresh host vector of `n` elements, filled by a blocking read of `mem`. */
    method Get() returns (r: La.Vec)
      requires context != null
      modifies context
      ensures fresh(r) && r.a != null && fresh(r.a) && r.Valid() && r.n == n
      ensures context.log == old(context.log) + [ReadBuffer(mem, FLOAT_SIZE * n)]
      ensures context.availableBuffers == old(context.availableBuffers) && context.kernelCache == old(context.kernelCache)
      ensures context.issued == old(context.issued) && context.bytes == old(context.bytes) && context.owned == old(context.owned)
    {
      r := new La.Vec.Sized(n);
      context.log := context.log + [ReadBuffer(mem, FLOAT_SIZE * n)];
    }

    /**
     * `operator-(b)` as written: throws "operand size mismatch" unless the
     * lengths agree; otherwise takes a vector of `b.n` elements from the
     * pool and launches `vsub` on `(mem, b.mem, r.mem, n)` with no
     * dimensions, that is with a single work item.
     */
    method Minus(b: ClVec) returns (r: Result<ClVec>)
      requires context != null && context.Valid()
      modifies context
      ensures context.Valid()
      ensures n != b.n ==> r == Err(OperandSizeMismatch) && unchanged(context)
      ensures n == b.n ==> r.Ok? && fresh(r.value) && r.value.context == context && r.value.n == n
      ensures n == b.n ==> r.value.mem !in old(context.owned) && context.owned == old(context.owned) + {r.value.mem}
      ensures n == b.n ==> context.availableBuffers == PoolAfterTake(old(context.availableBuffers), n)
      ensures n == b.n && Served(old(context.availableBuffers), n).Some? ==>
                r.value.mem == Served(old(context.availableBuffers), n).value
      ensures n == b.n && Served(old(context.availableBuffers), n).None? ==> r.value.mem == old(context.issued)
      ensures n == b.n && Served(old(context.availableBuffers), n).Some? ==> context.bytes == old(context.bytes)
      ensures n == b.n && Served(old(context.availableBuffers), n).None? ==>
                context.bytes == old(context.bytes)[r.value.mem := n * FLOAT_SIZE]
      ensures n == b.n ==> "vsub" in context.kernelCache
      ensures n == b.n ==> context.kernelCache == old(context.kernelCache)["vsub" := context.kernelCache["vsub"]]
      ensures n == b.n && "vsub" in old(context.kernelCache) ==> context.kernelCache["vsub"] == old(context.kernelCache)["vsub"]
      ensures n == b.n ==>
                context.issued == old(context.issued) + |Allocation(old(context.availableBuffers), n, old(context.issued))|
                  + |Creation(old(context.kernelCache), "vsub", context.kernelCache["vsub"])|
      ensures n == b.n ==>
                context.log == old(context.log)
                  + Allocation(old(context.availableBuffers), n, old(context.issued))
                  + Creation(old(context.kernelCache), "vsub", context.kernelCache["vsub"])
                  + Launch(context.kernelCache["vsub"], [], 0, [MemArg(mem), MemArg(b.mem), MemArg(r.value.mem), IntArg(n)])
      ensures n == b.n ==> ("vsub" in context.kernelCache && |context.log| >= 2 &&
                context.log[|context.log| - 2] == Enqueue(context.kernelCache["vsub"], LaunchSize(1, [1], [1])))
    {
      r := MinusWith(b, []);
    }

    /** `operator-(b)` with the launch sized by `n`, so that every element is computed. */
    method MinusCorrected(b: ClVec) returns (r: Result<ClVec>)
      requires context != null && context.Valid()
      modifies context
      ensures context.Valid()
      ensures n != b.n ==> r == Err(OperandSizeMismatch) && unchanged(context)
      ensures n == b.n ==> r.Ok? && fresh(r.value) && r.value.context == context && r.value.n == n
      ensures n == b.n ==> r.value.mem !in old(context.owned) && context.owned == old(context.owned) + {r.value.mem}
      ensures n == b.n ==> context.availableBuffers == PoolAfterTake(old(context.availableBuffers), n)
      ensures n == b.n && Served(old(context.availableBuffers), n).Some? ==>
                r.value.mem == Served(old(context.availableBuffers), n).value
      ensures n == b.n && Served(old(context.availableBuffers), n).None? ==> r.value.mem == old(context.issued)
      ensures n == b.n && Served(old(context.availableBuffers), n).Some? ==> context.bytes == old(context.bytes)
      ensures n == b.n && Served(old(context.availableBuffers), n).None? ==>
                context.bytes == old(context.bytes)[r.value.mem := n * FLOAT_SIZE]
      ensures n == b.n ==> "vsub" in context.kernelCache
      ensures n == b.n ==> context.kernelCache == old(context.kernelCache)["vsub" := context.kernelCache["vsub"]]
      ensures n == b.n && "vsub" in old(context.kernelCache) ==> context.kernelCache["vsub"] == old(context.kernelCache)["vsub"]
      ensures n == b.n ==>
                context.issued == old(context.issued) + |Allocation(old(context.availableBuffers), n, old(context.issued))|
                  + |Creation(old(context.kernelCache), "vsub", context.kernelCache["vsub"])|
      ensures n == b.n ==>
                context.log == old(context.log)
                  + Allocation(old(context.availableBuffers), n, old(context.issued))
                  + Creation(old(context.kernelCache), "vsub", context.kernelCache["vsub"])
                  + Launch(context.kernelCache["vsub"], [n], 0, [MemArg(mem), MemArg(b.mem), MemArg(r.value.mem), IntArg(n)])
      ensures n == b.n ==> ("vsub" in context.kernelCache && |context.log| >= 2 &&
                context.log[|context.log| - 2] == Enqueue(context.kernelCache["vsub"], WorkSizes([n]).value))
    {
      r := MinusWith(b, [n]);
    }

    /** The body shared by `Minus` and `MinusCorrected`, launching `vsub` over `dims`. */
    method MinusWith(b: ClVec, dims: seq<nat>) returns (r: Result<ClVec>)
      requires context != null && context.Valid() && |dims| <= 1
      modifies context
      ensures context.Valid()
      ensures n != b.n ==> r == Err(OperandSizeMismatch) && unchanged(context)
      ensures n == b.n ==> r.Ok? && fresh(r.value) && r.value.context == context && r.value.n == n
      ensures n == b.n ==> r.value.mem !in old(context.owned) && context.owned == old(context.owned) + {r.value.mem}
      ensures n == b.n ==> context.availableBuffers == PoolAfterTake(old(context.availableBuffers), n)
      ensures n == b.n && Served(old(context.availableBuffers), n).Some? ==>
                r.value.mem == Served(old(context.availableBuffers), n).value
      ensures n == b.n && Served(old(context.availableBuffers), n).None? ==> r.value.mem == old(context.issued)
      ensures n == b.n && Served(old(context.availableBuffers), n).Some? ==> context.bytes == old(context.bytes)
      ensures n == b.n && Served(old(context.availableBuffers), n).None? ==>
                context.bytes == old(context.bytes)[r.value.mem := n * FLOAT_SIZE]
      ensures n == b.n ==> "vsub" in context.kernelCache
      ensures n == b.n ==> context.kernelCache == old(context.kernelCache)["vsub" := context.kernelCache["vsub"]]
      ensures n == b.n && "vsub" in old(context.kernelCache) ==> context.kernelCache["vsub"] == old(context.kernelCache)["vsub"]
      ensures n == b.n ==>
                context.issued == old(context.issued) + |Allocation(old(context.availableBuffers), n, old(context.issued))|
                  + |Creation(old(context.kernelCache), "vsub", context.kernelCache["vsub"])|
      ensures n == b.n ==>
                context.log == old(context.log)
                  + Allocation(old(context.availableBuffers), n, old(context.issued))
                  + Creation(old(context.kernelCache), "vsub", context.kernelCache["vsub"])
                  + Launch(context.kernelCache["vsub"], dims, 0, [MemArg(mem), MemArg(b.mem), MemArg(r.value.mem), IntArg(n)])
      ensures n == b.n ==> ("vsub" in context.kernelCache && |context.log| >= 2 &&
                context.log[|context.log| - 2] == Enqueue(context.kernelCache["vsub"], WorkSizes(dims).value))
    {
      if n != b.n {
        return Err(OperandSizeMismatch);
      }
      var v := context.Vec(b.n);
      var args := [MemArg(mem), MemArg(b.mem), MemArg(v.mem), IntArg(n)];
      var o := context.RunKernel("vsub", dims, args);
      assert NeedsKernel(dims, args);
      return Ok(v);
    }

    /**
     * `~cl_vec()`: gives `(n, mem)` back to the pool when `context` is set;
     * with no context the frame is empty and nothing changes.
     */
    method Destroy()
      requires context != null ==> context.Valid()
      modifies context
      ensures context != null ==>
                && context.availableBuffers == PoolAfterPut(old(context.availableBuffers), n, mem)
                && context.owned == old(context.owned) - {mem}
                && context.log == old(context.log) && context.kernelCache == old(context.kernelCache)
                && context.issued == old(context.issued) && context.bytes == old(context.bytes)
      ensures context != null && mem in old(context.owned) && mem in context.bytes && context.bytes[mem] == n * FLOAT_SIZE ==>
                context.Valid()
    {
      if context != null {
        context.Recycle(n, mem);
      }
    }
  }

  /**
   * `cl_mat`: `n × m` floats in buffer `mem`. It declares no destructor, so
   * its buffer never goes back to the pool.
   */
  class ClMat {
    var context: Context?
    var mem: Mem
    var n: nat
    var m: nat

    constructor(context: Context?, mem: Mem, n: nat, m: nat)
      ensures this.context == context && this.mem == mem && this.n == n && this.m == m
    {
      this.context := context;
      this.mem := mem;
      this.n := n;
      this.m := m;
    }
  }

  /**
   * A `cl_vec` that goes out of scope hands its buffer to the next
   * `vec(n)` of the same size: that call makes no driver call, and the
   * context stays consistent throughout.
   */
  method ReuseAfterDestroy(c: Context, n: nat) returns (v: ClVec, w: ClVec)
    requires c.Valid()
    modifies c
    ensures c.Valid()
    ensures v.context == c && w.context == c && w.n == n && w.mem == v.mem
    ensures c.log == old(c.log) + Allocation(old(c.availableBuffers), n, old(c.issued))
    ensures c.issued == old(c.issued) + |Allocation(old(c.availableBuffers), n, old(c.issued))|
  {
    v := c.Vec(n);
    ghost var pool := c.availableBuffers;
    v.Destroy();
    RecycleThenTake(pool, n, v.mem);
    w := c.Vec(n);
  }

  // ---------------------------------------------------------------------
  // How many elements `operator-` computes
  // ---------------------------------------------------------------------

  /**
   * As written, `operator-` launches `vsub` with no dimensions: one work
   * item, which computes only the first four elements. For `n > 4` the
   * element at index 4 is never written.
   */
  lemma MinusAsWrittenLeavesTail(n: nat)
    requires n > CHUNK
    ensures WorkSizes([]) == Ok(LaunchSize(1, [1], [1]))
    ensures forall j :: Written(j, n, WorkSizes([]).value.gws[0]) <==> 0 <= j < CHUNK
    ensures !Written(CHUNK, n, WorkSizes([]).value.gws[0])
  {
  }

  /** Launched over `[n]`, `vsub` gets at least `n / 4` work items and writes every element. */
  lemma CorrectedMinusCoversAll(n: nat)
    ensures WorkSizes([n]).Ok?
    ensures forall j :: Written(j, n, WorkSizes([n]).value.gws[0]) <==> 0 <= j < n
  {
    var g := WorkSizes([n]).value.gws[0];
    assert Fits(n, g, LOCAL_SIZE);
    forall j ensures Written(j, n, g) <==> 0 <= j < n {
      LaunchCoversAll(j, n, g);
    }
  }
}
