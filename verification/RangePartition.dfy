/** `benchmark_parallel_for`: handing out a range of items to worker threads, in 32-bit
    unsigned arithmetic. */
module RangePartition {

  const WORD: int := 0x1_0000_0000

  type uint32 = x: int | 0 <= x < 0x1_0000_0000

  function Add32(a: uint32, b: uint32): uint32 { (a + b) % WORD }

  function Sub32(a: uint32, b: uint32): uint32 { (a - b) % WORD }

  /** The items one worker gets, both ends included. */
  datatype Chunk = Chunk(thread: nat, first: uint32, last: uint32)

  /** What the thread count passed in asks for. */
  function Requested(nThreads: int, cpuCores: int, cpuThreads: int): int {
    if nThreads > 0 then nThreads else if nThreads < 0 then cpuCores else cpuThreads
  }

  /** Chunk by chunk, without gap or overlap, from `from` up to but not including `to`. */
  predicate Contiguous(chunks: seq<Chunk>, from: int, to: int) {
    if chunks == [] then from == to
    else
      var n := |chunks| - 1;
      var c := chunks[n];
      c.thread == n && c.first <= c.last && c.last + 1 == to && Contiguous(chunks[..n], from, c.first)
  }

  function Size(c: Chunk): int { c.last - c.first + 1 }

  // ----- multiplication and division -----

  lemma Times(a: nat, b: nat, c: nat)
    requires a <= b
    ensures a * c <= b * c
  {
  }

  lemma NextChunk(q: nat, k: nat)
    ensures (k + 1) * q == k * q + q
  {
  }

  lemma DivBounds(n: nat, q: nat)
    requires q > 0
    ensures n / q * q <= n < n / q * q + q
  {
    assert n == n / q * q + n % q;
  }

  lemma DivIs(n: nat, q: nat, m: nat)
    requires q > 0 && m * q <= n < m * q + q
    ensures n / q == m
  {
    var d := n / q;
    DivBounds(n, q);
    if d < m {
      Times(d + 1, m, q);
      NextChunk(q, d);
      assert false;
    } else if m < d {
      Times(m + 1, d, q);
      NextChunk(q, m);
      assert false;
    }
  }

  lemma DivZero(n: nat, t: nat)
    requires t > 0
    ensures n / t == 0 <==> n < t
    ensures n / t <= n
  {
    DivBounds(n, t);
    if n < t {
      DivIs(n, t, 0);
    }
    Times(1, t, n / t);
  }

  // ----- the C functions -----

  /** The first loop: gives up threads until every one of them has an item. */
  method ThreadsFor(items: uint32, requested: int) returns (threadsUsed: int, iterPerThread: uint32)
    ensures requested <= 0 ==> threadsUsed == requested && iterPerThread == 1
    ensures requested > 0 ==> threadsUsed == if requested > items then items else requested
    ensures requested > 0 && items > 0 ==> iterPerThread == items / threadsUsed >= 1
  {
    threadsUsed, iterPerThread := requested, 1;
    while threadsUsed > 0
      invariant requested <= 0 ==> threadsUsed == requested && iterPerThread == 1
      invariant requested > 0 ==> 0 <= threadsUsed <= requested
      invariant requested > 0 ==> threadsUsed >= if requested > items then items else requested
    {
      DivZero(items, threadsUsed);
      iterPerThread := items / threadsUsed;
      if iterPerThread == 0 {
        threadsUsed := threadsUsed - 1;
      } else {
        break;
      }
    }
  }

  /** All chunks have `q` items, but the last may have more. */
  ghost predicate Even(chunks: seq<Chunk>, q: int) {
    && (forall i | 0 <= i < |chunks| :: q <= Size(chunks[i]) < 2 * q)
    && (forall i | 0 <= i < |chunks| - 1 :: Size(chunks[i]) == q)
  }

  /** The workers launched so far have been given the items up to `iter`. */
  ghost predicate Launched(chunks: seq<Chunk>, start: int, end: int, q: int, iter: int) {
    && start <= iter <= end && 1 <= q
    && Contiguous(chunks, start, iter) && Even(chunks, q)
    && (iter < end ==>
          && end - iter >= q && iter - start == |chunks| * q
          && (chunks != [] ==> Size(chunks[|chunks| - 1]) == q))
    && (iter == end ==> |chunks| == (end - start) / q)
  }

  lemma LaunchStep(chunks: seq<Chunk>, start: uint32, end: uint32, q: uint32, iter: uint32, te: uint32)
    requires Launched(chunks, start, end, q, iter) && iter < end
    requires te == if end - (iter + q) < q then end else iter + q
    ensures Launched(chunks + [Chunk(|chunks|, iter, te - 1)], start, end, q, te)
  {
    var c := Chunk(|chunks|, iter, te - 1);
    AppendContiguous(chunks, c, start, iter);
    AppendEven(chunks, c, q);
    NextChunk(q, |chunks|);
    if te == end {
      DivIs(end - start, q, |chunks| + 1);
    }
  }

  lemma AppendContiguous(chunks: seq<Chunk>, c: Chunk, from: int, to: int)
    requires Contiguous(chunks, from, to) && c.thread == |chunks| && c.first == to <= c.last
    ensures Contiguous(chunks + [c], from, c.last + 1)
  {
    assert (chunks + [c])[..|chunks|] == chunks;
  }

  lemma AppendEven(chunks: seq<Chunk>, c: Chunk, q: int)
    requires Even(chunks, q) && (chunks != [] ==> Size(chunks[|chunks| - 1]) == q)
    requires q <= Size(c) < 2 * q
    ensures Even(chunks + [c], q)
  {
  }

  /** Nothing wraps around below `end`. */
  lemma Exact32(a: uint32, b: uint32, end: uint32)
    requires a + b <= end && 1 <= b
    ensures Add32(a, b) == a + b && Sub32(end, a + b) == end - (a + b)
    ensures Sub32(a + b, 1) == a + b - 1 && Sub32(end, 1) == end - 1
  {
  }

  /** The second loop: launches the workers. */
  method Launch(start: uint32, end: uint32, q: uint32) returns (chunks: seq<Chunk>)
    requires start < end ==> 1 <= q <= end - start
    ensures if start < end then Launched(chunks, start, end, q, end) else chunks == []
  {
    chunks := [];
    var iter := start;
    while iter < end
      invariant if start < end then Launched(chunks, start, end, q, iter) else iter == start && chunks == []
      decreases end - iter
    {
      var ts := iter;
      var te := Add32(iter, q);
      Exact32(iter, q, end);
      if Sub32(end, te) < q {
        te := end;
      }
      LaunchStep(chunks, start, end, q, iter, te);
      iter := te;
      chunks := chunks + [Chunk(|chunks|, ts, Sub32(te, 1))];
    }
  }

  function ThreadsUsed(items: int, requested: int): int {
    if requested > items then items else requested
  }

  /** How `n` items are shared out when `t` threads are asked for. */
  ghost predicate Shared(chunks: seq<Chunk>, n: int, t: int)
    requires n > 0
  {
    if t >= 1 then
      var q := n / ThreadsUsed(n, t);
      q >= 1 && Even(chunks, q) && |chunks| == n / q
    else Even(chunks, 1) && |chunks| == n
  }

  /** The threads used are those asked for, cores for a negative number and logical processors
      for zero, but no more than there are items. */
  lemma ThreadsAskedFor(items: nat, nThreads: int, cpuCores: int, cpuThreads: int)
    ensures
      var t := ThreadsUsed(items, Requested(nThreads, cpuCores, cpuThreads));
      && (nThreads > 0 ==> t == nThreads || nThreads > items == t)
      && (nThreads < 0 ==> t == cpuCores || cpuCores > items == t)
      && (nThreads == 0 ==> t == cpuThreads || cpuThreads > items == t)
  {
  }

  method BenchmarkParallelFor(nThreads: int, start: uint32, end: uint32, cpuCores: int, cpuThreads: int)
      returns (threadsUsed: int, chunks: seq<Chunk>)
    ensures threadsUsed == ThreadsUsed(Sub32(end, start), Requested(nThreads, cpuCores, cpuThreads))
    ensures
      if start < end then
        && Contiguous(chunks, start, end)
        && Shared(chunks, end - start, Requested(nThreads, cpuCores, cpuThreads))
      else chunks == []
  {
    var iterPerThread;
    threadsUsed, iterPerThread := ThreadsFor(Sub32(end, start), Requested(nThreads, cpuCores, cpuThreads));
    if start < end {
      ghost var t := Requested(nThreads, cpuCores, cpuThreads);
      assert Sub32(end, start) == end - start;
      if t >= 1 {
        DivZero(end - start, threadsUsed);
      }
    }
    chunks := Launch(start, end, iterPerThread);
  }

  // ----- what the partition means -----

  function Holds(c: Chunk, x: int): int { if c.first <= x <= c.last then 1 else 0 }

  /** How many chunks contain item `x`. */
  function Handed(chunks: seq<Chunk>, x: int): int {
    if chunks == [] then 0
    else Handed(chunks[..|chunks| - 1], x) + Holds(chunks[|chunks| - 1], x)
  }

  lemma {:induction false} ContiguousOrder(chunks: seq<Chunk>, from: int, to: int)
    requires Contiguous(chunks, from, to)
    ensures from <= to
  {
    if chunks != [] {
      ContiguousOrder(chunks[..|chunks| - 1], from, chunks[|chunks| - 1].first);
    }
  }

  /** Every item of the range is processed by exactly one worker, and no other item is. */
  lemma {:induction false} ExactlyOnce(chunks: seq<Chunk>, from: int, to: int, x: int)
    requires Contiguous(chunks, from, to)
    ensures Handed(chunks, x) == if from <= x < to then 1 else 0
  {
    if chunks != [] {
      var c := chunks[|chunks| - 1];
      ExactlyOnce(chunks[..|chunks| - 1], from, c.first, x);
      ContiguousOrder(chunks[..|chunks| - 1], from, c.first);
    }
  }

  /** More workers may be launched than the thread count reported, but never twice as many;
      the two agree exactly when the remainder is smaller than a chunk. */
  lemma WorkersLaunched(n: nat, t: nat)
    requires 1 <= t <= n
    ensures
      var q := n / t;
      q >= 1 && t <= n / q < 2 * t && (n / q == t <==> n % t < q)
  {
    var q, r := n / t, n % t;
    DivZero(n, t);
    var whole := q * t;
    assert n == whole + r && whole == t * q;
    var w := n / q;
    DivBounds(n, q);
    NextChunk(q, w);
    if w < t {
      Times(w + 1, t, q);
      assert false;
    }
    if w >= 2 * t {
      Times(2 * t, w, q);
      Twice(t, q);
      Times(1, q, t);
      assert false;
    }
    if r < q {
      DivIs(n, q, t);
    }
  }

  lemma Twice(t: nat, q: nat)
    ensures 2 * t * q == t * q + t * q
  {
  }

  /** As many workers as threads are reported, each with one item. */
  predicate OneForEach(threadsUsed: int, chunks: seq<Chunk>) {
    threadsUsed == |chunks| && forall i | 0 <= i < |chunks| :: Size(chunks[i]) == 1
  }

  type int32 = x: int | -0x8000_0000 <= x < 0x8000_0000

  function ToUnsigned(x: int32): uint32 { if x < 0 then x + WORD else x }

  /** `benchmark_parallel`: one item, hence one call, for every thread, unless the number of
      threads is negative. */
  method BenchmarkParallel(nThreads: int32, cpuCores: int32, cpuThreads: int32)
      returns (threadsUsed: int, chunks: seq<Chunk>)
    ensures
      var n := if nThreads == 0 then cpuThreads else if nThreads == -1 then cpuCores else nThreads;
      && (OneForEach(threadsUsed, chunks) <==> n > 0 || (n == 0 && cpuThreads >= 0))
      && (n >= 0 ==> Contiguous(chunks, 0, n))
      && (n > 0 ==> threadsUsed == n)
  {
    var n := nThreads;
    if n == 0 {
      n := cpuThreads;
    } else if n == -1 {
      n := cpuCores;
    }
    var end := ToUnsigned(n);
    threadsUsed, chunks := BenchmarkParallelFor(n, 0, end, cpuCores, cpuThreads);
    if n > 0 {
      OneEach(n, chunks);
    } else if n < 0 {
      TooMany(end, cpuCores, chunks);
    }
  }

  lemma OneEach(n: nat, chunks: seq<Chunk>)
    requires n >= 1 && Shared(chunks, n, n)
    ensures OneForEach(n, chunks)
  {
    DivIs(n, n, 1);
    DivIs(n, 1, n);
  }

  /** A negative number of threads is more than two thousand million items. */
  lemma TooMany(n: nat, t: int32, chunks: seq<Chunk>)
    requires n >= 0x8000_0000 && Shared(chunks, n, t)
    ensures !OneForEach(ThreadsUsed(n, t), chunks)
  {
    if t >= 1 {
      var q := n / t;
      WorkersLaunched(n, t);
      if q == 1 {
        DivIs(n, 1, n);
      } else {
        assert Size(chunks[0]) >= 2;
      }
    }
  }
}
