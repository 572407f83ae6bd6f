/** What decides whether a vector operation is carried out (src/vector.c): the assertions on its way, and
    the rule of MPI that one operation names no target element twice. */
module VectorChecks {
  import opened Memory
  import opened Rma
  import opened Segments
  import opened Buffers
  import opened IoVector
  import ConflictTree
  import OverlapCheck

  /** The library's settings: iov_method, iov_checks, iov_batched_limit, iov_dtype_chunk,
      end_to_end_flush, shr_buf_method == COPY. */
  datatype Config = Config(how: Method, checks: bool, limit: int, chunk: int, endToEnd: bool, guard: bool)

  /** armci_giov_t */
  datatype Giov = Giov(src: seq<int>, dst: seq<int>, bytes: nat)

  function Local(op: Op, iov: Giov): seq<int> { if op == GET then iov.dst else iov.src }

  function Remote(op: Op, iov: Giov): seq<int> { if op == GET then iov.src else iov.dst }

  /** A vector that the loops pass over. */
  predicate Empty(iov: Giov) { |iov.src| == 0 || iov.bytes == 0 }

  ghost predicate UsesDatatype(cfg: Config, overlapping: bool, sameAlloc: bool) {
    !overlapping && sameAlloc && (cfg.how == Direct || cfg.how == Auto)
  }

  ghost predicate Overlapping(cfg: Config, iov: Giov) { cfg.checks && OverlapCheck.AnyOverlap(iov.dst, iov.bytes) }

  // ----- Assertions

  /** The assertions on the way of a vector, given the local buffers prepared for it. */
  ghost predicate Passes(cfg: Config, op: Op, iov: Giov, loc: seq<int>, ts: nat, window: int)
    requires ts > 0 && |loc| == |iov.src| == |iov.dst|
  {
    && iov.bytes % ts == 0
    && (UsesDatatype(cfg, Overlapping(cfg, iov), true) ==> Addressable(loc, Remote(op, iov), window, ts))
  }

  /** Local buffers for the first vectors. */
  ghost predicate Fitting(iovs: seq<Giov>, locs: seq<seq<int>>) {
    |locs| <= |iovs| && forall v :: 0 <= v < |locs| ==> |locs[v]| == |iovs[v].src| == |iovs[v].dst|
  }

  ghost predicate AllPass(cfg: Config, op: Op, iovs: seq<Giov>, locs: seq<seq<int>>, ts: nat, window: int)
    requires ts > 0 && Fitting(iovs, locs)
  {
    forall v :: 0 <= v < |locs| ==> Empty(iovs[v]) || Passes(cfg, op, iovs[v], locs[v], ts, window)
  }

  lemma {:induction false} AllPassNext(cfg: Config, op: Op, iovs: seq<Giov>, locs: seq<seq<int>>, loc: seq<int>,
                                       ts: nat, window: int)
    requires ts > 0 && Fitting(iovs, locs) && |locs| < |iovs| && AllPass(cfg, op, iovs, locs, ts, window)
    requires |loc| == |iovs[|locs|].src| == |iovs[|locs|].dst|
    ensures Fitting(iovs, locs + [loc])
    ensures AllPass(cfg, op, iovs, locs + [loc], ts, window) <==>
            Empty(iovs[|locs|]) || Passes(cfg, op, iovs[|locs|], loc, ts, window)
  {
    var v, more := |locs|, locs + [loc];
    assert more[v] == loc;
    if Empty(iovs[v]) || Passes(cfg, op, iovs[v], loc, ts, window) {
      forall u | 0 <= u < |more| ensures Empty(iovs[u]) || Passes(cfg, op, iovs[u], more[u], ts, window) {
        if u < v { assert more[u] == locs[u]; }
      }
    }
  }

  // ----- Prepared buffers

  /** Segments one after the other in one block. */
  ghost predicate InRow(loc: seq<int>, bytes: nat) {
    forall i :: 0 <= i < |loc| ==> loc[i] == loc[0] + i * bytes
  }

  /** What the prepare functions may hand out for a vector. */
  ghost predicate Prepared(cfg: Config, shared: int -> bool, op: Op, scale: int, iov: Giov, loc: seq<int>, ts: nat)
    requires ts > 0
  {
    && |loc| == |Local(op, iov)|
    && (if Empty(iov) || iov.bytes % ts != 0 then loc == Local(op, iov)
        else if scale != 1 then InRow(loc, iov.bytes)
        else MovedIfShared(Local(op, iov), loc, cfg.guard, shared, |loc|))
  }

  ghost predicate AllPrepared(cfg: Config, shared: int -> bool, op: Op, scale: int, iovs: seq<Giov>,
                              locs: seq<seq<int>>, ts: nat)
    requires ts > 0
  {
    && Fitting(iovs, locs)
    && forall v :: 0 <= v < |locs| ==> Prepared(cfg, shared, op, scale, iovs[v], locs[v], ts)
  }

  /** No buffer is guarded and shared. */
  ghost predicate Unguarded(cfg: Config, shared: int -> bool, op: Op, iovs: seq<Giov>) {
    !cfg.guard ||
    forall v, i :: 0 <= v < |iovs| && 0 <= i < |Local(op, iovs[v])| ==> !shared(Local(op, iovs[v])[i])
  }

  ghost function Originals(op: Op, iovs: seq<Giov>): (locs: seq<seq<int>>)
    ensures |locs| == |iovs| && forall v :: 0 <= v < |iovs| ==> locs[v] == Local(op, iovs[v])
  {
    seq(|iovs|, v requires 0 <= v < |iovs| => Local(op, iovs[v]))
  }

  lemma {:induction false} UnguardedStays(cfg: Config, shared: int -> bool, op: Op, iovs: seq<Giov>,
                                          locs: seq<seq<int>>, ts: nat, v: nat)
    requires ts > 0 && AllPrepared(cfg, shared, op, 1, iovs, locs, ts) && Unguarded(cfg, shared, op, iovs)
    requires v < |locs|
    ensures locs[v] == Local(op, iovs[v])
  {
    var orig := Local(op, iovs[v]);
    assert Prepared(cfg, shared, op, 1, iovs[v], locs[v], ts);
    if !Empty(iovs[v]) && iovs[v].bytes % ts == 0 {
      forall i | 0 <= i < |orig| ensures locs[v][i] == orig[i] {
        assert cfg.guard ==> !shared(Local(op, iovs[v])[i]);
      }
    }
  }

  /** Where no buffer moves, whether a call goes through can be read off its arguments. */
  lemma {:induction false} UnguardedVerdict(cfg: Config, shared: int -> bool, op: Op, iovs: seq<Giov>,
                                            locs: seq<seq<int>>, ts: nat, window: int, ok: bool)
    requires ts > 0 && AllPrepared(cfg, shared, op, 1, iovs, locs, ts) && Unguarded(cfg, shared, op, iovs)
    requires (ok <==> AllPass(cfg, op, iovs, locs, ts, window)) && (ok ==> |locs| == |iovs|)
    requires Fitting(iovs, Originals(op, iovs))
    ensures ok <==> AllPass(cfg, op, iovs, Originals(op, iovs), ts, window)
  {
    forall v | 0 <= v < |locs| ensures locs[v] == Originals(op, iovs)[v] {
      UnguardedStays(cfg, shared, op, iovs, locs, ts, v);
    }
    if ok { assert locs == Originals(op, iovs); }
  }

  // ----- Scaled buffers

  ghost predicate Aligned(rem: seq<int>, window: int, ts: int)
    requires ts > 0
  {
    forall i :: 0 <= i < |rem| ==> (rem[i] - window) % ts == 0
  }

  /** What can stop a scaled accumulate: a size that is not whole elements, a misaligned target, or more
      elements than a 32-bit displacement spans. */
  ghost predicate ScaledPasses(cfg: Config, iov: Giov, ts: nat, window: int)
    requires ts > 0
  {
    && iov.bytes % ts == 0
    && (UsesDatatype(cfg, Overlapping(cfg, iov), true) ==>
          Aligned(iov.dst, window, ts) && (|iov.src| - 1) * iov.bytes / ts <= INT_MAX)
  }

  lemma {:induction false} RowOffset(i: nat, n: nat, ts: nat, bytes: nat)
    requires ts > 0 && bytes == n * ts
    ensures i * bytes >= 0 && i * bytes % ts == 0 && i * bytes / ts == i * n
  {
    var d := i * n;
    assert i * bytes == d * ts && d >= 0;
    Quotient(d, ts, d * ts);
  }

  lemma {:induction false} Quotient(d: nat, ts: nat, x: nat)
    requires ts > 0 && x == d * ts
    ensures x % ts == 0 && x / ts == d
  {
    var q, r := x / ts, x % ts;
    assert x == q * ts + r;
    Multiples(q, d, ts);
  }

  lemma {:induction false} RowLowest(loc: seq<int>, bytes: nat)
    requires loc != [] && InRow(loc, bytes)
    ensures Lowest(loc) == loc[0]
  {
    LowestIn(loc);
    LowestIs(loc, 0);
    var k :| 0 <= k < |loc| && loc[k] == Lowest(loc);
    assert loc[k] == loc[0] + k * bytes && k * bytes >= 0;
  }

  lemma {:induction false} RowAccepted(base: int, p: int, q: int, i: nat, n: nat, ts: nat, bytes: nat, window: int)
    requires ts > 0 && bytes == n * ts && p == base + i * bytes
    ensures Accepted(p, q, base, window, ts) <==> i * n <= INT_MAX && (q - window) % ts == 0
  {
    RowOffset(i, n, ts, bytes);
  }

  lemma {:induction false} RowOrder(i: nat, k: nat, n: nat)
    requires i <= k
    ensures i * n <= k * n
  {
    assert (k - i) * n >= 0;
    assert (k - i) * n == k * n - i * n;
  }

  ghost predicate SpanFits(i: nat, n: nat) { i * n <= INT_MAX }

  /** Gathering the scaled copies into one block keeps the local offsets aligned and close together. */
  lemma {:induction false} RowAddressable(loc: seq<int>, rem: seq<int>, n: nat, ts: nat, bytes: nat, window: int)
    requires ts > 0 && bytes == n * ts && loc != [] && |loc| == |rem| && InRow(loc, bytes)
    ensures Addressable(loc, rem, window, ts) <==> Aligned(rem, window, ts) && (|loc| - 1) * bytes / ts <= INT_MAX
  {
    var last := |loc| - 1;
    RowLowest(loc, bytes);
    RowOffset(last, n, ts, bytes);
    forall i | 0 <= i < |loc|
      ensures Accepted(loc[i], rem[i], Lowest(loc), window, ts) <==> SpanFits(i, n) && (rem[i] - window) % ts == 0
      ensures SpanFits(last, n) ==> SpanFits(i, n)
    {
      RowAccepted(loc[0], loc[i], rem[i], i, n, ts, bytes, window);
      RowOrder(i, last, n);
    }
    assert (|loc| - 1) * bytes / ts <= INT_MAX <==> SpanFits(last, n);
    RowAll(loc, rem, n, ts, window);
  }

  lemma {:induction false} RowAll(loc: seq<int>, rem: seq<int>, n: nat, ts: nat, window: int)
    requires ts > 0 && loc != [] && |loc| == |rem|
    requires forall i :: 0 <= i < |loc| ==>
               (Accepted(loc[i], rem[i], Lowest(loc), window, ts) <==> SpanFits(i, n) && (rem[i] - window) % ts == 0)
    requires forall i :: 0 <= i < |loc| && SpanFits(|loc| - 1, n) ==> SpanFits(i, n)
    ensures Addressable(loc, rem, window, ts) <==> Aligned(rem, window, ts) && SpanFits(|loc| - 1, n)
  {
    var last := |loc| - 1;
    if Addressable(loc, rem, window, ts) {
      assert Accepted(loc[last], rem[last], Lowest(loc), window, ts);
      forall i | 0 <= i < |rem| ensures (rem[i] - window) % ts == 0 {
        assert Accepted(loc[i], rem[i], Lowest(loc), window, ts);
      }
    }
  }

  lemma {:induction false} ScaledExact(cfg: Config, shared: int -> bool, scale: int, iov: Giov, loc: seq<int>,
                                       ts: nat, window: int)
    requires ts > 0 && scale != 1 && !Empty(iov) && |loc| == |iov.src| == |iov.dst|
    requires Prepared(cfg, shared, ACC, scale, iov, loc, ts)
    ensures Passes(cfg, ACC, iov, loc, ts, window) <==> ScaledPasses(cfg, iov, ts, window)
  {
    if iov.bytes % ts == 0 {
      var n := iov.bytes / ts;
      assert iov.bytes == n * ts;
      RowAddressable(loc, iov.dst, n, ts, iov.bytes, window);
    }
  }

  ghost predicate AllScaledPass(cfg: Config, iovs: seq<Giov>, ts: nat, window: int)
    requires ts > 0
  {
    forall v :: 0 <= v < |iovs| ==> Empty(iovs[v]) || ScaledPasses(cfg, iovs[v], ts, window)
  }

  /** Whether a scaled accumulate goes through does not depend on where its buffers are. */
  lemma {:induction false} ScaledVerdict(cfg: Config, shared: int -> bool, scale: int, iovs: seq<Giov>,
                                         locs: seq<seq<int>>, ts: nat, window: int, ok: bool)
    requires ts > 0 && scale != 1 && AllPrepared(cfg, shared, ACC, scale, iovs, locs, ts)
    requires (ok <==> AllPass(cfg, ACC, iovs, locs, ts, window)) && (ok ==> |locs| == |iovs|)
    ensures ok <==> AllScaledPass(cfg, iovs, ts, window)
  {
    forall v | 0 <= v < |locs| && !Empty(iovs[v])
      ensures Passes(cfg, ACC, iovs[v], locs[v], ts, window) <==> ScaledPasses(cfg, iovs[v], ts, window)
    {
      assert Prepared(cfg, shared, ACC, scale, iovs[v], locs[v], ts);
      ScaledExact(cfg, shared, scale, iovs[v], locs[v], ts, window);
    }
  }

  /** No two addresses are more than INT_MAX apart. */
  ghost predicate SpanWithin(loc: seq<int>) {
    forall i, j :: 0 <= i < |loc| && 0 <= j < |loc| ==> loc[i] - loc[j] <= INT_MAX
  }

  /** For bytes nothing can be misaligned: only the span counts. */
  lemma {:induction false} BytesAddressable(loc: seq<int>, rem: seq<int>, window: int)
    requires |loc| == |rem| && loc != []
    ensures Addressable(loc, rem, window, 1) <==> SpanWithin(loc)
  {
    LowestIn(loc);
    var k :| 0 <= k < |loc| && loc[k] == Lowest(loc);
    forall j | 0 <= j < |loc| ensures loc[k] <= loc[j] { LowestIs(loc, j); }
    forall i | 0 <= i < |loc|
      ensures Accepted(loc[i], rem[i], Lowest(loc), window, 1) <==> loc[i] - loc[k] <= INT_MAX
    {
    }
    if Addressable(loc, rem, window, 1) {
      forall i, j | 0 <= i < |loc| && 0 <= j < |loc| ensures loc[i] - loc[j] <= INT_MAX {
        assert Accepted(loc[i], rem[i], Lowest(loc), window, 1);
      }
    }
  }

  // ----- No element twice in one operation

  /** The target cells of each operation that a vector is carried out with. */
  ghost function IssuedFor(cfg: Config, op: Op, iov: Giov, ts: nat): seq<seq<int>>
    requires ts > 0 && Remote(op, iov) != []
  {
    var rem := Remote(op, iov);
    if UsesDatatype(cfg, Overlapping(cfg, iov), true) then
      Operations(rem, iov.bytes / ts, ts, PerOperation(cfg.chunk, |rem|), 0)
    else
      Operations(rem, iov.bytes / ts, ts, 1, 0)
  }

  /** Overlapping destinations need the check, a form that issues one segment at a time, or chunks that
      keep the segments that overlap apart. */
  ghost predicate Separable(cfg: Config, iov: Giov, ts: nat)
    requires ts > 0
  {
    cfg.checks || cfg.how == Conservative || cfg.how == Batched || ChunksApart(iov.dst, iov.bytes / ts, ts, cfg.chunk)
  }

  ghost predicate AllSeparable(cfg: Config, iovs: seq<Giov>, ts: nat)
    requires ts > 0
  {
    forall v :: 0 <= v < |iovs| ==> Separable(cfg, iovs[v], ts)
  }

  /** Segments that the check finds disjoint share no element. */
  lemma {:induction false} NoOverlapDistinct(ptrs: seq<int>, n: nat, ts: nat, bytes: nat)
    requires ts > 0 && bytes == n * ts && n > 0 && !OverlapCheck.AnyOverlap(ptrs, bytes)
    ensures Distinct(AllCells(ptrs, n, ts)) && forall dtypeChunk :: ChunksApart(ptrs, n, ts, dtypeChunk)
  {
    forall i, j | 0 <= i < j < |ptrs| ensures Apart(ptrs[i], ptrs[j], n, ts) {
      assert !OverlapCheck.SegmentsOverlap(ptrs[i], ptrs[j], bytes);
      NoOverlapApart(ptrs[i], ptrs[j], n, ts, bytes);
    }
    ApartDistinct(ptrs, n, ts);
  }

  lemma {:induction false} NoOverlapApart(p: int, q: int, n: nat, ts: nat, bytes: nat)
    requires ts > 0 && bytes == n * ts && n > 0 && !OverlapCheck.SegmentsOverlap(p, q, bytes)
    ensures Apart(p, q, n, ts)
  {
    CellsExtent(p, n, ts, bytes);
    CellsExtent(q, n, ts, bytes);
    forall a | 0 <= a < n ensures Cells(p, n, ts)[a] !in Cells(q, n, ts) {
      var x := Cells(p, n, ts)[a];
      assert x in Extent(p, bytes);
      assert ConflictTree.InRange(p, x, p + bytes - 1);
    }
  }

  lemma {:induction false} Whole(bytes: nat, ts: nat)
    requires ts > 0 && bytes > 0 && bytes % ts == 0
    ensures bytes == bytes / ts * ts && bytes / ts > 0
  {
  }

  /** Under every setting, the operations of an accumulate name no target element twice if and only if the
      vector is separable. */
  lemma {:induction false} SeparableExactly(cfg: Config, iov: Giov, ts: nat)
    requires ts > 0 && iov.dst != [] && iov.bytes > 0 && iov.bytes % ts == 0
    ensures AllDistinct(IssuedFor(cfg, ACC, iov, ts)) <==> Separable(cfg, iov, ts)
  {
    var n := iov.bytes / ts;
    Whole(iov.bytes, ts);
    OperationsDistinct(iov.dst, n, ts, cfg.chunk);
    OperationsDistinct(iov.dst, n, ts, 1);
    OneEach(iov.dst, n, ts);
    if cfg.checks && !OverlapCheck.AnyOverlap(iov.dst, iov.bytes) {
      NoOverlapDistinct(iov.dst, n, ts, iov.bytes);
    }
  }
}
