/** I/O vector operations (src/vector.c): batched, conservative and datatype forms of one transfer. */
module IoVector {
  import opened Memory
  import opened Rma
  import opened Segments
  import opened Progress

  const INT_MAX := 0x7fff_ffff

  datatype Method = Conservative | Batched | Direct | Auto

  /** The cells ls and rs have been moved, as the operation says, and nothing else. */
  ghost predicate Moved(s0: State, s: State, op: Op, ls: seq<int>, rs: seq<int>) {
    if op == GET then
      Fetched(s0, s, ls, rs)
    else
      Inside(ls, s0.local) && |ls| == |rs| && Updated(s0, s, op, rs, Gather(s0.local, ls))
  }

  /** What the caller owes: segments inside memory, nothing outstanding in the way. */
  ghost predicate Ready(s: State, op: Op, loc: seq<int>, rem: seq<int>, n: nat, ts: int) {
    && Idle(s) && |loc| == |rem| && AllInside(loc, n, ts, s.local) && AllInside(rem, n, ts, s.target)
    && Clear(op, Pending(s), AllCells(loc, n, ts), AllCells(rem, n, ts))
  }

  lemma {:induction false} MovedStart(s: State, op: Op)
    requires Idle(s)
    ensures Moved(s, s, op, [], [])
  {
    if op == GET { FetchedStart(s); } else { UpdatedStart(s, op); }
  }

  lemma {:induction false} MovedIssue(s0: State, s: State, op: Op, ls: seq<int>, rs: seq<int>, l: seq<int>, r: seq<int>)
    requires Moved(s0, s, op, ls, rs) && |l| == |r| && Inside(l, s.local) && Inside(r, s.target)
    requires Clear(op, Pending(s0), ls + l, rs + r) && (op == ACC ==> Distinct(r))
    ensures CanIssue(s, op, l, r) && Moved(s0, Issued(s, op, l, r), op, ls + l, rs + r)
  {
    if op == GET {
      FetchedIssue(s0, s, ls, rs, l, r);
    } else {
      UpdatedIssue(s0, s, op, rs, Gather(s0.local, ls), l, r);
      GatherConcat(s0.local, ls, l);
    }
  }

  lemma {:induction false} MovedFlush(s0: State, s: State, t: State, op: Op, ls: seq<int>, rs: seq<int>)
    requires Moved(s0, s, op, ls, rs) && Idle(t) && View(t) == View(s) && t.local == LocalView(s)
    requires t.blocks == s.blocks
    requires (Pending(t) == Pending(s) || Pending(t) == []) && t.target.Keys == s.target.Keys
    ensures Moved(s0, t, op, ls, rs)
  {
    if op == GET { FetchedFlush(s0, s, t, ls, rs); } else { UpdatedFlush(s0, s, t, op, rs, Gather(s0.local, ls)); }
  }

  lemma {:induction false} MovedKeys(s0: State, s: State, op: Op, ls: seq<int>, rs: seq<int>)
    requires Moved(s0, s, op, ls, rs)
    ensures s.local.Keys == s0.local.Keys && s.target.Keys == s0.target.Keys && Valid(s) && Valid(s0)
  {
  }

  lemma {:induction false} ClearPrefix(op: Op, p: seq<Update>, a: seq<int>, b: seq<int>, c: seq<int>, d: seq<int>)
    requires Clear(op, p, a + b, c + d)
    ensures Clear(op, p, a, c)
  {
    if op == PUT { DistinctPart(c, d); }
    if op == GET { DistinctPart(a, b); }
    forall i, j | 0 <= i < |p| && 0 <= j < |c| && p[i].addr == c[j] ensures op == ACC && p[i].Add? {
      assert (c + d)[j] == c[j];
    }
  }

  /** Segments loc[i..k] and rem[i..k] issued as one operation. */
  lemma {:induction false} ReadyIssue(s0: State, s: State, op: Op, loc: seq<int>, rem: seq<int>, n: nat, ts: int,
                                      i: nat, k: nat, l: seq<int>, r: seq<int>)
    requires Ready(s0, op, loc, rem, n, ts) && i <= k <= |loc|
    requires Moved(s0, s, op, AllCells(loc[..i], n, ts), AllCells(rem[..i], n, ts))
    requires l == AllCells(loc[i..k], n, ts) && r == AllCells(rem[i..k], n, ts) && (op == ACC ==> Distinct(r))
    ensures CanIssue(s, op, l, r)
    ensures Moved(s0, Issued(s, op, l, r), op, AllCells(loc[..k], n, ts), AllCells(rem[..k], n, ts))
  {
    MovedKeys(s0, s, op, AllCells(loc[..i], n, ts), AllCells(rem[..i], n, ts));
    SliceInside(loc, n, ts, i, k, s0.local, s.local);
    SliceInside(rem, n, ts, i, k, s0.target, s.target);
    AllCellsLength(loc[i..k], rem[i..k], n, ts);
    PrefixCells(loc, n, ts, i, k);
    PrefixCells(rem, n, ts, i, k);
    ReadyPrefix(s0, op, loc, rem, n, ts, k);
    MovedIssue(s0, s, op, AllCells(loc[..i], n, ts), AllCells(rem[..i], n, ts), l, r);
  }

  lemma {:induction false} SliceInside(ptrs: seq<int>, n: nat, ts: int, i: nat, k: nat, m0: Mem, m: Mem)
    requires i <= k <= |ptrs| && AllInside(ptrs, n, ts, m0) && m.Keys == m0.Keys
    ensures Inside(AllCells(ptrs[i..k], n, ts), m)
  {
    var some := ptrs[i..k];
    forall j | 0 <= j < |some| ensures Inside(Cells(some[j], n, ts), m) {
      assert Inside(Cells(ptrs[i + j], n, ts), m0);
    }
    AllCellsInside(some, n, ts, m);
  }

  lemma {:induction false} ReadyPrefix(s0: State, op: Op, loc: seq<int>, rem: seq<int>, n: nat, ts: int, k: nat)
    requires Ready(s0, op, loc, rem, n, ts) && k <= |loc|
    ensures Clear(op, Pending(s0), AllCells(loc[..k], n, ts), AllCells(rem[..k], n, ts))
  {
    PrefixCells(loc, n, ts, k, |loc|);
    PrefixCells(rem, n, ts, k, |loc|);
    ClearPrefix(op, Pending(s0), AllCells(loc[..k], n, ts), AllCells(loc[k..], n, ts),
                AllCells(rem[..k], n, ts), AllCells(rem[k..], n, ts));
  }

  lemma {:induction false} PrefixCells(ptrs: seq<int>, n: nat, ts: int, i: nat, k: nat)
    requires i <= k <= |ptrs|
    ensures AllCells(ptrs[..k], n, ts) == AllCells(ptrs[..i], n, ts) + AllCells(ptrs[i..k], n, ts)
    ensures k == |ptrs| ==> AllCells(ptrs, n, ts) == AllCells(ptrs[..i], n, ts) + AllCells(ptrs[i..], n, ts)
  {
    assert ptrs[..k] == ptrs[..i] + ptrs[i..k];
    AllCellsConcat(ptrs[..i], ptrs[i..k], n, ts);
    if k == |ptrs| { assert ptrs[..k] == ptrs && ptrs[i..k] == ptrs[i..]; }
  }

  lemma {:induction false} AllCellsConcat(a: seq<int>, b: seq<int>, n: nat, ts: int)
    ensures AllCells(a + b, n, ts) == AllCells(a, n, ts) + AllCells(b, n, ts)
  {
    if b == [] {
      assert a + b == a;
    } else {
      var k, c := |b| - 1, a + b;
      AllCellsConcat(a, b[..k], n, ts);
      assert c[..|c| - 1] == a + b[..k] && c[|c| - 1] == b[k];
      var x, y, z := AllCells(a, n, ts), AllCells(b[..k], n, ts), Cells(b[k], n, ts);
      assert AllCells(c, n, ts) == (x + y) + z;
      assert AllCells(b, n, ts) == y + z;
      assert (x + y) + z == x + (y + z);
    }
  }

  lemma {:induction false} OneSegment(ptrs: seq<int>, n: nat, ts: int, i: nat)
    requires i < |ptrs|
    ensures AllCells(ptrs[i..i + 1], n, ts) == Cells(ptrs[i], n, ts)
  {
    var one := ptrs[i..i + 1];
    assert one == [ptrs[i]] && one[..0] == [];
    assert AllCells(one, n, ts) == AllCells(one[..0], n, ts) + Cells(one[0], n, ts);
  }

  lemma {:induction false} MovedWhole(s0: State, s: State, op: Op, loc: seq<int>, rem: seq<int>, n: nat, ts: int)
    requires |loc| == |rem| && Moved(s0, s, op, AllCells(loc[..|loc|], n, ts), AllCells(rem[..|rem|], n, ts))
    ensures Moved(s0, s, op, AllCells(loc, n, ts), AllCells(rem, n, ts))
  {
    assert loc[..|loc|] == loc && rem[..|rem|] == rem;
  }

  method FlushMoved(w: Window, ghost s0: State, ghost op: Op, ghost ls: seq<int>, ghost rs: seq<int>, localOnly: bool,
                    endToEnd: bool)
    requires Moved(s0, w.s, op, ls, rs)
    modifies w
    ensures Idle(w.s) && Moved(s0, w.s, op, ls, rs) && (!localOnly || endToEnd ==> w.s.sent == [])
  {
    ghost var s := w.s;
    FlushRegion(w, localOnly, endToEnd);
    MovedFlush(s0, s, w.s, op, ls, rs);
  }

  method IssueSegments(w: Window, ghost s0: State, op: Op, ghost loc: seq<int>, ghost rem: seq<int>, ghost n: nat,
                       ghost ts: int, ghost i: nat, ghost k: nat, l: seq<int>, r: seq<int>)
    requires Ready(s0, op, loc, rem, n, ts) && i <= k <= |loc|
    requires Moved(s0, w.s, op, AllCells(loc[..i], n, ts), AllCells(rem[..i], n, ts))
    requires l == AllCells(loc[i..k], n, ts) && r == AllCells(rem[i..k], n, ts) && (op == ACC ==> Distinct(r))
    modifies w
    ensures Moved(s0, w.s, op, AllCells(loc[..k], n, ts), AllCells(rem[..k], n, ts))
    ensures w.s.locs == old(w.s.locs) + l
  {
    ReadyIssue(s0, w.s, op, loc, rem, n, ts, i, k, l, r);
    w.Issue(op, l, r);
  }

  method IssueOne(w: Window, ghost s0: State, op: Op, loc: seq<int>, rem: seq<int>, n: nat, ts: int, i: nat)
    requires Ready(s0, op, loc, rem, n, ts) && i < |loc| && ts > 0
    requires Moved(s0, w.s, op, AllCells(loc[..i], n, ts), AllCells(rem[..i], n, ts))
    modifies w
    ensures Moved(s0, w.s, op, AllCells(loc[..i + 1], n, ts), AllCells(rem[..i + 1], n, ts))
    ensures w.s.locs == old(w.s.locs) + Cells(loc[i], n, ts)
  {
    OneSegment(loc, n, ts, i);
    OneSegment(rem, n, ts, i);
    DistinctCells(rem[i], n, ts);
    IssueSegments(w, s0, op, loc, rem, n, ts, i, i + 1, Cells(loc[i], n, ts), Cells(rem[i], n, ts));
  }

  /** The last `out` of the segments before i are outstanding. */
  ghost predicate LastAreOut(s: State, loc: seq<int>, n: nat, ts: int, i: nat, out: nat)
    requires i <= |loc|
  {
    out <= i && s.locs == AllCells(loc[i - out..i], n, ts)
  }

  lemma {:induction false} LastAreOutNext(s: State, t: State, loc: seq<int>, n: nat, ts: int, i: nat, next: nat)
    requires i < |loc| && next > 0 && LastAreOut(s, loc, n, ts, i, next - 1) && t.locs == s.locs + Cells(loc[i], n, ts)
    ensures LastAreOut(t, loc, n, ts, i + 1, next)
  {
    var part := loc[i + 1 - next..i + 1];
    assert part[..|part| - 1] == loc[i + 1 - next..i] && part[|part| - 1] == loc[i];
  }

  lemma {:induction false} NoneOut(s: State, loc: seq<int>, n: nat, ts: int, i: nat)
    requires i <= |loc| && s.locs == []
    ensures LastAreOut(s, loc, n, ts, i, 0)
  {
    assert loc[i..i] == [];
  }

  /** After i turns of the loop: the first i segments are moved, and the last `out` of them are outstanding. */
  ghost predicate Batching(s0: State, s: State, op: Op, loc: seq<int>, rem: seq<int>, n: nat, ts: int, i: nat,
                           out: nat) {
    && i <= |loc| && |loc| == |rem| && LastAreOut(s, loc, n, ts, i, out)
    && Moved(s0, s, op, AllCells(loc[..i], n, ts), AllCells(rem[..i], n, ts))
  }

  method FlushBatch(w: Window, ghost s0: State, op: Op, loc: seq<int>, rem: seq<int>, n: nat, ts: int, i: nat,
                    flushLocal: bool, endToEnd: bool, ghost out: nat)
    requires Batching(s0, w.s, op, loc, rem, n, ts, i, out)
    modifies w
    ensures Batching(s0, w.s, op, loc, rem, n, ts, i, 0)
  {
    FlushMoved(w, s0, op, AllCells(loc[..i], n, ts), AllCells(rem[..i], n, ts), flushLocal, endToEnd);
    NoneOut(w.s, loc, n, ts, i);
  }

  method IssueInBatch(w: Window, ghost s0: State, op: Op, loc: seq<int>, rem: seq<int>, n: nat, ts: int, i: nat,
                      ghost next: nat)
    requires Ready(s0, op, loc, rem, n, ts) && i < |loc| && ts > 0 && next > 0
    requires Batching(s0, w.s, op, loc, rem, n, ts, i, next - 1)
    modifies w
    ensures Batching(s0, w.s, op, loc, rem, n, ts, i + 1, next)
  {
    ghost var s := w.s;
    IssueOne(w, s0, op, loc, rem, n, ts, i);
    LastAreOutNext(s, w.s, loc, n, ts, i, next);
  }

  /** One turn of the loop. */
  method BatchStep(w: Window, ghost s0: State, op: Op, loc: seq<int>, rem: seq<int>, n: nat, ts: int, i: nat,
                   flush: bool, flushLocal: bool, endToEnd: bool, ghost out: nat, ghost next: nat)
    requires Ready(s0, op, loc, rem, n, ts) && i < |loc| && ts > 0
    requires Batching(s0, w.s, op, loc, rem, n, ts, i, out) && next == if flush then 1 else out + 1
    modifies w
    ensures Batching(s0, w.s, op, loc, rem, n, ts, i + 1, next)
  {
    if flush { FlushBatch(w, s0, op, loc, rem, n, ts, i, flushLocal, endToEnd, out); }
    IssueInBatch(w, s0, op, loc, rem, n, ts, i, next);
  }

  /** How many segments are outstanding after i turns of the loop, and how many at most so far. */
  ghost function Outstanding(i: nat, consrv: bool, limit: int): nat {
    if i == 0 then 0 else if consrv then 1 else if limit > 0 then (i - 1) % limit + 1 else i
  }

  ghost function MostOutstanding(i: nat, consrv: bool, limit: int): nat {
    if consrv then Min(i, 1) else if limit > 0 then Min(i, limit) else i
  }

  lemma {:induction false} NextOutstanding(i: nat, consrv: bool, limit: int)
    ensures var flush := i > 0 && (consrv || (limit > 0 && i % limit == 0));
            var out := if flush then 1 else Outstanding(i, consrv, limit) + 1;
            && out == Outstanding(i + 1, consrv, limit)
            && MostOutstanding(i + 1, consrv, limit) == Max(MostOutstanding(i, consrv, limit), out)
  {
    if !consrv && limit > 0 {
      if i > 0 && i % limit != 0 { Predecessor(i, limit); }
      if i > 0 { SmallRemainder(i - 1, limit); }
      SmallRemainder(i, limit);
    }
  }

  lemma {:induction false} Predecessor(i: nat, limit: nat)
    requires limit > 0 && i % limit != 0
    ensures i > 0 && (i - 1) % limit == i % limit - 1
  {
    var q, k := i / limit, i % limit;
    assert i - 1 == limit * q + (k - 1);
    RemainderUnique(i - 1, limit, q, k - 1);
  }

  lemma {:induction false} RemainderUnique(x: nat, d: nat, q: int, k: nat)
    requires d > 0 && x == d * q + k && k < d
    ensures x % d == k
  {
    var q', k' := x / d, x % d;
    assert d * (q - q') == k' - k;
    assert q - q' >= 1 ==> d * (q - q') >= d;
    assert q - q' <= -1 ==> d * (q - q') <= 0 - d;
  }

  lemma {:induction false} SmallRemainder(i: nat, limit: nat)
    requires limit > 0
    ensures i % limit < limit && i % limit <= i && (i < limit ==> i % limit == i)
  {
    if i < limit { RemainderUnique(i, limit, 0, i); }
  }

  lemma {:induction false} BatchStart(s: State, op: Op, loc: seq<int>, rem: seq<int>, n: nat, ts: int)
    requires Idle(s) && |loc| == |rem|
    ensures Batching(s, s, op, loc, rem, n, ts, 0, 0)
  {
    MovedStart(s, op);
    NoneOut(s, loc, n, ts, 0);
  }

  /** ARMCII_Iov_op_batched for a blocking call. `most` is the largest number of segments that are ever
      outstanding at once: one in conservative mode, the batch limit where there is one. */
  method OpBatched(w: Window, op: Op, src: seq<int>, dst: seq<int>, n: nat, ts: int, consrv: bool, limit: int,
                   endToEnd: bool) returns (ghost most: nat)
    requires |src| > 0 && ts > 0
    requires Ready(w.s, op, if op == GET then dst else src, if op == GET then src else dst, n, ts)
    modifies w
    ensures Idle(w.s) && (op == GET || endToEnd ==> w.s.sent == [])
    ensures Moved(old(w.s), w.s, op, AllCells(if op == GET then dst else src, n, ts),
                  AllCells(if op == GET then src else dst, n, ts))
    ensures most == if consrv then 1 else if 0 < limit < |src| then limit else |src|
  {
    var flushLocal := true;
    var loc, rem := if op == GET then dst else src, if op == GET then src else dst;
    BatchStart(w.s, op, loc, rem, n, ts);
    most := 0;
    for i := 0 to |loc|
      invariant Batching(old(w.s), w.s, op, loc, rem, n, ts, i, Outstanding(i, consrv, limit))
      invariant i > 0 ==> flushLocal == (op != GET)
      invariant most == MostOutstanding(i, consrv, limit)
    {
      NextOutstanding(i, consrv, limit);
      var flush := i > 0 && (consrv || (limit > 0 && i % limit == 0));
      BatchStep(w, old(w.s), op, loc, rem, n, ts, i, flush, flushLocal, endToEnd, Outstanding(i, consrv, limit),
                Outstanding(i + 1, consrv, limit));
      most := Max(most, Outstanding(i + 1, consrv, limit));
      flushLocal := op != GET;
    }
    MovedWhole(old(w.s), w.s, op, loc, rem, n, ts);
    FlushMoved(w, old(w.s), op, AllCells(loc, n, ts), AllCells(rem, n, ts), flushLocal, endToEnd);
  }

  // ----- Which segments go into one operation

  /** How many segments one operation takes: the chunk size, where none or too large a one means all. */
  function PerOperation(dtypeChunk: int, count: nat): (c: nat)
    ensures count > 0 ==> 0 < c <= count
  {
    if dtypeChunk <= 0 || dtypeChunk > count then count else dtypeChunk
  }

  function Min(a: int, b: int): int { if a < b then a else b }

  function Max(a: int, b: int): int { if a < b then b else a }

  /** The target cells of each operation of the issuing loop from segment `start` on. */
  ghost function Operations(rem: seq<int>, n: nat, ts: int, c: nat, start: nat): seq<seq<int>>
    requires c > 0 && start <= |rem|
    decreases |rem| - start
  {
    if start == |rem| then []
    else
      var end := Min(start + c, |rem|);
      [AllCells(rem[start..end], n, ts)] + Operations(rem, n, ts, c, end)
  }

  /** MPI: no operation names a target element twice. */
  ghost predicate AllDistinct(ops: seq<seq<int>>) { forall i :: 0 <= i < |ops| ==> Distinct(ops[i]) }

  /** Segments from `start` on that go into the same operation share no element. */
  ghost predicate ApartFrom(rem: seq<int>, n: nat, ts: int, c: nat, start: nat)
    requires c > 0
  {
    forall i, j :: start <= i < j < |rem| && i / c == j / c ==> Apart(rem[i], rem[j], n, ts)
  }

  lemma {:induction false} OperationAt(rem: seq<int>, n: nat, ts: int, c: nat, start: nat, i: nat, at: nat)
    requires c > 0 && start <= |rem| && at == start + i * c
    ensures var ops := Operations(rem, n, ts, c, start);
            && (i < |ops| <==> at < |rem|)
            && (i < |ops| ==> ops[i] == AllCells(rem[at..Min(at + c, |rem|)], n, ts))
    decreases i
  {
    if i == 0 || start == |rem| {
      assert i * c >= 0;
    } else {
      FewerTimes(i, c);
      var end := Min(start + c, |rem|);
      var rest := Operations(rem, n, ts, c, end);
      assert Operations(rem, n, ts, c, start) == [AllCells(rem[start..end], n, ts)] + rest;
      if end < |rem| { OperationAt(rem, n, ts, c, end, i - 1, at); }
    }
  }

  lemma {:induction false} FewerTimes(i: nat, c: nat)
    requires i > 0
    ensures (i - 1) * c == i * c - c && (i - 1) * c >= 0
  {
  }

  /** One operation without a usable chunk size. With one, operation i takes that many segments from where
      the operation before it ended, and only the last may take fewer. */
  lemma {:induction false} OperationSizes(rem: seq<int>, n: nat, ts: int, dtypeChunk: int, i: nat)
    requires rem != []
    ensures var ops := Operations(rem, n, ts, PerOperation(dtypeChunk, |rem|), 0);
            if dtypeChunk <= 0 || |rem| < dtypeChunk then ops == [AllCells(rem, n, ts)]
            else
              && (i < |ops| <==> i * dtypeChunk < |rem|)
              && (i < |ops| ==>
                    ops[i] == AllCells(rem[i * dtypeChunk..Min((i + 1) * dtypeChunk, |rem|)], n, ts))
              && (i + 1 < |ops| ==>
                    (i + 1) * dtypeChunk < |rem|
                    && ops[i] == AllCells(rem[i * dtypeChunk..(i + 1) * dtypeChunk], n, ts))
  {
    if dtypeChunk <= 0 || |rem| < dtypeChunk {
      assert rem[0..|rem|] == rem;
    } else {
      var d := dtypeChunk;
      FewerTimes(i + 1, d);
      OperationAt(rem, n, ts, d, 0, i, i * d);
      OperationAt(rem, n, ts, d, 0, i + 1, (i + 1) * d);
    }
  }

  ghost predicate ChunksApart(rem: seq<int>, n: nat, ts: int, dtypeChunk: int) {
    rem == [] || ApartFrom(rem, n, ts, PerOperation(dtypeChunk, |rem|), 0)
  }

  lemma {:induction false} SegmentsDistinct(ptrs: seq<int>, n: nat, ts: nat)
    requires ts > 0
    ensures Distinct(AllCells(ptrs, n, ts)) <==> forall i, j :: 0 <= i < j < |ptrs| ==> Apart(ptrs[i], ptrs[j], n, ts)
  {
    if Distinct(AllCells(ptrs, n, ts)) {
      forall i, j | 0 <= i < j < |ptrs| ensures Apart(ptrs[i], ptrs[j], n, ts) { ApartOf(ptrs, n, ts, i, j); }
    } else if forall i, j :: 0 <= i < j < |ptrs| ==> Apart(ptrs[i], ptrs[j], n, ts) {
      ApartDistinct(ptrs, n, ts);
    }
  }

  lemma {:induction false} SliceDistinct(rem: seq<int>, n: nat, ts: nat, start: nat, end: nat)
    requires ts > 0 && start <= end <= |rem|
    ensures Distinct(AllCells(rem[start..end], n, ts)) <==>
            forall i, j :: start <= i < j < end ==> Apart(rem[i], rem[j], n, ts)
  {
    var some := rem[start..end];
    SegmentsDistinct(some, n, ts);
    if forall i, j :: start <= i < j < end ==> Apart(rem[i], rem[j], n, ts) {
      forall i, j | 0 <= i < j < |some| ensures Apart(some[i], some[j], n, ts) {
        assert some[i] == rem[start + i] && some[j] == rem[start + j];
      }
    }
    if forall i, j :: 0 <= i < j < |some| ==> Apart(some[i], some[j], n, ts) {
      forall i, j | start <= i < j < end ensures Apart(rem[i], rem[j], n, ts) {
        assert some[i - start] == rem[i] && some[j - start] == rem[j];
      }
    }
  }

  lemma {:induction false} ChunkOf(i: nat, k: nat, c: nat, start: nat)
    requires c > 0 && start == k * c && start <= i
    ensures i < start + c ==> i / c == k
    ensures i >= start + c ==> i / c > k
  {
    var q, r := i / c, i % c;
    assert i == q * c + r;
    Multiples(q, k, c);
  }

  lemma {:induction false} Multiples(q: int, k: int, c: int)
    requires c > 0
    ensures q < k ==> q * c + c <= k * c
    ensures q > k ==> k * c + c <= q * c
  {
    var d := q - k;
    assert d * c == q * c - k * c;
    assert d >= 1 ==> d * c >= c;
    assert d <= -1 ==> d * c <= -c;
  }

  /** One operation more. */
  lemma {:induction false} ApartStep(rem: seq<int>, n: nat, ts: nat, c: nat, k: nat, start: nat)
    requires c > 0 && start == k * c && start < |rem|
    ensures var end := Min(start + c, |rem|);
            ApartFrom(rem, n, ts, c, start) <==>
            ApartFrom(rem, n, ts, c, end) && forall i, j :: start <= i < j < end ==> Apart(rem[i], rem[j], n, ts)
  {
    var end := Min(start + c, |rem|);
    forall i | start <= i < |rem|
      ensures (i < end ==> i / c == k) && (i >= end ==> i / c > k)
    {
      ChunkOf(i, k, c, start);
    }
    if ApartFrom(rem, n, ts, c, end) && forall i, j :: start <= i < j < end ==> Apart(rem[i], rem[j], n, ts) {
      forall i, j | start <= i < j < |rem| && i / c == j / c ensures Apart(rem[i], rem[j], n, ts) {
        if j >= end { assert i >= end; }
      }
    }
  }

  lemma {:induction false} OperationsFrom(rem: seq<int>, n: nat, ts: nat, c: nat, k: nat, start: nat)
    requires c > 0 && ts > 0 && (start == k * c || start == |rem|) && start <= |rem|
    ensures AllDistinct(Operations(rem, n, ts, c, start)) <==> ApartFrom(rem, n, ts, c, start)
    decreases |rem| - start
  {
    if start < |rem| {
      var end := Min(start + c, |rem|);
      assert (k + 1) * c == k * c + c;
      assert Operations(rem, n, ts, c, start) == [AllCells(rem[start..end], n, ts)] + Operations(rem, n, ts, c, end);
      OperationsFrom(rem, n, ts, c, k + 1, end);
      ApartStep(rem, n, ts, c, k, start);
      SliceDistinct(rem, n, ts, start, end);
      FirstAndRest(AllCells(rem[start..end], n, ts), Operations(rem, n, ts, c, end));
    }
  }

  lemma {:induction false} FirstAndRest(first: seq<int>, rest: seq<seq<int>>)
    ensures AllDistinct([first] + rest) <==> Distinct(first) && AllDistinct(rest)
  {
    var all := [first] + rest;
    assert all[0] == first && forall i :: 0 <= i < |rest| ==> rest[i] == all[i + 1];
  }

  /** Every operation of the issuing loop names distinct target elements if and only if segments that go
      into the same operation share none. */
  lemma {:induction false} OperationsDistinct(rem: seq<int>, n: nat, ts: nat, dtypeChunk: int)
    requires ts > 0 && rem != []
    ensures AllDistinct(Operations(rem, n, ts, PerOperation(dtypeChunk, |rem|), 0)) <==>
            ChunksApart(rem, n, ts, dtypeChunk)
  {
    OperationsFrom(rem, n, ts, PerOperation(dtypeChunk, |rem|), 0, 0);
  }

  /** Two segments at one place: without a chunk size they go into one operation, which names the element
      twice; with a chunk size of one they do not. */
  lemma {:induction false} SamePlaceTwice(rem: seq<int>)
    requires rem == [0, 0]
    ensures Operations(rem, 1, 4, PerOperation(0, 2), 0) == [[0, 0]] && !AllDistinct([[0, 0]])
    ensures !ChunksApart(rem, 1, 4, 0) && ChunksApart(rem, 1, 4, 1)
  {
    TwoCells(rem);
    assert rem[0..2] == rem;
    assert Operations(rem, 1, 4, 2, 0) == [AllCells(rem[0..2], 1, 4)] + Operations(rem, 1, 4, 2, 2);
    NotDistinct();
    OperationsDistinct(rem, 1, 4, 0);
    OneEach(rem, 1, 4);
  }

  lemma {:induction false} NotDistinct()
    ensures !AllDistinct([[0, 0]])
  {
    var ops := [[0, 0]];
    assert ops[0][0] == ops[0][1];
    assert !Distinct(ops[0]);
  }

  lemma {:induction false} TwoCells(rem: seq<int>)
    requires rem == [0, 0]
    ensures AllCells(rem, 1, 4) == [0, 0]
  {
    var c := Cells(0, 1, 4);
    assert c == [0];
    assert rem[..1] == [0] && rem[..1][..0] == [];
    assert AllCells(rem[..1], 1, 4) == AllCells([], 1, 4) + c;
    assert AllCells(rem, 1, 4) == AllCells(rem[..1], 1, 4) + c;
  }

  /** One segment for each operation never names an element twice. */
  lemma {:induction false} OneEach(rem: seq<int>, n: nat, ts: int)
    ensures ChunksApart(rem, n, ts, 1)
  {
  }

  // ----- The datatype form

  /** MPI_Type_create_indexed_block: n elements of ts bytes from each element displacement on. */
  function Indexed(base: int, disps: seq<int>, n: nat, ts: int): seq<int> {
    if disps == [] then []
    else Indexed(base, disps[..|disps| - 1], n, ts) + seq(n, j => base + (disps[|disps| - 1] + j) * ts)
  }

  lemma {:induction false} IndexedIsSegments(base: int, disps: seq<int>, ptrs: seq<int>, n: nat, ts: int)
    requires |disps| == |ptrs| && forall i :: 0 <= i < |ptrs| ==> ptrs[i] == base + disps[i] * ts
    ensures Indexed(base, disps, n, ts) == AllCells(ptrs, n, ts)
  {
    if ptrs != [] {
      var k := |ptrs| - 1;
      IndexedIsSegments(base, disps[..k], ptrs[..k], n, ts);
      var last, cells := seq(n, j => base + (disps[k] + j) * ts), Cells(ptrs[k], n, ts);
      forall j | 0 <= j < n ensures last[j] == cells[j] {
        assert (disps[k] + j) * ts == disps[k] * ts + j * ts;
      }
      assert last == cells;
    }
  }

  ghost predicate Displaced(ptrs: seq<int>, base: int, disps: seq<int>, ts: int) {
    |disps| == |ptrs| && forall i :: 0 <= i < |ptrs| ==> ptrs[i] == base + disps[i] * ts
  }

  lemma {:induction false} IndexedSlice(base: int, disps: seq<int>, ptrs: seq<int>, n: nat, ts: int, i: nat, k: nat)
    requires Displaced(ptrs, base, disps, ts) && i <= k <= |ptrs|
    ensures Indexed(base, disps[i..k], n, ts) == AllCells(ptrs[i..k], n, ts)
  {
    IndexedIsSegments(base, disps[i..k], ptrs[i..k], n, ts);
  }

  ghost function Lowest(p: seq<int>): int
    requires p != []
  {
    if |p| == 1 || p[|p| - 1] < Lowest(p[..|p| - 1]) then p[|p| - 1] else Lowest(p[..|p| - 1])
  }

  lemma {:induction false} LowestIs(p: seq<int>, i: nat)
    requires i < |p|
    ensures Lowest(p) <= p[i]
  {
    if i < |p| - 1 { LowestIs(p[..|p| - 1], i); }
  }

  lemma {:induction false} LowestIn(p: seq<int>)
    requires p != []
    ensures Lowest(p) in p
  {
    if |p| > 1 { LowestIn(p[..|p| - 1]); }
  }

  /** The first loop of ARMCII_Iov_op_datatype. */
  method LowestAddress(p: seq<int>) returns (base: int)
    requires p != []
    ensures base == Lowest(p) && base in p && forall i :: 0 <= i < |p| ==> base <= p[i]
  {
    base := p[0];
    for i := 0 to |p|
      invariant i == 0 ==> base == p[0]
      invariant i > 0 ==> base == Lowest(p[..i])
    {
      assert p[..i + 1][..i] == p[..i] && p[..i + 1][i] == p[i];
      if p[i] < base { base := p[i]; }
    }
    assert p[..|p|] == p;
    LowestIn(p);
    forall i | 0 <= i < |p| ensures base <= p[i] { LowestIs(p, i); }
  }

  /** What the assertions of the datatype form ask: element-aligned offsets that fit 32 bits. */
  ghost predicate Addressable(loc: seq<int>, rem: seq<int>, window: int, ts: int)
    requires |loc| == |rem| && ts > 0
  {
    forall i :: 0 <= i < |loc| ==> Accepted(loc[i], rem[i], Lowest(loc), window, ts)
  }

  predicate Accepted(p: int, q: int, base: int, window: int, ts: int)
    requires ts > 0
  {
    (p - base) % ts == 0 && (p - base) / ts <= INT_MAX && (q - window) % ts == 0
  }

  /** Every segment lies in the target's slice. */
  ghost predicate InSlice(rem: seq<int>, bytes: nat, window: int, size: int) {
    forall i :: 0 <= i < |rem| ==> window <= rem[i] && rem[i] + bytes <= window + size
  }

  /** The displacement loop: false when one of its assertions fails. */
  method Displacements(loc: seq<int>, rem: seq<int>, base: int, window: int, size: int, n: nat, ts: int)
      returns (ok: bool, dispLoc: seq<int>, dispRem: seq<int>)
    requires loc != [] && |loc| == |rem| && ts > 0 && base == Lowest(loc) && n > 0
    requires InSlice(rem, n * ts, window, size) && size <= INT_MAX
    ensures ok <==> Addressable(loc, rem, window, ts)
    ensures ok ==> Displaced(loc, base, dispLoc, ts) && Displaced(rem, window, dispRem, ts)
    ensures ok ==> forall i :: 0 <= i < |loc| ==> 0 <= dispLoc[i] <= INT_MAX && 0 <= dispRem[i] < size
  {
    dispLoc, dispRem := [], [];
    for i := 0 to |loc|
      invariant Displaced(loc[..i], base, dispLoc, ts) && Displaced(rem[..i], window, dispRem, ts)
      invariant forall j :: 0 <= j < i ==> Accepted(loc[j], rem[j], base, window, ts)
      invariant forall j :: 0 <= j < i ==> 0 <= dispLoc[j] <= INT_MAX && 0 <= dispRem[j] < size
    {
      var offLoc, offRem := (loc[i] - base) / ts, (rem[i] - window) / ts;
      LowestIs(loc, i);
      assert window <= rem[i] && rem[i] + n * ts <= window + size;
      Fits32(rem[i] - window, n, ts, size);
      if (loc[i] - base) % ts != 0 || offLoc > INT_MAX || (rem[i] - window) % ts != 0
         || !(offRem >= 0 && offRem < size) || rem[i] + n > window + size {
        return false, [], [];
      }
      Exact(loc[i] - base, ts);
      Exact(rem[i] - window, ts);
      dispLoc, dispRem := dispLoc + [offLoc], dispRem + [offRem];
    }
    assert loc[..|loc|] == loc && rem[..|rem|] == rem;
    ok := true;
  }

  lemma {:induction false} Exact(d: int, ts: int)
    requires ts > 0 && d >= 0
    ensures d / ts >= 0 && (d % ts == 0 ==> d == d / ts * ts)
  {
  }

  lemma {:induction false} Fits32(d: int, n: nat, ts: int, size: int)
    requires ts > 0 && n > 0 && 0 <= d && d + n * ts <= size
    ensures 0 <= d / ts < size && d + n <= size
  {
    Grows(n, ts);
    var q := d / ts;
    assert d == ts * q + d % ts && q >= 0;
    Grows(q, ts);
  }

  lemma {:induction false} Grows(n: int, ts: int)
    requires n >= 0 && ts > 0
    ensures n * ts >= n && ts * n >= n
  {
    assert n * ts == n + n * (ts - 1) && n * (ts - 1) >= 0;
  }

  /** ARMCII_Iov_op_datatype for a blocking call: false when an assertion stops the program. */
  method OpDatatype(w: Window, op: Op, src: seq<int>, dst: seq<int>, n: nat, ts: int, window: int, size: int,
                    dtypeChunk: int, endToEnd: bool)
      returns (ok: bool)
    requires |src| > 0 && n > 0 && ts > 0 && size <= INT_MAX
    requires Ready(w.s, op, if op == GET then dst else src, if op == GET then src else dst, n, ts)
    requires InSlice(if op == GET then src else dst, n * ts, window, size)
    requires op == ACC ==> ChunksApart(dst, n, ts, dtypeChunk)
    modifies w
    ensures ok <==> Addressable(if op == GET then dst else src, if op == GET then src else dst, window, ts)
    ensures !ok ==> w.s == old(w.s)
    ensures ok ==> Idle(w.s) && (op == GET || endToEnd ==> w.s.sent == [])
    ensures ok ==> Moved(old(w.s), w.s, op, AllCells(if op == GET then dst else src, n, ts),
                         AllCells(if op == GET then src else dst, n, ts))
  {
    var loc, rem := if op == GET then dst else src, if op == GET then src else dst;
    var count := |loc|;
    var base := LowestAddress(loc);
    var dispLoc, dispRem;
    ok, dispLoc, dispRem := Displacements(loc, rem, base, window, size, n, ts);
    if !ok { return; }
    ghost var ops := Chunks(w, op, loc, rem, dispLoc, dispRem, base, window, n, ts, dtypeChunk);
    FlushMoved(w, old(w.s), op, AllCells(loc, n, ts), AllCells(rem, n, ts), op != GET, endToEnd);
  }

  /** One operation over the segments from start to end; `named` are its target cells. */
  method Chunk(w: Window, ghost s0: State, op: Op, ghost loc: seq<int>, ghost rem: seq<int>, dispLoc: seq<int>,
               dispRem: seq<int>,
               base: int, window: int, n: nat, ts: int, start: nat, end: nat) returns (ghost named: seq<int>)
    requires Ready(s0, op, loc, rem, n, ts) && Displaced(loc, base, dispLoc, ts) && Displaced(rem, window, dispRem, ts)
    requires start <= end <= |loc| && (op == ACC ==> Distinct(AllCells(rem[start..end], n, ts)))
    requires Moved(s0, w.s, op, AllCells(loc[..start], n, ts), AllCells(rem[..start], n, ts))
    modifies w
    ensures Moved(s0, w.s, op, AllCells(loc[..end], n, ts), AllCells(rem[..end], n, ts))
    ensures named == AllCells(rem[start..end], n, ts)
  {
    named := Indexed(window, dispRem[start..end], n, ts);
    IndexedSlice(base, dispLoc, loc, n, ts, start, end);
    IndexedSlice(window, dispRem, rem, n, ts, start, end);
    IssueSegments(w, s0, op, loc, rem, n, ts, start, end,
                  Indexed(base, dispLoc[start..end], n, ts), Indexed(window, dispRem[start..end], n, ts));
  }

  /** The issuing loop: one operation, or one per chunk of segments. `ops` are the target cells of each. */
  method Chunks(w: Window, op: Op, ghost loc: seq<int>, ghost rem: seq<int>, dispLoc: seq<int>, dispRem: seq<int>,
                base: int, window: int, n: nat, ts: int, dtypeChunk: int) returns (ghost ops: seq<seq<int>>)
    requires Ready(w.s, op, loc, rem, n, ts) && loc != [] && ts > 0
    requires Displaced(loc, base, dispLoc, ts) && Displaced(rem, window, dispRem, ts)
    requires op == ACC ==> ChunksApart(rem, n, ts, dtypeChunk)
    modifies w
    ensures Moved(old(w.s), w.s, op, AllCells(loc, n, ts), AllCells(rem, n, ts))
    ensures ops == Operations(rem, n, ts, PerOperation(dtypeChunk, |rem|), 0)
  {
    var count := |dispLoc|;
    var chunk := dtypeChunk;
    if chunk <= 0 || chunk > count { chunk := count; }
    MovedStart(w.s, op);
    if op == ACC { OperationsDistinct(rem, n, ts, dtypeChunk); }
    ghost var all := Operations(rem, n, ts, chunk, 0);
    assert [] + all == all;
    ops := ChunkLoop(w, w.s, op, loc, rem, dispLoc, dispRem, base, window, n, ts, chunk, all);
    MovedWhole(old(w.s), w.s, op, loc, rem, n, ts);
  }

  /** The operations before segment `start` are `ops`, and none that is left names an element twice if that
      matters. */
  ghost predicate OpsSoFar(op: Op, rem: seq<int>, n: nat, ts: int, chunk: nat, start: nat,
                           all: seq<seq<int>>, ops: seq<seq<int>>) {
    && chunk > 0 && start <= |rem| && all == ops + Operations(rem, n, ts, chunk, start)
    && (op == ACC ==> AllDistinct(all))
  }

  method ChunkLoop(w: Window, ghost s0: State, op: Op, ghost loc: seq<int>, ghost rem: seq<int>,
                   dispLoc: seq<int>, dispRem: seq<int>, base: int, window: int, n: nat, ts: int,
                   chunk: nat, ghost all: seq<seq<int>>) returns (ghost ops: seq<seq<int>>)
    requires Ready(s0, op, loc, rem, n, ts) && chunk > 0
    requires Displaced(loc, base, dispLoc, ts) && Displaced(rem, window, dispRem, ts)
    requires OpsSoFar(op, rem, n, ts, chunk, 0, all, [])
    requires Moved(s0, w.s, op, AllCells(loc[..0], n, ts), AllCells(rem[..0], n, ts))
    modifies w
    ensures Moved(s0, w.s, op, AllCells(loc[..|loc|], n, ts), AllCells(rem[..|rem|], n, ts))
    ensures OpsSoFar(op, rem, n, ts, chunk, |rem|, all, ops)
  {
    var start := 0;
    ops := [];
    while start < |dispLoc|
      invariant 0 <= start <= |dispLoc| && OpsSoFar(op, rem, n, ts, chunk, start, all, ops)
      invariant Moved(s0, w.s, op, AllCells(loc[..start], n, ts), AllCells(rem[..start], n, ts))
    {
      start, ops := NextChunk(w, s0, op, loc, rem, dispLoc, dispRem, base, window, n, ts, chunk, start, all, ops);
    }
  }

  method NextChunk(w: Window, ghost s0: State, op: Op, ghost loc: seq<int>, ghost rem: seq<int>,
                   dispLoc: seq<int>, dispRem: seq<int>, base: int, window: int, n: nat, ts: int,
                   chunk: nat, start: nat, ghost all: seq<seq<int>>, ghost ops: seq<seq<int>>)
      returns (end: nat, ghost more: seq<seq<int>>)
    requires Ready(s0, op, loc, rem, n, ts) && start < |loc|
    requires Displaced(loc, base, dispLoc, ts) && Displaced(rem, window, dispRem, ts)
    requires OpsSoFar(op, rem, n, ts, chunk, start, all, ops)
    requires Moved(s0, w.s, op, AllCells(loc[..start], n, ts), AllCells(rem[..start], n, ts))
    modifies w
    ensures start < end <= |loc| && OpsSoFar(op, rem, n, ts, chunk, end, all, more)
    ensures Moved(s0, w.s, op, AllCells(loc[..end], n, ts), AllCells(rem[..end], n, ts))
  {
    var count := |dispLoc|;
    end := start + if count - start < chunk then count - start else chunk;
    NextOperation(rem, n, ts, chunk, start, end, all, ops);
    ghost var named := Chunk(w, s0, op, loc, rem, dispLoc, dispRem, base, window, n, ts, start, end);
    more := ops + [named];
  }

  lemma {:induction false} NextOperation(rem: seq<int>, n: nat, ts: int, c: nat, start: nat, end: nat,
                                         all: seq<seq<int>>, ops: seq<seq<int>>)
    requires c > 0 && start < |rem| && end == Min(start + c, |rem|) && all == ops + Operations(rem, n, ts, c, start)
    ensures AllDistinct(all) ==> Distinct(AllCells(rem[start..end], n, ts))
    ensures all == (ops + [AllCells(rem[start..end], n, ts)]) + Operations(rem, n, ts, c, end)
  {
    var now, rest := AllCells(rem[start..end], n, ts), Operations(rem, n, ts, c, end);
    assert Operations(rem, n, ts, c, start) == [now] + rest;
    assert ops + ([now] + rest) == (ops + [now]) + rest;
    assert all[|ops|] == now;
  }
}
