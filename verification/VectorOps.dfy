/** PARMCI_PutV, PARMCI_GetV and PARMCI_AccV (src/vector.c): every way of carrying out a vector
    operation has the effect of moving its segments one after the other. */
module VectorOps {
  import opened Memory
  import opened Rma
  import opened Segments
  import opened Progress
  import opened Buffers
  import opened IoVector
  import opened Options
  import opened VectorChecks
  import OverlapCheck
  import Regions = RegionList

  /** ARMCII_Iov_op_dispatch: false when an assertion stops the program, which is before anything is
      issued. */
  method Dispatch(w: Window, cfg: Config, op: Op, loc: seq<int>, rem: seq<int>, bytes: nat, ts: nat,
                  overlapping: bool, sameAlloc: bool, window: int, size: int) returns (ok: bool)
    requires |loc| > 0 && bytes > 0 && ts > 0 && size <= INT_MAX
    requires Ready(w.s, op, loc, rem, bytes / ts, ts) && InSlice(rem, bytes, window, size)
    requires op == ACC && UsesDatatype(cfg, overlapping, sameAlloc) ==> ChunksApart(rem, bytes / ts, ts, cfg.chunk)
    modifies w
    ensures ok <==> bytes % ts == 0 && (UsesDatatype(cfg, overlapping, sameAlloc) ==> Addressable(loc, rem, window, ts))
    ensures !ok ==> w.s == old(w.s)
    ensures ok ==> Idle(w.s) && Moved(old(w.s), w.s, op, AllCells(loc, bytes / ts, ts), AllCells(rem, bytes / ts, ts))
    ensures ok && (op == GET || cfg.endToEnd) ==> w.s.sent == []
  {
    var n := bytes / ts;
    if bytes % ts != 0 { return false; }
    assert bytes == n * ts && n > 0 by { Whole(bytes, ts); }
    var src, dst := if op == GET then rem else loc, if op == GET then loc else rem;
    if overlapping || !sameAlloc || cfg.how == Conservative {
      ghost var _ := OpBatched(w, op, src, dst, n, ts, true, cfg.limit, cfg.endToEnd);
      ok := true;
    } else if cfg.how == Direct || cfg.how == Auto {
      ok := OpDatatype(w, op, src, dst, n, ts, window, size, cfg.chunk, cfg.endToEnd);
    } else {
      ghost var _ := OpBatched(w, op, src, dst, n, ts, false, cfg.limit, cfg.endToEnd);
      ok := true;
    }
  }

  /** What gmr_lookup answers for an address on the target: each slice is found from exactly its own
      addresses. */
  ghost predicate Coherent(lookup: int -> Option<Regions.Slice>) {
    forall a, b :: FoundFrom(lookup, a, b)
  }

  ghost predicate FoundFrom(lookup: int -> Option<Regions.Slice>, a: int, b: int) {
    lookup(a).Some? ==> (Regions.Contains(lookup(a).value, b) <==> lookup(b) == lookup(a))
  }

  /** ARMCII_Iov_check_same_allocation: with checks on, true exactly when every pointer is looked up to the
      same slice, or none to any. */
  method SameAllocation(ptrs: seq<int>, lookup: int -> Option<Regions.Slice>, checks: bool) returns (same: bool)
    requires |ptrs| > 0
    ensures lookup(ptrs[0]).None? ==> (same <==> !checks || forall i :: 0 <= i < |ptrs| ==> lookup(ptrs[i]).None?)
    ensures lookup(ptrs[0]).Some? ==>
              (same <==> !checks || forall i :: 0 < i < |ptrs| ==> Regions.Contains(lookup(ptrs[0]).value, ptrs[i]))
    ensures Coherent(lookup) ==>
              (same <==> !checks || forall i :: 0 <= i < |ptrs| ==> lookup(ptrs[i]) == lookup(ptrs[0]))
  {
    if !checks { return true; }
    if Coherent(lookup) { SameSlice(ptrs, lookup); }
    same := true;
    match lookup(ptrs[0]) {
      case None =>
        for i := 1 to |ptrs|
          invariant forall j :: 0 <= j < i ==> lookup(ptrs[j]).None?
        {
          if lookup(ptrs[i]).Some? { return false; }
        }
      case Some(slice) =>
        for i := 1 to |ptrs|
          invariant forall j :: 0 < j < i ==> Regions.Contains(slice, ptrs[j])
        {
          if !Regions.Contains(slice, ptrs[i]) { return false; }
        }
    }
  }

  lemma {:induction false} SameSlice(ptrs: seq<int>, lookup: int -> Option<Regions.Slice>)
    requires |ptrs| > 0 && Coherent(lookup)
    ensures (forall i :: 0 <= i < |ptrs| ==> lookup(ptrs[i]) == lookup(ptrs[0])) <==>
            if lookup(ptrs[0]).None? then forall i :: 0 <= i < |ptrs| ==> lookup(ptrs[i]).None?
            else forall i :: 0 < i < |ptrs| ==> Regions.Contains(lookup(ptrs[0]).value, ptrs[i])
  {
    if lookup(ptrs[0]).Some? {
      forall i | 0 <= i < |ptrs|
        ensures Regions.Contains(lookup(ptrs[0]).value, ptrs[i]) <==> lookup(ptrs[i]) == lookup(ptrs[0])
      {
        assert FoundFrom(lookup, ptrs[0], ptrs[i]);
      }
    }
  }

  /** The target's slice of the one allocation that a vector is in. */
  function InSliceOf(window: int, size: int): int -> Option<Regions.Slice> {
    a => if window <= a < window + size then Some(Regions.Slice(window, size)) else None
  }

  /** The two checks before a vector is prepared, for segments inside one slice. */
  method Checked(cfg: Config, iov: Giov, rem: seq<int>, window: int, size: int)
      returns (overlapping: bool, sameAlloc: bool)
    requires iov.bytes > 0 && |rem| > 0 && InSlice(rem, iov.bytes, window, size)
    ensures (overlapping <==> Overlapping(cfg, iov)) && sameAlloc
  {
    overlapping := OverlapCheck.CheckWithTree(iov.dst, iov.bytes, cfg.checks);
    sameAlloc := SameAllocation(rem, InSliceOf(window, size), cfg.checks);
  }

  // ----- The data of prepared buffers

  /** The values of prepared buffers, segment after segment. */
  lemma {:induction false} AllScaled(s0: State, s: State, orig: seq<int>, bufs: seq<int>, n: nat, ts: int, scale: int)
    requires |orig| == |bufs| && ScaledData(s0, s, orig, bufs, n, ts, scale, |orig|)
    ensures AllInside(bufs, n, ts, s.local) && Inside(AllCells(bufs, n, ts), s.local)
    ensures Inside(AllCells(orig, n, ts), s0.local)
    ensures Gather(s.local, AllCells(bufs, n, ts)) == Times(scale, Gather(s0.local, AllCells(orig, n, ts)))
  {
    if orig != [] {
      var k := |orig| - 1;
      AllScaled(s0, s, orig[..k], bufs[..k], n, ts, scale);
      GatherConcat(s.local, AllCells(bufs[..k], n, ts), Cells(bufs[k], n, ts));
      GatherConcat(s0.local, AllCells(orig[..k], n, ts), Cells(orig[k], n, ts));
      var a, b := Gather(s0.local, AllCells(orig[..k], n, ts)), Gather(s0.local, Cells(orig[k], n, ts));
      assert Times(scale, a + b) == Times(scale, a) + Times(scale, b);
    }
  }

  lemma {:induction false} SameIsScaled(s0: State, s: State, orig: seq<int>, bufs: seq<int>, n: nat, ts: int)
    requires |orig| == |bufs| && SameData(s0, s, orig, bufs, n, ts, |orig|)
    ensures ScaledData(s0, s, orig, bufs, n, ts, 1, |orig|)
  {
    forall i | 0 <= i < |orig|
      ensures Gather(s.local, Cells(bufs[i], n, ts)) == Times(1, Gather(s0.local, Cells(orig[i], n, ts)))
    {
      var g := Gather(s0.local, Cells(orig[i], n, ts));
      assert Times(1, g) == g;
    }
  }

  /** Preparing, moving from the prepared buffers and finishing is moving from the originals. */
  lemma {:induction false} RoundTrip(s0: State, s1: State, s2: State, s3: State, op: Op, orig: seq<int>,
                                     bufs: seq<int>, rem: seq<int>, n: nat, ts: int, scale: int)
    requires |orig| == |bufs| == |rem| && op != GET && Idle(s0) && OnlyLocal(s0, s1)
    requires ScaledData(s0, s1, orig, bufs, n, ts, scale, |orig|)
    requires Moved(s1, s2, op, AllCells(bufs, n, ts), AllCells(rem, n, ts)) && Idle(s2)
    requires s3 == s2.(local := s0.local, blocks := s0.blocks) && Idle(s3) && View(s3) == View(s2)
    ensures Inside(AllCells(orig, n, ts), s0.local)
    ensures Updated(s0, s3, op, AllCells(rem, n, ts), Times(scale, Gather(s0.local, AllCells(orig, n, ts))))
  {
    AllScaled(s0, s1, orig, bufs, n, ts, scale);
  }

  ghost predicate Fine(iov: Giov, local: Mem, target: Mem, ts: nat, window: int, size: int)
    requires ts > 0
  {
    && |iov.src| == |iov.dst| && AllInside(iov.src, iov.bytes / ts, ts, local)
    && AllInside(iov.dst, iov.bytes / ts, ts, target) && InSlice(iov.dst, iov.bytes, window, size)
  }

  lemma {:induction false} ReadyPrepared(s0: State, s1: State, op: Op, orig: seq<int>, bufs: seq<int>, rem: seq<int>,
                                         n: nat, ts: int, scale: int)
    requires |orig| == |bufs| == |rem| && op != GET && Idle(s0) && OnlyLocal(s0, s1) && AllInside(rem, n, ts, s0.target)
    requires ScaledData(s0, s1, orig, bufs, n, ts, scale, |orig|) && Clear(op, Pending(s0), [], AllCells(rem, n, ts))
    ensures Ready(s1, op, bufs, rem, n, ts)
  {
    AllScaled(s0, s1, orig, bufs, n, ts, scale);
  }

  // ----- One vector, sent

  /** The buffers of a vector have been prepared since `at`, and nothing else has happened. */
  ghost predicate Held(at: State, s: State, scale: int, orig: seq<int>, loc: seq<int>, bytes: nat)
    requires Formed(at) && |orig| == |loc|
  {
    && OnlyLocal(at, s)
    && (if scale != 1 then loc != [] && Gathered(at, s, loc[0], loc, bytes, |loc| * bytes)
        else Borrowed(at, s, orig, loc, bytes, |orig|))
  }

  /** Where a call stops: with the buffers prepared, or before that when the size is not whole elements. */
  ghost predicate StoppedIn(at: State, s: State, op: Op, scale: int, iov: Giov, loc: seq<int>, ts: nat)
    requires Formed(at) && ts > 0 && |Local(op, iov)| == |loc|
  {
    if iov.bytes % ts != 0 then s == at else Held(at, s, scale, Local(op, iov), loc, iov.bytes)
  }

  /** The effect of a vector that is carried out. */
  ghost predicate SentFrom(at: State, s: State, cfg: Config, op: Op, scale: int, iov: Giov, ts: nat)
    requires ts > 0
  {
    var c := AllCells(iov.src, iov.bytes / ts, ts);
    && Idle(s) && Inside(c, at.local) && (cfg.endToEnd ==> s.sent == [])
    && Updated(at, s, op, AllCells(iov.dst, iov.bytes / ts, ts), Times(scale, Gather(at.local, c)))
  }

  /** What the caller owes for one vector. */
  ghost predicate CanSend(s: State, cfg: Config, op: Op, iov: Giov, ts: nat, window: int, size: int) {
    && ts > 0 && (op == PUT ==> ts == 1) && op != GET && Idle(s) && !Empty(iov) && size <= INT_MAX
    && Fine(iov, s.local, s.target, ts, window, size)
    && Clear(op, Pending(s), [], AllCells(iov.dst, iov.bytes / ts, ts))
    && (op == ACC ==> Separable(cfg, iov, ts))
  }

  /** One round of the loop in PARMCI_PutV. */
  method PutOne(w: Window, cfg: Config, shared: int -> bool, iov: Giov, window: int, size: int)
      returns (ok: bool, ghost loc: seq<int>)
    requires CanSend(w.s, cfg, PUT, iov, 1, window, size)
    modifies w
    ensures Prepared(cfg, shared, PUT, 1, iov, loc, 1) && (ok <==> Passes(cfg, PUT, iov, loc, 1, window))
    ensures if ok then SentFrom(old(w.s), w.s, cfg, PUT, 1, iov, 1) else StoppedIn(old(w.s), w.s, PUT, 1, iov, loc, 1)
  {
    var n := iov.bytes;
    var overlapping, sameAlloc := Checked(cfg, iov, iov.dst, window, size);
    ghost var s0 := w.s;
    var bufs := PrepareRead(w, iov.src, n, 1, n, cfg.guard, shared);
    loc := bufs;
    ok := PutPrepared(w, cfg, s0, iov, bufs, overlapping, sameAlloc, window, size);
  }

  method PutPrepared(w: Window, cfg: Config, ghost s0: State, iov: Giov, bufs: seq<int>,
                     overlapping: bool, sameAlloc: bool, window: int, size: int) returns (ok: bool)
    requires CanSend(s0, cfg, PUT, iov, 1, window, size) && |bufs| == |iov.src| && OnlyLocal(s0, w.s)
    requires Borrowed(s0, w.s, iov.src, bufs, iov.bytes, |iov.src|)
    requires SameData(s0, w.s, iov.src, bufs, iov.bytes, 1, |iov.src|) && (!cfg.guard ==> bufs == iov.src)
    modifies w
    ensures ok <==> (UsesDatatype(cfg, overlapping, sameAlloc) ==> Addressable(bufs, iov.dst, window, 1))
    ensures !ok ==> w.s == old(w.s)
    ensures ok ==> SentFrom(s0, w.s, cfg, PUT, 1, iov, 1)
  {
    var n := iov.bytes;
    ghost var s1 := w.s;
    SameIsScaled(s0, s1, iov.src, bufs, n, 1);
    ReadyPrepared(s0, s1, PUT, iov.src, bufs, iov.dst, n, 1, 1);
    ok := Dispatch(w, cfg, PUT, bufs, iov.dst, n, 1, overlapping, sameAlloc, window, size);
    if ok {
      ghost var s2 := w.s;
      FinishRead(w, s0, iov.src, bufs, n, cfg.guard);
      RoundTrip(s0, s1, s2, w.s, PUT, iov.src, bufs, iov.dst, n, 1, 1);
    }
  }

  /** One round of the loop in PARMCI_AccV, for an integer type of ts bytes. */
  method AccOne(w: Window, cfg: Config, shared: int -> bool, scale: int, iov: Giov, ts: nat, window: int, size: int)
      returns (ok: bool, ghost loc: seq<int>)
    requires CanSend(w.s, cfg, ACC, iov, ts, window, size)
    modifies w
    ensures Prepared(cfg, shared, ACC, scale, iov, loc, ts) && (ok <==> Passes(cfg, ACC, iov, loc, ts, window))
    ensures if ok then SentFrom(old(w.s), w.s, cfg, ACC, scale, iov, ts)
            else StoppedIn(old(w.s), w.s, ACC, scale, iov, loc, ts)
  {
    loc := iov.src;
    var overlapping, sameAlloc := Checked(cfg, iov, iov.dst, window, size);
    if iov.bytes % ts != 0 { return false, loc; }
    Whole(iov.bytes, ts);
    if cfg.checks && !overlapping { NoOverlapDistinct(iov.dst, iov.bytes / ts, ts, iov.bytes); }
    ghost var s0 := w.s;
    var bufs, region := PrepareAcc(w, iov.src, iov.bytes / ts, ts, iov.bytes, cfg.guard, shared, scale);
    loc := bufs;
    ok := AccPrepared(w, cfg, s0, scale, iov, ts, bufs, region, overlapping, sameAlloc, window, size);
  }

  method AccPrepared(w: Window, cfg: Config, ghost s0: State, ghost scale: int, iov: Giov, ts: nat, bufs: seq<int>,
                     region: Region, overlapping: bool, sameAlloc: bool, window: int, size: int) returns (ok: bool)
    requires CanSend(s0, cfg, ACC, iov, ts, window, size) && iov.bytes % ts == 0
    requires |bufs| == |iov.src| && PreparedAcc(s0, w.s, iov.src, bufs, region, iov.bytes) && OnlyLocal(s0, w.s)
    requires ScaledData(s0, w.s, iov.src, bufs, iov.bytes / ts, ts, scale, |iov.src|)
    requires UsesDatatype(cfg, overlapping, sameAlloc) ==> ChunksApart(iov.dst, iov.bytes / ts, ts, cfg.chunk)
    modifies w
    ensures ok <==> (UsesDatatype(cfg, overlapping, sameAlloc) ==> Addressable(bufs, iov.dst, window, ts))
    ensures !ok ==> w.s == old(w.s)
    ensures ok ==> SentFrom(s0, w.s, cfg, ACC, scale, iov, ts)
  {
    var n := iov.bytes / ts;
    ghost var s1 := w.s;
    ReadyPrepared(s0, s1, ACC, iov.src, bufs, iov.dst, n, ts, scale);
    ok := Dispatch(w, cfg, ACC, bufs, iov.dst, iov.bytes, ts, overlapping, sameAlloc, window, size);
    if ok {
      ghost var s2 := w.s;
      FinishAcc(w, s0, iov.src, bufs, region, iov.bytes);
      RoundTrip(s0, s1, s2, w.s, ACC, iov.src, bufs, iov.dst, n, ts, scale);
    }
  }

  /** One round of either loop. */
  method SendOne(w: Window, cfg: Config, shared: int -> bool, op: Op, scale: int, iov: Giov, ts: nat, window: int,
                 size: int)
      returns (ok: bool, ghost loc: seq<int>)
    requires CanSend(w.s, cfg, op, iov, ts, window, size) && (op == PUT ==> scale == 1)
    modifies w
    ensures Prepared(cfg, shared, op, scale, iov, loc, ts) && (ok <==> Passes(cfg, op, iov, loc, ts, window))
    ensures if ok then SentFrom(old(w.s), w.s, cfg, op, scale, iov, ts)
            else StoppedIn(old(w.s), w.s, op, scale, iov, loc, ts)
  {
    if op == PUT {
      ok, loc := PutOne(w, cfg, shared, iov, window, size);
    } else {
      ok, loc := AccOne(w, cfg, shared, scale, iov, ts, window, size);
    }
  }

  lemma {:induction false} TimesOne(v: seq<int>)
    ensures Times(1, v) == v
  {
  }

  // ----- All vectors of a call

  ghost function SrcCells(iovs: seq<Giov>, ts: nat): seq<int>
    requires ts > 0
  {
    if iovs == [] then []
    else
      var v := iovs[|iovs| - 1];
      SrcCells(iovs[..|iovs| - 1], ts) + AllCells(v.src, v.bytes / ts, ts)
  }

  ghost function DstCells(iovs: seq<Giov>, ts: nat): seq<int>
    requires ts > 0
  {
    if iovs == [] then []
    else
      var v := iovs[|iovs| - 1];
      DstCells(iovs[..|iovs| - 1], ts) + AllCells(v.dst, v.bytes / ts, ts)
  }

  ghost predicate AllFine(iovs: seq<Giov>, local: Mem, target: Mem, ts: nat, window: int, size: int)
    requires ts > 0
  {
    forall v :: 0 <= v < |iovs| ==> Fine(iovs[v], local, target, ts, window, size)
  }

  lemma {:induction false} AllFineInside(iovs: seq<Giov>, local: Mem, target: Mem, ts: nat, window: int, size: int)
    requires ts > 0 && AllFine(iovs, local, target, ts, window, size)
    ensures |SrcCells(iovs, ts)| == |DstCells(iovs, ts)| && Inside(SrcCells(iovs, ts), local)
    ensures Inside(DstCells(iovs, ts), target)
  {
    if iovs != [] {
      var k := |iovs| - 1;
      AllFineInside(iovs[..k], local, target, ts, window, size);
      assert Fine(iovs[k], local, target, ts, window, size);
      AllCellsInside(iovs[k].src, iovs[k].bytes / ts, ts, local);
      AllCellsInside(iovs[k].dst, iovs[k].bytes / ts, ts, target);
      AllCellsLength(iovs[k].src, iovs[k].dst, iovs[k].bytes / ts, ts);
    }
  }

  /** A vector without segments or without bytes moves nothing. */
  lemma {:induction false} EmptyVector(ptrs: seq<int>, n: nat, ts: int)
    requires ptrs == [] || n == 0
    ensures AllCells(ptrs, n, ts) == []
  {
    if ptrs != [] { EmptyVector(ptrs[..|ptrs| - 1], n, ts); }
  }

  /** The cells of one more vector. */
  lemma {:induction false} NextVector(iovs: seq<Giov>, ts: nat, v: nat)
    requires ts > 0 && v < |iovs|
    ensures SrcCells(iovs[..v + 1], ts) == SrcCells(iovs[..v], ts) + AllCells(iovs[v].src, iovs[v].bytes / ts, ts)
    ensures DstCells(iovs[..v + 1], ts) == DstCells(iovs[..v], ts) + AllCells(iovs[v].dst, iovs[v].bytes / ts, ts)
  {
    assert iovs[..v + 1][..v] == iovs[..v] && iovs[..v + 1][v] == iovs[v];
  }

  lemma {:induction false} LaterVectors(iovs: seq<Giov>, ts: nat, v: nat) returns (src: seq<int>, dst: seq<int>)
    requires ts > 0 && v <= |iovs|
    ensures SrcCells(iovs, ts) == SrcCells(iovs[..v], ts) + src && DstCells(iovs, ts) == DstCells(iovs[..v], ts) + dst
    decreases |iovs| - v
  {
    if v == |iovs| {
      assert iovs[..v] == iovs;
      src, dst := [], [];
    } else {
      NextVector(iovs, ts, v);
      var s, d := LaterVectors(iovs, ts, v + 1);
      var a, b := AllCells(iovs[v].src, iovs[v].bytes / ts, ts), AllCells(iovs[v].dst, iovs[v].bytes / ts, ts);
      src, dst := a + s, b + d;
      Reassociated(SrcCells(iovs[..v], ts), a, s);
      Reassociated(DstCells(iovs[..v], ts), b, d);
    }
  }

  lemma {:induction false} Reassociated(a: seq<int>, b: seq<int>, c: seq<int>)
    ensures (a + b) + c == a + (b + c)
  {
  }

  /** The next vector of a call that was clear at the start is clear when its turn comes. */
  lemma {:induction false} NextClear(s0: State, s: State, op: Op, iovs: seq<Giov>, ts: nat, v: nat, values: seq<int>)
    requires ts > 0 && v < |iovs| && Updated(s0, s, op, DstCells(iovs[..v], ts), values)
    requires Clear(op, Pending(s0), [], DstCells(iovs, ts))
    ensures Clear(op, Pending(s), [], AllCells(iovs[v].dst, iovs[v].bytes / ts, ts))
  {
    var before, now := DstCells(iovs[..v], ts), AllCells(iovs[v].dst, iovs[v].bytes / ts, ts);
    ClearUpTo(op, Pending(s0), iovs, ts, v);
    StillClear(Pending(s), Pending(s0), op, [], [], before, now);
  }

  lemma {:induction false} ClearUpTo(op: Op, p: seq<Update>, iovs: seq<Giov>, ts: nat, v: nat)
    requires ts > 0 && v < |iovs| && Clear(op, p, [], DstCells(iovs, ts))
    ensures Clear(op, p, [], DstCells(iovs[..v], ts) + AllCells(iovs[v].dst, iovs[v].bytes / ts, ts))
  {
    var _, rest := LaterVectors(iovs, ts, v + 1);
    NextVector(iovs, ts, v);
    ClearPrefix(op, p, [], [], DstCells(iovs[..v], ts) + AllCells(iovs[v].dst, iovs[v].bytes / ts, ts), rest);
  }

  ghost predicate SentSoFar(s0: State, s: State, iovs: seq<Giov>, scale: int, op: Op, ts: nat, v: nat)
    requires ts > 0 && v <= |iovs|
  {
    && Idle(s) && Inside(SrcCells(iovs[..v], ts), s0.local)
    && Updated(s0, s, op, DstCells(iovs[..v], ts), Times(scale, Gather(s0.local, SrcCells(iovs[..v], ts))))
  }

  lemma {:induction false} SentSoFarNext(s0: State, s: State, t: State, iovs: seq<Giov>, scale: int, op: Op, ts: nat,
                                         v: nat, n: nat)
    requires ts > 0 && v < |iovs| && n == iovs[v].bytes / ts
    requires SentSoFar(s0, s, iovs, scale, op, ts, v) && Idle(t) && Inside(AllCells(iovs[v].src, n, ts), s0.local)
    requires Updated(s, t, op, AllCells(iovs[v].dst, n, ts),
                     Times(scale, Gather(s0.local, AllCells(iovs[v].src, n, ts))))
    ensures SentSoFar(s0, t, iovs, scale, op, ts, v + 1)
  {
    var a, c := SrcCells(iovs[..v], ts), AllCells(iovs[v].src, n, ts);
    var d, e := DstCells(iovs[..v], ts), AllCells(iovs[v].dst, n, ts);
    SentMore(s0, s, t, op, scale, a, c, d, e);
    NextVector(iovs, ts, v);
    SentAs(s0, t, iovs, scale, op, ts, v + 1, a + c, d + e);
  }

  lemma {:induction false} SentAs(s0: State, s: State, iovs: seq<Giov>, scale: int, op: Op, ts: nat, v: nat,
                                  src: seq<int>, dst: seq<int>)
    requires ts > 0 && v <= |iovs| && src == SrcCells(iovs[..v], ts) && dst == DstCells(iovs[..v], ts)
    requires Idle(s) && Inside(src, s0.local) && Updated(s0, s, op, dst, Times(scale, Gather(s0.local, src)))
    ensures SentSoFar(s0, s, iovs, scale, op, ts, v)
  {
  }

  lemma {:induction false} SentMore(s0: State, s: State, t: State, op: Op, scale: int, a: seq<int>, c: seq<int>,
                                    d: seq<int>, e: seq<int>)
    requires Inside(a, s0.local) && Inside(c, s0.local)
    requires Updated(s0, s, op, d, Times(scale, Gather(s0.local, a)))
    requires Updated(s, t, op, e, Times(scale, Gather(s0.local, c)))
    ensures Inside(a + c, s0.local) && Updated(s0, t, op, d + e, Times(scale, Gather(s0.local, a + c)))
  {
    ScaledConcat(s0.local, scale, a, c);
    UpdatedTwice(s0, s, t, op, d, Times(scale, Gather(s0.local, a)), e, Times(scale, Gather(s0.local, c)));
  }

  lemma {:induction false} ScaledConcat(m: Mem, scale: int, a: seq<int>, b: seq<int>)
    requires Inside(a, m) && Inside(b, m)
    ensures Inside(a + b, m)
    ensures Times(scale, Gather(m, a + b)) == Times(scale, Gather(m, a)) + Times(scale, Gather(m, b))
  {
    GatherConcat(m, a, b);
    var x, y := Gather(m, a), Gather(m, b);
    assert Times(scale, x + y) == Times(scale, x) + Times(scale, y);
  }

  lemma {:induction false} SentSoFarSkip(s0: State, s: State, iovs: seq<Giov>, scale: int, op: Op, ts: nat, v: nat)
    requires ts > 0 && v < |iovs| && SentSoFar(s0, s, iovs, scale, op, ts, v) && |iovs[v].src| == |iovs[v].dst|
    requires iovs[v].src == [] || iovs[v].bytes == 0
    ensures SentSoFar(s0, s, iovs, scale, op, ts, v + 1)
  {
    EmptyVector(iovs[v].src, iovs[v].bytes / ts, ts);
    EmptyVector(iovs[v].dst, iovs[v].bytes / ts, ts);
    NextVector(iovs, ts, v);
    SentAs(s0, s, iovs, scale, op, ts, v + 1, SrcCells(iovs[..v], ts), DstCells(iovs[..v], ts));
  }

  lemma {:induction false} SentSoFarStart(s: State, iovs: seq<Giov>, scale: int, op: Op, ts: nat)
    requires ts > 0 && Idle(s) && op != GET
    ensures SentSoFar(s, s, iovs, scale, op, ts, 0)
  {
    UpdatedStart(s, op);
    var none := Gather(s.local, []);
    assert Times(scale, none) == [];
    assert iovs[..0] == [];
  }

  lemma {:induction false} SentAll(s0: State, s: State, iovs: seq<Giov>, scale: int, op: Op, ts: nat)
    requires ts > 0 && SentSoFar(s0, s, iovs, scale, op, ts, |iovs|)
    ensures Idle(s) && Inside(SrcCells(iovs, ts), s0.local)
    ensures Updated(s0, s, op, DstCells(iovs, ts), Times(scale, Gather(s0.local, SrcCells(iovs, ts))))
  {
    assert iovs[..|iovs|] == iovs;
  }

  /** What the caller owes for a whole call. */
  ghost predicate CanSendAll(s: State, cfg: Config, op: Op, iovs: seq<Giov>, ts: nat, window: int, size: int) {
    && ts > 0 && (op == PUT ==> ts == 1) && op != GET && Idle(s) && size <= INT_MAX
    && AllFine(iovs, s.local, s.target, ts, window, size) && Clear(op, Pending(s), [], DstCells(iovs, ts))
    && (op == ACC ==> AllSeparable(cfg, iovs, ts))
  }

  /** Nothing is under way once the first v vectors have moved something. */
  ghost predicate Settled(s: State, iovs: seq<Giov>, ts: nat, v: nat)
    requires ts > 0 && v <= |iovs|
  {
    DstCells(iovs[..v], ts) != [] ==> s.sent == []
  }

  lemma {:induction false} SettledSkip(s: State, iovs: seq<Giov>, ts: nat, v: nat)
    requires ts > 0 && v < |iovs| && Settled(s, iovs, ts, v) && Empty(iovs[v]) && |iovs[v].src| == |iovs[v].dst|
    ensures Settled(s, iovs, ts, v + 1)
  {
    var d, e := DstCells(iovs[..v], ts), AllCells(iovs[v].dst, iovs[v].bytes / ts, ts);
    EmptyVector(iovs[v].dst, iovs[v].bytes / ts, ts);
    assert d + e == d;
    NextVector(iovs, ts, v);
  }

  /** After the vectors that have local buffers in `locs`: their effect, and what is known of the buffers. */
  ghost predicate Sending(s0: State, s: State, cfg: Config, shared: int -> bool, op: Op, scale: int, iovs: seq<Giov>,
                          locs: seq<seq<int>>, ts: nat, window: int)
    requires ts > 0
  {
    && AllPrepared(cfg, shared, op, scale, iovs, locs, ts) && AllPass(cfg, op, iovs, locs, ts, window)
    && SentSoFar(s0, s, iovs, scale, op, ts, |locs|)
    && (cfg.endToEnd ==> Settled(s, iovs, ts, |locs|))
  }

  /** A call that stopped in the last vector of `locs`, which it began in state `at`. */
  ghost predicate Stopped(s0: State, at: State, s: State, cfg: Config, shared: int -> bool, op: Op, scale: int,
                          iovs: seq<Giov>, locs: seq<seq<int>>, ts: nat, window: int)
    requires ts > 0
  {
    && AllPrepared(cfg, shared, op, scale, iovs, locs, ts) && locs != [] && !AllPass(cfg, op, iovs, locs, ts, window)
    && Formed(at) && SentSoFar(s0, at, iovs, scale, op, ts, |locs| - 1)
    && |locs[|locs| - 1]| == |Local(op, iovs[|locs| - 1])|
    && StoppedIn(at, s, op, scale, iovs[|locs| - 1], locs[|locs| - 1], ts)
  }

  lemma {:induction false} PreparedNext(cfg: Config, shared: int -> bool, op: Op, scale: int, iovs: seq<Giov>,
                                        locs: seq<seq<int>>, loc: seq<int>, ts: nat)
    requires ts > 0 && AllPrepared(cfg, shared, op, scale, iovs, locs, ts) && |locs| < |iovs|
    requires |iovs[|locs|].src| == |iovs[|locs|].dst| && Prepared(cfg, shared, op, scale, iovs[|locs|], loc, ts)
    ensures AllPrepared(cfg, shared, op, scale, iovs, locs + [loc], ts)
  {
    var more := locs + [loc];
    forall v | 0 <= v < |more|
      ensures Prepared(cfg, shared, op, scale, iovs[v], more[v], ts) && |more[v]| == |iovs[v].src| == |iovs[v].dst|
    {
      if v < |locs| { assert more[v] == locs[v]; }
    }
  }

  /** One vector more. */
  lemma {:induction false} SendingNext(s0: State, s: State, t: State, cfg: Config, shared: int -> bool, op: Op,
                                       scale: int,
                                       iovs: seq<Giov>, locs: seq<seq<int>>, loc: seq<int>, ts: nat, window: int)
    requires ts > 0 && Sending(s0, s, cfg, shared, op, scale, iovs, locs, ts, window) && |locs| < |iovs|
    requires var iov := iovs[|locs|];
             && |iov.src| == |iov.dst| && Prepared(cfg, shared, op, scale, iov, loc, ts)
             && !Empty(iov) && Passes(cfg, op, iov, loc, ts, window) && SentFrom(s, t, cfg, op, scale, iov, ts)
    ensures Sending(s0, t, cfg, shared, op, scale, iovs, locs + [loc], ts, window)
  {
    var v := |locs|;
    PreparedNext(cfg, shared, op, scale, iovs, locs, loc, ts);
    AllPassNext(cfg, op, iovs, locs, loc, ts, window);
    SentSoFarNext(s0, s, t, iovs, scale, op, ts, v, iovs[v].bytes / ts);
    assert |locs + [loc]| == v + 1;
    assert cfg.endToEnd ==> Settled(t, iovs, ts, v + 1);
  }

  lemma {:induction false} SendingSkip(s0: State, s: State, cfg: Config, shared: int -> bool, op: Op, scale: int,
                                       iovs: seq<Giov>, locs: seq<seq<int>>, ts: nat, window: int)
    requires ts > 0 && Sending(s0, s, cfg, shared, op, scale, iovs, locs, ts, window) && |locs| < |iovs|
    requires op != GET && |iovs[|locs|].src| == |iovs[|locs|].dst| && Empty(iovs[|locs|])
    ensures Sending(s0, s, cfg, shared, op, scale, iovs, locs + [iovs[|locs|].src], ts, window)
  {
    var v, loc := |locs|, iovs[|locs|].src;
    PreparedNext(cfg, shared, op, scale, iovs, locs, loc, ts);
    AllPassNext(cfg, op, iovs, locs, loc, ts, window);
    SentSoFarSkip(s0, s, iovs, scale, op, ts, v);
    if cfg.endToEnd { SettledSkip(s, iovs, ts, v); }
    assert |locs + [loc]| == v + 1;
  }

  /** The next vector can be sent when its turn comes. */
  lemma {:induction false} CanSendNext(s0: State, s: State, cfg: Config, op: Op, scale: int, iovs: seq<Giov>, v: nat,
                                       ts: nat, window: int, size: int)
    requires CanSendAll(s0, cfg, op, iovs, ts, window, size) && v < |iovs| && !Empty(iovs[v])
    requires SentSoFar(s0, s, iovs, scale, op, ts, v)
    ensures CanSend(s, cfg, op, iovs[v], ts, window, size)
  {
    NextClear(s0, s, op, iovs, ts, v, Times(scale, Gather(s0.local, SrcCells(iovs[..v], ts))));
    assert Fine(iovs[v], s0.local, s0.target, ts, window, size);
    StillFine(s0, s, iovs[v], ts, window, size);
  }

  lemma {:induction false} StillFine(s0: State, s: State, iov: Giov, ts: nat, window: int, size: int)
    requires ts > 0 && Fine(iov, s0.local, s0.target, ts, window, size)
    requires s.local == s0.local && s.target.Keys == s0.target.Keys
    ensures Fine(iov, s.local, s.target, ts, window, size)
  {
    forall i | 0 <= i < |iov.dst| ensures Inside(Cells(iov.dst[i], iov.bytes / ts, ts), s.target) {
      assert Inside(Cells(iov.dst[i], iov.bytes / ts, ts), s0.target);
    }
  }

  method SendStep(w: Window, cfg: Config, shared: int -> bool, ghost s0: State, op: Op, scale: int, iovs: seq<Giov>,
                  v: nat, ghost locs: seq<seq<int>>, ts: nat, window: int, size: int)
      returns (ok: bool, ghost more: seq<seq<int>>)
    requires CanSendAll(s0, cfg, op, iovs, ts, window, size) && (op == PUT ==> scale == 1) && v == |locs| < |iovs|
    requires Sending(s0, w.s, cfg, shared, op, scale, iovs, locs, ts, window)
    modifies w
    ensures |more| == v + 1
    ensures ok ==> Sending(s0, w.s, cfg, shared, op, scale, iovs, more, ts, window)
    ensures !ok ==> Stopped(s0, old(w.s), w.s, cfg, shared, op, scale, iovs, more, ts, window)
  {
    ghost var s := w.s;
    assert Fine(iovs[v], s0.local, s0.target, ts, window, size);
    if Empty(iovs[v]) {
      SendingSkip(s0, s, cfg, shared, op, scale, iovs, locs, ts, window);
      return true, locs + [iovs[v].src];
    }
    CanSendNext(s0, s, cfg, op, scale, iovs, v, ts, window, size);
    ghost var loc;
    ok, loc := SendOne(w, cfg, shared, op, scale, iovs[v], ts, window, size);
    more := locs + [loc];
    if ok {
      SendingNext(s0, s, w.s, cfg, shared, op, scale, iovs, locs, loc, ts, window);
    } else {
      SendingStops(s0, s, w.s, cfg, shared, op, scale, iovs, locs, loc, ts, window);
    }
  }

  lemma {:induction false} SendingStops(s0: State, s: State, t: State, cfg: Config, shared: int -> bool, op: Op,
                                        scale: int,
                                        iovs: seq<Giov>, locs: seq<seq<int>>, loc: seq<int>, ts: nat, window: int)
    requires ts > 0 && Sending(s0, s, cfg, shared, op, scale, iovs, locs, ts, window) && |locs| < |iovs|
    requires var iov := iovs[|locs|];
             && |iov.src| == |iov.dst| && Prepared(cfg, shared, op, scale, iov, loc, ts) && !Empty(iov)
             && !Passes(cfg, op, iov, loc, ts, window) && StoppedIn(s, t, op, scale, iov, loc, ts)
    ensures Stopped(s0, s, t, cfg, shared, op, scale, iovs, locs + [loc], ts, window)
  {
    PreparedNext(cfg, shared, op, scale, iovs, locs, loc, ts);
    AllPassNext(cfg, op, iovs, locs, loc, ts, window);
  }

  /** The loop of PARMCI_PutV and PARMCI_AccV. */
  method SendAll(w: Window, cfg: Config, shared: int -> bool, ghost s0: State, op: Op, scale: int, iovs: seq<Giov>,
                 ts: nat, window: int, size: int) returns (ok: bool, ghost locs: seq<seq<int>>, ghost at: State)
    requires CanSendAll(s0, cfg, op, iovs, ts, window, size) && (op == PUT ==> scale == 1)
    requires Sending(s0, w.s, cfg, shared, op, scale, iovs, [], ts, window)
    modifies w
    ensures ok ==> Sending(s0, w.s, cfg, shared, op, scale, iovs, locs, ts, window) && |locs| == |iovs|
    ensures !ok ==> Stopped(s0, at, w.s, cfg, shared, op, scale, iovs, locs, ts, window)
  {
    locs, at := [], w.s;
    for v := 0 to |iovs|
      invariant |locs| == v && Sending(s0, w.s, cfg, shared, op, scale, iovs, locs, ts, window)
    {
      at := w.s;
      ok, locs := SendStep(w, cfg, shared, s0, op, scale, iovs, v, locs, ts, window, size);
      if !ok { return; }
    }
    ok := true;
  }

  lemma {:induction false} SendingStart(s: State, cfg: Config, shared: int -> bool, op: Op, scale: int,
                                        iovs: seq<Giov>, ts: nat, window: int)
    requires ts > 0 && Idle(s) && op != GET
    ensures Sending(s, s, cfg, shared, op, scale, iovs, [], ts, window)
  {
    SentSoFarStart(s, iovs, scale, op, ts);
    assert iovs[..0] == [];
  }

  lemma {:induction false} SendingAll(s0: State, s: State, cfg: Config, shared: int -> bool, op: Op, scale: int,
                                      iovs: seq<Giov>, locs: seq<seq<int>>, ts: nat, window: int)
    requires ts > 0 && Sending(s0, s, cfg, shared, op, scale, iovs, locs, ts, window) && |locs| == |iovs|
    ensures AllPrepared(cfg, shared, op, scale, iovs, locs, ts) && AllPass(cfg, op, iovs, locs, ts, window)
    ensures Idle(s) && Inside(SrcCells(iovs, ts), s0.local) && s.local == s0.local && s.blocks == s0.blocks
    ensures cfg.endToEnd && DstCells(iovs, ts) != [] ==> Pending(s) == []
    ensures Updated(s0, s, op, DstCells(iovs, ts), Times(scale, Gather(s0.local, SrcCells(iovs, ts))))
  {
    assert iovs[..|iovs|] == iovs;
    SentAll(s0, s, iovs, scale, op, ts);
  }

  /** Nothing stops the conservative and batched forms but a size that is not whole elements. */
  lemma {:induction false} PlainPass(cfg: Config, op: Op, iovs: seq<Giov>, locs: seq<seq<int>>, ts: nat, window: int,
                                     ok: bool)
    requires ts > 0 && Fitting(iovs, locs) && (cfg.how == Conservative || cfg.how == Batched)
    requires (ok <==> AllPass(cfg, op, iovs, locs, ts, window)) && (ok ==> |locs| == |iovs|)
    ensures ok <==> WholeElements(iovs, ts)
  {
    forall v | 0 <= v < |locs| && !Empty(iovs[v])
      ensures Passes(cfg, op, iovs[v], locs[v], ts, window) <==> iovs[v].bytes % ts == 0
    {
    }
  }

  ghost predicate WholeElements(iovs: seq<Giov>, ts: nat)
    requires ts > 0
  {
    forall v :: 0 <= v < |iovs| ==> Empty(iovs[v]) || iovs[v].bytes % ts == 0
  }

  /** PARMCI_PutV: with disjoint destinations, the target ends as after a plain copy of segment after
      segment, and the origin's memory and temporaries are as before. It stops exactly when an assertion
      fails of the local buffers that were prepared (`locs`), and then in that vector, begun in `at`; where
      no buffer is guarded and shared, that is decided by the arguments alone. */
  method PutV(w: Window, cfg: Config, shared: int -> bool, iovs: seq<Giov>, window: int, size: int)
      returns (ok: bool, ghost locs: seq<seq<int>>, ghost at: State)
    requires CanSendAll(w.s, cfg, PUT, iovs, 1, window, size)
    modifies w
    ensures AllPrepared(cfg, shared, PUT, 1, iovs, locs, 1)
    ensures (ok <==> AllPass(cfg, PUT, iovs, locs, 1, window)) && (ok ==> |locs| == |iovs|)
    ensures cfg.how == Conservative || cfg.how == Batched ==> ok
    ensures Fitting(iovs, Originals(PUT, iovs))
    ensures Unguarded(cfg, shared, PUT, iovs) ==> (ok <==> AllPass(cfg, PUT, iovs, Originals(PUT, iovs), 1, window))
    ensures !ok ==> Stopped(old(w.s), at, w.s, cfg, shared, PUT, 1, iovs, locs, 1, window)
    ensures Inside(SrcCells(iovs, 1), old(w.s.local)) && Inside(DstCells(iovs, 1), old(w.s.target))
    ensures |SrcCells(iovs, 1)| == |DstCells(iovs, 1)|
    ensures ok ==> Idle(w.s) && w.s.local == old(w.s.local) && w.s.blocks == old(w.s.blocks)
    ensures ok ==> View(w.s) == Scatter(View(old(w.s)), DstCells(iovs, 1), Gather(old(w.s.local), SrcCells(iovs, 1)))
    ensures ok && cfg.endToEnd && DstCells(iovs, 1) != [] ==> Pending(w.s) == []
  {
    ghost var s0 := w.s;
    AllFineInside(iovs, w.s.local, w.s.target, 1, window, size);
    AllFineFits(iovs, w.s.local, w.s.target, 1, window, size);
    SendingStart(s0, cfg, shared, PUT, 1, iovs, 1, window);
    ok, locs, at := SendAll(w, cfg, shared, s0, PUT, 1, iovs, 1, window, size);
    if ok {
      SendingAll(s0, w.s, cfg, shared, PUT, 1, iovs, locs, 1, window);
      TimesOne(Gather(s0.local, SrcCells(iovs, 1)));
      PutsAreStores(View(s0), DstCells(iovs, 1), Gather(s0.local, SrcCells(iovs, 1)));
    }
    if cfg.how == Conservative || cfg.how == Batched { PlainPass(cfg, PUT, iovs, locs, 1, window, ok); }
    if Unguarded(cfg, shared, PUT, iovs) { UnguardedVerdict(cfg, shared, PUT, iovs, locs, 1, window, ok); }
  }

  lemma {:induction false} AllFineFits(iovs: seq<Giov>, local: Mem, target: Mem, ts: nat, window: int, size: int)
    requires ts > 0 && AllFine(iovs, local, target, ts, window, size)
    ensures Fitting(iovs, Originals(PUT, iovs))
  {
    forall v | 0 <= v < |iovs| ensures |iovs[v].src| == |iovs[v].dst| {
      assert Fine(iovs[v], local, target, ts, window, size);
    }
  }

  /** PARMCI_AccV: destinations may overlap where no single operation names them twice; the target ends as
      after adding scale times each source element to its destination, one after the other. When it stops
      is as for put; a scaled accumulate stops only for a size that is not whole elements, a misaligned
      target offset, or a span of more than INT_MAX elements. */
  method AccV(w: Window, cfg: Config, shared: int -> bool, scale: int, iovs: seq<Giov>, ts: nat, window: int, size: int)
      returns (ok: bool, ghost locs: seq<seq<int>>, ghost at: State)
    requires CanSendAll(w.s, cfg, ACC, iovs, ts, window, size)
    modifies w
    ensures AllPrepared(cfg, shared, ACC, scale, iovs, locs, ts)
    ensures (ok <==> AllPass(cfg, ACC, iovs, locs, ts, window)) && (ok ==> |locs| == |iovs|)
    ensures cfg.how == Conservative || cfg.how == Batched ==> (ok <==> WholeElements(iovs, ts))
    ensures Fitting(iovs, Originals(ACC, iovs))
    ensures scale == 1 && Unguarded(cfg, shared, ACC, iovs) ==>
              (ok <==> AllPass(cfg, ACC, iovs, Originals(ACC, iovs), ts, window))
    ensures scale != 1 ==> (ok <==> AllScaledPass(cfg, iovs, ts, window))
    ensures !ok ==> Stopped(old(w.s), at, w.s, cfg, shared, ACC, scale, iovs, locs, ts, window)
    ensures Inside(SrcCells(iovs, ts), old(w.s.local)) && Inside(DstCells(iovs, ts), old(w.s.target))
    ensures |SrcCells(iovs, ts)| == |DstCells(iovs, ts)|
    ensures ok ==> Idle(w.s) && w.s.local == old(w.s.local) && w.s.blocks == old(w.s.blocks)
    ensures ok ==> View(w.s) == AddInto(View(old(w.s)), DstCells(iovs, ts),
                                        Times(scale, Gather(old(w.s.local), SrcCells(iovs, ts))))
    ensures ok && cfg.endToEnd && DstCells(iovs, ts) != [] ==> Pending(w.s) == []
  {
    ghost var s0 := w.s;
    AllFineInside(iovs, w.s.local, w.s.target, ts, window, size);
    AllFineFits(iovs, w.s.local, w.s.target, ts, window, size);
    SendingStart(s0, cfg, shared, ACC, scale, iovs, ts, window);
    ok, locs, at := SendAll(w, cfg, shared, s0, ACC, scale, iovs, ts, window, size);
    if ok {
      SendingAll(s0, w.s, cfg, shared, ACC, scale, iovs, locs, ts, window);
      AccumulatesAreAdds(View(s0), DstCells(iovs, ts), Times(scale, Gather(s0.local, SrcCells(iovs, ts))));
    }
    AccVerdict(cfg, shared, scale, iovs, locs, ts, window, ok);
  }

  lemma {:induction false} AccVerdict(cfg: Config, shared: int -> bool, scale: int, iovs: seq<Giov>,
                                      locs: seq<seq<int>>, ts: nat, window: int, ok: bool)
    requires ts > 0 && AllPrepared(cfg, shared, ACC, scale, iovs, locs, ts) && Fitting(iovs, Originals(ACC, iovs))
    requires (ok <==> AllPass(cfg, ACC, iovs, locs, ts, window)) && (ok ==> |locs| == |iovs|)
    ensures cfg.how == Conservative || cfg.how == Batched ==> (ok <==> WholeElements(iovs, ts))
    ensures scale == 1 && Unguarded(cfg, shared, ACC, iovs) ==>
              (ok <==> AllPass(cfg, ACC, iovs, Originals(ACC, iovs), ts, window))
    ensures scale != 1 ==> (ok <==> AllScaledPass(cfg, iovs, ts, window))
  {
    if cfg.how == Conservative || cfg.how == Batched { PlainPass(cfg, ACC, iovs, locs, ts, window, ok); }
    if scale != 1 {
      ScaledVerdict(cfg, shared, scale, iovs, locs, ts, window, ok);
    } else if Unguarded(cfg, shared, ACC, iovs) {
      UnguardedVerdict(cfg, shared, ACC, iovs, locs, ts, window, ok);
    }
  }

  // ----- Get

  ghost predicate GetFine(iov: Giov, local: Mem, target: Mem, window: int, size: int) {
    && |iov.src| == |iov.dst| && AllInside(iov.dst, iov.bytes, 1, local) && Distinct(AllCells(iov.dst, iov.bytes, 1))
    && AllInside(iov.src, iov.bytes, 1, target) && InSlice(iov.src, iov.bytes, window, size)
  }

  /** Temporaries do not meet each other or the user's buffers. */
  lemma {:induction false} PreparedApart(s0: State, s1: State, orig: seq<int>, bufs: seq<int>, n: nat, i: nat, j: nat)
    requires i < j < |orig| == |bufs| && Borrowed(s0, s1, orig, bufs, n, |orig|) && AllInside(orig, n, 1, s0.local)
    requires Distinct(AllCells(orig, n, 1))
    ensures Apart(bufs[i], bufs[j], n, 1)
  {
    if bufs[i] != orig[i] { TempsApart(s0, s1, orig, bufs, n, 1, n, i, j); }
    if bufs[j] != orig[j] { TempsApart(s0, s1, orig, bufs, n, 1, n, j, i); }
    ApartOf(orig, n, 1, i, j);
    CellsExtent(bufs[i], n, 1, n);
    CellsExtent(bufs[j], n, 1, n);
  }

  lemma {:induction false} ReadyToGet(s0: State, s1: State, orig: seq<int>, bufs: seq<int>, src: seq<int>, n: nat)
    requires |orig| == |bufs| == |src| && Idle(s0) && OnlyLocal(s0, s1) && Borrowed(s0, s1, orig, bufs, n, |orig|)
    requires AllInside(orig, n, 1, s0.local) && AllInside(bufs, n, 1, s1.local) && AllInside(src, n, 1, s0.target)
    requires Distinct(AllCells(orig, n, 1)) && Clear(GET, Pending(s0), [], AllCells(src, n, 1))
    ensures Ready(s1, GET, bufs, src, n, 1)
  {
    forall i, j | 0 <= i < j < |bufs| ensures Apart(bufs[i], bufs[j], n, 1) {
      PreparedApart(s0, s1, orig, bufs, n, i, j);
    }
    ApartDistinct(bufs, n, 1);
  }

  /** No cell outside the user's buffers is in a prepared buffer, unless it is in a temporary. */
  lemma {:induction false} OutsidePrepared(s0: State, s1: State, orig: seq<int>, bufs: seq<int>, n: nat, x: int)
    requires |orig| == |bufs| && Borrowed(s0, s1, orig, bufs, n, |orig|) && x in s0.local && x !in AllCells(orig, n, 1)
    ensures x !in AllCells(bufs, n, 1)
  {
    if x in AllCells(bufs, n, 1) {
      var j := AllCellsFrom(bufs, n, 1, x);
      var a :| 0 <= a < n && Cells(bufs[j], n, 1)[a] == x;
      if bufs[j] == orig[j] {
        AllCellsHas(orig, n, 1, j, a);
      } else {
        TempCellsIn(orig, bufs, n, |orig|, j);
        CellsExtent(bufs[j], n, 1, n);
      }
      assert false;
    }
  }

  lemma {:induction false} GotPrepared(s0: State, s1: State, s2: State, orig: seq<int>, bufs: seq<int>, src: seq<int>,
                                       n: nat)
    requires |orig| == |bufs| == |src| && Idle(s0) && OnlyLocal(s0, s1) && Borrowed(s0, s1, orig, bufs, n, |orig|)
    requires Ready(s1, GET, bufs, src, n, 1) && Idle(s2)
    requires Fetched(s1, s2, AllCells(bufs, n, 1), AllCells(src, n, 1)) && AllInside(src, n, 1, View(s0))
    ensures WrittenBack(s0, s2.local, orig, bufs, n, 1, View(s0), src, 0)
  {
    var c, d := AllCells(bufs, n, 1), AllCells(src, n, 1);
    assert s2.local == Scatter(s1.local, c, Gather(View(s0), d));
    forall j | 0 <= j < |bufs| ensures At(s2.local, bufs[j], View(s0), src[j], n, 1) {
      SegmentStored(s1.local, bufs, View(s0), src, n, 1, j);
      assert Inside(Cells(bufs[j], n, 1), s1.local);
    }
    forall x | x in s0.local && x !in AllCells(orig, n, 1) ensures s2.local[x] == s0.local[x] {
      OutsidePrepared(s0, s1, orig, bufs, n, x);
      ScatterElsewhere(s1.local, c, Gather(View(s0), d), x);
      ExtendsAt(s0.local, s1.local, TempCells(orig, bufs, n, |orig|), x);
    }
  }

  ghost predicate CanGet(s: State, iov: Giov, window: int, size: int) {
    && Idle(s) && GetFine(iov, s.local, s.target, window, size) && size <= INT_MAX && !Empty(iov)
    && Clear(GET, Pending(s), [], AllCells(iov.src, iov.bytes, 1))
  }

  /** One round of the loop in PARMCI_GetV. */
  method GetOne(w: Window, cfg: Config, shared: int -> bool, iov: Giov, window: int, size: int)
      returns (ok: bool, ghost loc: seq<int>)
    requires CanGet(w.s, iov, window, size)
    modifies w
    ensures Prepared(cfg, shared, GET, 1, iov, loc, 1) && (ok <==> Passes(cfg, GET, iov, loc, 1, window))
    ensures ok ==> Idle(w.s) && Fetched(old(w.s), w.s, AllCells(iov.dst, iov.bytes, 1), AllCells(iov.src, iov.bytes, 1))
    ensures ok ==> w.s.sent == []
    ensures !ok ==> StoppedIn(old(w.s), w.s, GET, 1, iov, loc, 1)
  {
    var n := iov.bytes;
    var overlapping, sameAlloc := Checked(cfg, iov, iov.src, window, size);
    ghost var s0 := w.s;
    var bufs := PrepareWrite(w, iov.dst, n, 1, n, cfg.guard, shared);
    loc := bufs;
    ok := GetPrepared(w, cfg, s0, iov, bufs, overlapping, sameAlloc, window, size);
  }

  method GetPrepared(w: Window, cfg: Config, ghost s0: State, iov: Giov, bufs: seq<int>,
                     overlapping: bool, sameAlloc: bool, window: int, size: int) returns (ok: bool)
    requires CanGet(s0, iov, window, size)
    requires |bufs| == |iov.dst| && Borrowed(s0, w.s, iov.dst, bufs, iov.bytes, |iov.dst|) && OnlyLocal(s0, w.s)
    requires AllInside(bufs, iov.bytes, 1, w.s.local) && (!cfg.guard ==> bufs == iov.dst)
    modifies w
    ensures ok <==> (UsesDatatype(cfg, overlapping, sameAlloc) ==> Addressable(bufs, iov.src, window, 1))
    ensures !ok ==> w.s == old(w.s)
    ensures ok ==> Idle(w.s) && Fetched(s0, w.s, AllCells(iov.dst, iov.bytes, 1), AllCells(iov.src, iov.bytes, 1))
    ensures ok ==> w.s.sent == []
  {
    var n := iov.bytes;
    ghost var s1 := w.s;
    ReadyToGet(s0, s1, iov.dst, bufs, iov.src, n);
    ok := Dispatch(w, cfg, GET, bufs, iov.src, n, 1, overlapping, sameAlloc, window, size);
    if ok {
      ghost var s2 := w.s;
      AllCellsInside(iov.src, n, 1, View(s0));
      GotPrepared(s0, s1, s2, iov.dst, bufs, iov.src, n);
      FetchedKeys(s1, s2, AllCells(bufs, n, 1), AllCells(iov.src, n, 1));
      FinishWrite(w, s0, s1, iov.dst, bufs, n, 1, n, View(s0), iov.src, cfg.guard);
      GotFinished(s0, s1, s2, w.s, iov.dst, bufs, iov.src, n);
    }
  }

  lemma {:induction false} FetchedKeys(s1: State, s2: State, ls: seq<int>, rs: seq<int>)
    requires Fetched(s1, s2, ls, rs)
    ensures s2.blocks == s1.blocks && s2.local.Keys == s1.local.Keys
  {
  }

  lemma {:induction false} GotFinished(s0: State, s1: State, s2: State, s3: State, dst: seq<int>, bufs: seq<int>,
                                       src: seq<int>, n: nat)
    requires |dst| == |bufs| == |src| && Idle(s0) && OnlyLocal(s0, s1) && Idle(s2) && Idle(s3) && View(s3) == View(s2)
    requires Fetched(s1, s2, AllCells(bufs, n, 1), AllCells(src, n, 1))
    requires Inside(AllCells(dst, n, 1), s0.local) && |AllCells(dst, n, 1)| == |AllCells(src, n, 1)|
    requires s3 == s2.(local := Scatter(s0.local, AllCells(dst, n, 1), Gather(View(s0), AllCells(src, n, 1))),
                       blocks := s0.blocks)
    ensures Fetched(s0, s3, AllCells(dst, n, 1), AllCells(src, n, 1))
  {
    var ls := AllCells(dst, n, 1);
    assert ls[|ls|..] == [];
  }

  ghost predicate GotSoFar(s0: State, s: State, iovs: seq<Giov>, v: nat)
    requires v <= |iovs|
  {
    Idle(s0) && Idle(s) && Fetched(s0, s, DstCells(iovs[..v], 1), SrcCells(iovs[..v], 1))
  }

  lemma {:induction false} GetClear(s0: State, s: State, iovs: seq<Giov>, v: nat)
    requires v < |iovs| && GotSoFar(s0, s, iovs, v) && Clear(GET, Pending(s0), [], SrcCells(iovs, 1))
    ensures Clear(GET, Pending(s), [], AllCells(iovs[v].src, iovs[v].bytes, 1))
  {
    var rest, _ := LaterVectors(iovs, 1, v + 1);
    NextVector(iovs, 1, v);
    var before, now := SrcCells(iovs[..v], 1), AllCells(iovs[v].src, iovs[v].bytes, 1);
    ClearPrefix(GET, Pending(s0), [], [], before + now, rest);
    StillClear(Pending(s), Pending(s0), GET, [], [], before, now);
  }

  lemma {:induction false} GotSoFarNext(s0: State, s: State, t: State, iovs: seq<Giov>, v: nat)
    requires v < |iovs| && GotSoFar(s0, s, iovs, v) && Idle(t)
    requires Fetched(s, t, AllCells(iovs[v].dst, iovs[v].bytes, 1), AllCells(iovs[v].src, iovs[v].bytes, 1))
    ensures GotSoFar(s0, t, iovs, v + 1)
  {
    NextVector(iovs, 1, v);
    FetchedTwice(s0, s, t, DstCells(iovs[..v], 1), SrcCells(iovs[..v], 1),
                 AllCells(iovs[v].dst, iovs[v].bytes, 1), AllCells(iovs[v].src, iovs[v].bytes, 1));
  }

  lemma {:induction false} GotSoFarSkip(s0: State, s: State, iovs: seq<Giov>, v: nat)
    requires v < |iovs| && GotSoFar(s0, s, iovs, v) && |iovs[v].src| == |iovs[v].dst|
    requires (iovs[v].src == [] || iovs[v].bytes == 0)
    ensures GotSoFar(s0, s, iovs, v + 1)
  {
    EmptyVector(iovs[v].src, iovs[v].bytes, 1);
    EmptyVector(iovs[v].dst, iovs[v].bytes, 1);
    FetchedStart(s);
    GotSoFarNext(s0, s, s, iovs, v);
  }

  ghost predicate AllGetFine(iovs: seq<Giov>, local: Mem, target: Mem, window: int, size: int) {
    forall v :: 0 <= v < |iovs| ==> GetFine(iovs[v], local, target, window, size)
  }

  lemma {:induction false} GetStillFine(s0: State, s: State, iovs: seq<Giov>, v: nat, window: int, size: int)
    requires AllGetFine(iovs, s0.local, s0.target, window, size) && v < |iovs| && GotSoFar(s0, s, iovs, v)
    ensures GetFine(iovs[v], s.local, s.target, window, size)
  {
    var iov := iovs[v];
    assert GetFine(iov, s0.local, s0.target, window, size);
    assert s.local.Keys == s0.local.Keys && s.target.Keys == s0.target.Keys;
    forall i | 0 <= i < |iov.dst| ensures Inside(Cells(iov.dst[i], iov.bytes, 1), s.local) {
      assert Inside(Cells(iov.dst[i], iov.bytes, 1), s0.local);
    }
    forall i | 0 <= i < |iov.src| ensures Inside(Cells(iov.src[i], iov.bytes, 1), s.target) {
      assert Inside(Cells(iov.src[i], iov.bytes, 1), s0.target);
    }
  }

  /** What the caller owes for a whole call. */
  ghost predicate CanGetAll(s: State, iovs: seq<Giov>, window: int, size: int) {
    && Idle(s) && AllGetFine(iovs, s.local, s.target, window, size) && size <= INT_MAX
    && Clear(GET, Pending(s), [], SrcCells(iovs, 1))
  }

  ghost predicate Getting(s0: State, s: State, cfg: Config, shared: int -> bool, iovs: seq<Giov>, locs: seq<seq<int>>,
                          window: int) {
    && AllPrepared(cfg, shared, GET, 1, iovs, locs, 1) && AllPass(cfg, GET, iovs, locs, 1, window)
    && GotSoFar(s0, s, iovs, |locs|) && Settled(s, iovs, 1, |locs|)
  }

  ghost predicate StoppedGetting(s0: State, at: State, s: State, cfg: Config, shared: int -> bool, iovs: seq<Giov>,
                                 locs: seq<seq<int>>, window: int) {
    && AllPrepared(cfg, shared, GET, 1, iovs, locs, 1) && locs != [] && !AllPass(cfg, GET, iovs, locs, 1, window)
    && Formed(at) && GotSoFar(s0, at, iovs, |locs| - 1)
    && |locs[|locs| - 1]| == |iovs[|locs| - 1].dst|
    && StoppedIn(at, s, GET, 1, iovs[|locs| - 1], locs[|locs| - 1], 1)
  }

  lemma {:induction false} GettingNext(s0: State, s: State, t: State, cfg: Config, shared: int -> bool, iovs: seq<Giov>,
                                       locs: seq<seq<int>>, loc: seq<int>, window: int)
    requires Getting(s0, s, cfg, shared, iovs, locs, window) && |locs| < |iovs|
    requires |iovs[|locs|].src| == |iovs[|locs|].dst| && Prepared(cfg, shared, GET, 1, iovs[|locs|], loc, 1)
    requires Empty(iovs[|locs|]) || Passes(cfg, GET, iovs[|locs|], loc, 1, window)
    requires GotSoFar(s0, t, iovs, |locs| + 1) && Settled(t, iovs, 1, |locs| + 1)
    ensures Getting(s0, t, cfg, shared, iovs, locs + [loc], window)
  {
    PreparedNext(cfg, shared, GET, 1, iovs, locs, loc, 1);
    AllPassNext(cfg, GET, iovs, locs, loc, 1, window);
  }

  method GetStep(w: Window, cfg: Config, shared: int -> bool, ghost s0: State, iovs: seq<Giov>, v: nat,
                 ghost locs: seq<seq<int>>, window: int, size: int) returns (ok: bool, ghost more: seq<seq<int>>)
    requires CanGetAll(s0, iovs, window, size) && v == |locs| < |iovs|
    requires Getting(s0, w.s, cfg, shared, iovs, locs, window)
    modifies w
    ensures |more| == v + 1
    ensures ok ==> Getting(s0, w.s, cfg, shared, iovs, more, window)
    ensures !ok ==> StoppedGetting(s0, old(w.s), w.s, cfg, shared, iovs, more, window)
  {
    if Empty(iovs[v]) {
      GettingSkip(s0, w.s, cfg, shared, iovs, locs, window, size);
      ok, more := true, locs + [iovs[v].dst];
    } else {
      ok, more := GetNext(w, cfg, shared, s0, iovs, v, locs, window, size);
    }
  }

  lemma {:induction false} GettingSkip(s0: State, s: State, cfg: Config, shared: int -> bool, iovs: seq<Giov>,
                                       locs: seq<seq<int>>, window: int, size: int)
    requires CanGetAll(s0, iovs, window, size) && Getting(s0, s, cfg, shared, iovs, locs, window)
    requires |locs| < |iovs| && Empty(iovs[|locs|])
    ensures Getting(s0, s, cfg, shared, iovs, locs + [iovs[|locs|].dst], window)
  {
    var v := |locs|;
    GetStillFine(s0, s, iovs, v, window, size);
    GotSoFarSkip(s0, s, iovs, v);
    SettledSkip(s, iovs, 1, v);
    assert Prepared(cfg, shared, GET, 1, iovs[v], iovs[v].dst, 1);
    GettingNext(s0, s, s, cfg, shared, iovs, locs, iovs[v].dst, window);
  }

  method GetNext(w: Window, cfg: Config, shared: int -> bool, ghost s0: State, iovs: seq<Giov>, v: nat,
                 ghost locs: seq<seq<int>>, window: int, size: int) returns (ok: bool, ghost more: seq<seq<int>>)
    requires CanGetAll(s0, iovs, window, size) && v == |locs| < |iovs| && !Empty(iovs[v])
    requires Getting(s0, w.s, cfg, shared, iovs, locs, window)
    modifies w
    ensures |more| == v + 1
    ensures ok ==> Getting(s0, w.s, cfg, shared, iovs, more, window)
    ensures !ok ==> StoppedGetting(s0, old(w.s), w.s, cfg, shared, iovs, more, window)
  {
    ghost var s := w.s;
    CanGetNext(s0, s, iovs, v, window, size);
    ghost var loc;
    ok, loc := GetOne(w, cfg, shared, iovs[v], window, size);
    more := locs + [loc];
    if ok {
      GotSoFarNext(s0, s, w.s, iovs, v);
      GettingNext(s0, s, w.s, cfg, shared, iovs, locs, loc, window);
    } else {
      GettingStops(s0, s, w.s, cfg, shared, iovs, locs, loc, window);
    }
  }

  lemma {:induction false} CanGetNext(s0: State, s: State, iovs: seq<Giov>, v: nat, window: int, size: int)
    requires CanGetAll(s0, iovs, window, size) && v < |iovs| && !Empty(iovs[v]) && GotSoFar(s0, s, iovs, v)
    ensures CanGet(s, iovs[v], window, size)
  {
    GetStillFine(s0, s, iovs, v, window, size);
    GetClear(s0, s, iovs, v);
  }

  lemma {:induction false} GettingStops(s0: State, s: State, t: State, cfg: Config, shared: int -> bool,
                                        iovs: seq<Giov>, locs: seq<seq<int>>, loc: seq<int>, window: int)
    requires Getting(s0, s, cfg, shared, iovs, locs, window) && |locs| < |iovs| && !Empty(iovs[|locs|])
    requires |iovs[|locs|].src| == |iovs[|locs|].dst| && Prepared(cfg, shared, GET, 1, iovs[|locs|], loc, 1)
    requires !Passes(cfg, GET, iovs[|locs|], loc, 1, window) && StoppedIn(s, t, GET, 1, iovs[|locs|], loc, 1)
    ensures StoppedGetting(s0, s, t, cfg, shared, iovs, locs + [loc], window)
  {
    PreparedNext(cfg, shared, GET, 1, iovs, locs, loc, 1);
    AllPassNext(cfg, GET, iovs, locs, loc, 1, window);
  }

  /** The loop of PARMCI_GetV. */
  method GetAll(w: Window, cfg: Config, shared: int -> bool, ghost s0: State, iovs: seq<Giov>, window: int, size: int)
      returns (ok: bool, ghost locs: seq<seq<int>>, ghost at: State)
    requires CanGetAll(s0, iovs, window, size) && Getting(s0, w.s, cfg, shared, iovs, [], window)
    modifies w
    ensures ok ==> Getting(s0, w.s, cfg, shared, iovs, locs, window) && |locs| == |iovs|
    ensures !ok ==> StoppedGetting(s0, at, w.s, cfg, shared, iovs, locs, window)
  {
    locs, at := [], w.s;
    for v := 0 to |iovs|
      invariant |locs| == v && Getting(s0, w.s, cfg, shared, iovs, locs, window)
    {
      at := w.s;
      ok, locs := GetStep(w, cfg, shared, s0, iovs, v, locs, window, size);
      if !ok { return; }
    }
    ok := true;
  }

  /** PARMCI_GetV: the origin ends as after a plain copy of segment after segment, the target and the
      temporaries are as before. When it stops is as for put. */
  method GetV(w: Window, cfg: Config, shared: int -> bool, iovs: seq<Giov>, window: int, size: int)
      returns (ok: bool, ghost locs: seq<seq<int>>, ghost at: State)
    requires CanGetAll(w.s, iovs, window, size)
    modifies w
    ensures AllPrepared(cfg, shared, GET, 1, iovs, locs, 1)
    ensures (ok <==> AllPass(cfg, GET, iovs, locs, 1, window)) && (ok ==> |locs| == |iovs|)
    ensures cfg.how == Conservative || cfg.how == Batched ==> ok
    ensures Fitting(iovs, Originals(GET, iovs))
    ensures Unguarded(cfg, shared, GET, iovs) ==> (ok <==> AllPass(cfg, GET, iovs, Originals(GET, iovs), 1, window))
    ensures !ok ==> StoppedGetting(old(w.s), at, w.s, cfg, shared, iovs, locs, window)
    ensures ok ==> Inside(DstCells(iovs, 1), old(w.s.local)) && Inside(SrcCells(iovs, 1), old(w.s.target))
    ensures ok ==> |SrcCells(iovs, 1)| == |DstCells(iovs, 1)|
    ensures ok ==> Idle(w.s)
    ensures ok ==> w.s.local == Scatter(old(w.s.local), DstCells(iovs, 1), Gather(View(old(w.s)), SrcCells(iovs, 1)))
    ensures ok ==> View(w.s) == View(old(w.s)) && w.s.blocks == old(w.s.blocks)
    ensures ok && DstCells(iovs, 1) != [] ==> Pending(w.s) == []
  {
    ghost var s0 := w.s;
    FetchedStart(s0);
    assert iovs[..0] == [];
    ok, locs, at := GetAll(w, cfg, shared, s0, iovs, window, size);
    if ok { assert iovs[..|iovs|] == iovs; }
    AllGetFits(iovs, s0.local, s0.target, window, size);
    if cfg.how == Conservative || cfg.how == Batched { PlainPass(cfg, GET, iovs, locs, 1, window, ok); }
    if Unguarded(cfg, shared, GET, iovs) { UnguardedVerdict(cfg, shared, GET, iovs, locs, 1, window, ok); }
  }

  lemma {:induction false} AllGetFits(iovs: seq<Giov>, local: Mem, target: Mem, window: int, size: int)
    requires AllGetFine(iovs, local, target, window, size)
    ensures Fitting(iovs, Originals(GET, iovs))
  {
    forall v | 0 <= v < |iovs| ensures |iovs[v].src| == |iovs[v].dst| {
      assert GetFine(iovs[v], local, target, window, size);
    }
  }

  // ----- A put followed by a get

  /** With end_to_end_flush a get after a put of the same target cells brings back what was put. It stops
      only where the put stops, or where the get does from the state `mid` that the put leaves. */
  method PutThenGet(w: Window, cfg: Config, shared: int -> bool, puts: seq<Giov>, gets: seq<Giov>, window: int,
                    size: int)
      returns (ok: bool, ghost mid: State, ghost locs: seq<seq<int>>, ghost at: State)
    requires CanSendAll(w.s, cfg, PUT, puts, 1, window, size) && cfg.endToEnd
    requires AllGetFine(gets, w.s.local, w.s.target, window, size) && SrcCells(gets, 1) == DstCells(puts, 1) != []
    modifies w
    ensures cfg.how == Conservative || cfg.how == Batched ==> ok
    ensures !ok ==> Stopped(old(w.s), at, w.s, cfg, shared, PUT, 1, puts, locs, 1, window) ||
                    (Idle(mid) && mid.local == old(w.s.local) && Pending(mid) == []
                     && StoppedGetting(mid, at, w.s, cfg, shared, gets, locs, window))
    ensures ok ==> Inside(DstCells(gets, 1), old(w.s.local)) && Inside(SrcCells(puts, 1), old(w.s.local))
    ensures ok ==> |DstCells(gets, 1)| == |SrcCells(puts, 1)|
    ensures ok ==> w.s.local == Scatter(old(w.s.local), DstCells(gets, 1), Gather(old(w.s.local), SrcCells(puts, 1)))
  {
    ghost var s0 := w.s;
    ok, locs, at := PutV(w, cfg, shared, puts, window, size);
    mid := w.s;
    if ok {
      GetFineStill(gets, s0, w.s, window, size);
      GatherScattered(View(s0), DstCells(puts, 1), Gather(s0.local, SrcCells(puts, 1)));
      ok, locs, at := GetV(w, cfg, shared, gets, window, size);
    }
  }

  lemma {:induction false} GetFineStill(iovs: seq<Giov>, s0: State, s: State, window: int, size: int)
    requires AllGetFine(iovs, s0.local, s0.target, window, size) && s.local == s0.local
    requires s.target.Keys == s0.target.Keys
    ensures AllGetFine(iovs, s.local, s.target, window, size)
  {
    forall v | 0 <= v < |iovs| ensures GetFine(iovs[v], s.local, s.target, window, size) {
      assert GetFine(iovs[v], s0.local, s0.target, window, size);
      forall i | 0 <= i < |iovs[v].src| ensures Inside(Cells(iovs[v].src[i], iovs[v].bytes, 1), s.target) {
        assert Inside(Cells(iovs[v].src[i], iovs[v].bytes, 1), s0.target);
      }
    }
  }
}
