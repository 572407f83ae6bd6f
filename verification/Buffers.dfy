/** Guarded and scaled copies of origin buffers (src/buffer.c): what prepare hands out and what
    finish takes back. */
module Buffers {
  import opened Memory
  import opened Rma
  import opened Segments

  /** Nothing but the origin's memory changed. */
  ghost predicate OnlyLocal(s0: State, s: State)
    requires Formed(s0)
  {
    s == s0.(local := s.local, blocks := s.blocks) && Idle(s) && View(s) == View(s0)
  }

  // ----- Temporaries: entries of the new vector that differ from the original one

  ghost function TempBases(orig: seq<int>, bufs: seq<int>, k: nat): set<int>
    requires k <= |orig| == |bufs|
  {
    if k == 0 then {} else TempBases(orig, bufs, k - 1) + if bufs[k - 1] != orig[k - 1] then {bufs[k - 1]} else {}
  }

  ghost function TempCells(orig: seq<int>, bufs: seq<int>, bytes: nat, k: nat): set<int>
    requires k <= |orig| == |bufs|
  {
    if k == 0 then {}
    else TempCells(orig, bufs, bytes, k - 1) + if bufs[k - 1] != orig[k - 1] then Extent(bufs[k - 1], bytes) else {}
  }

  /** The origin's memory in s is that in s0 with a live temporary for each of the first k entries
      that moved, and nothing else. */
  ghost predicate Borrowed(s0: State, s: State, orig: seq<int>, bufs: seq<int>, bytes: nat, k: nat)
    requires k <= |orig| == |bufs|
  {
    && Extends(s0.local, s.local, TempCells(orig, bufs, bytes, k))
    && Extends(s0.blocks, s.blocks, TempBases(orig, bufs, k))
    && (forall b :: b in TempBases(orig, bufs, k) ==> s.blocks[b] == bytes)
    && (forall i :: 0 <= i < k && bufs[i] != orig[i] ==>
          bufs[i] !in TempBases(orig, bufs, i) && Extent(bufs[i], bytes) !! TempCells(orig, bufs, bytes, i))
  }

  /** The first k temporaries of s given back. */
  ghost function Returned(s: State, orig: seq<int>, bufs: seq<int>, bytes: nat, k: nat): State
    requires k <= |orig| == |bufs|
  {
    s.(local := s.local - TempCells(orig, bufs, bytes, k), blocks := s.blocks - TempBases(orig, bufs, k))
  }

  lemma {:induction false} ReturnedAll(s0: State, s: State, orig: seq<int>, bufs: seq<int>, bytes: nat)
    requires |orig| == |bufs| && Borrowed(s0, s, orig, bufs, bytes, |orig|)
    ensures Returned(s, orig, bufs, bytes, |orig|) == s.(local := s0.local, blocks := s0.blocks)
  {
    ExtendsRemove(s0.local, s.local, TempCells(orig, bufs, bytes, |orig|));
    ExtendsRemove(s0.blocks, s.blocks, TempBases(orig, bufs, |orig|));
  }

  lemma {:induction false} TempBaseIn(orig: seq<int>, bufs: seq<int>, k: nat, i: nat)
    requires i < k <= |orig| == |bufs| && bufs[i] != orig[i]
    ensures bufs[i] in TempBases(orig, bufs, k)
  {
    if i < k - 1 { TempBaseIn(orig, bufs, k - 1, i); }
  }

  lemma {:induction false} TempAgree(orig: seq<int>, bufs: seq<int>, more: seq<int>, bytes: nat, k: nat)
    requires k <= |orig| == |bufs| == |more| && bufs[..k] == more[..k]
    ensures TempBases(orig, bufs, k) == TempBases(orig, more, k)
    ensures TempCells(orig, bufs, bytes, k) == TempCells(orig, more, bytes, k)
  {
    if k > 0 {
      assert bufs[..k - 1] == bufs[..k][..k - 1] && more[..k - 1] == more[..k][..k - 1];
      assert bufs[..k][k - 1] == more[..k][k - 1];
      TempAgree(orig, bufs, more, bytes, k - 1);
    }
  }

  lemma {:induction false} BorrowedAgree(s0: State, s: State, orig: seq<int>, bufs: seq<int>, more: seq<int>,
                                         bytes: nat, k: nat)
    requires k <= |orig| == |bufs| == |more| && bufs[..k] == more[..k] && Borrowed(s0, s, orig, bufs, bytes, k)
    ensures Borrowed(s0, s, orig, more, bytes, k)
  {
    TempAgree(orig, bufs, more, bytes, k);
    forall i | 0 <= i < k && more[i] != orig[i]
      ensures more[i] !in TempBases(orig, more, i)
      ensures Extent(more[i], bytes) !! TempCells(orig, more, bytes, i)
    {
      assert bufs[..k][i] == more[..k][i];
      assert bufs[..i] == bufs[..k][..i] && more[..i] == more[..k][..i];
      TempAgree(orig, bufs, more, bytes, i);
    }
  }

  /** Each new buffer holds what the original held. */
  ghost predicate SameData(s0: State, s: State, orig: seq<int>, bufs: seq<int>, n: nat, ts: int, k: nat)
    requires k <= |orig| == |bufs|
  {
    forall i :: 0 <= i < k ==>
      && Inside(Cells(orig[i], n, ts), s0.local) && Inside(Cells(bufs[i], n, ts), s.local)
      && Gather(s.local, Cells(bufs[i], n, ts)) == Gather(s0.local, Cells(orig[i], n, ts))
  }

  // ----- One temporary more

  /** An allocation at entry k extends Borrowed. */
  lemma {:induction false} BorrowedAlloc(s0: State, s: State, t: State, orig: seq<int>, bufs: seq<int>, bytes: nat,
                                         k: nat)
    requires k < |orig| == |bufs| && bytes > 0 && Borrowed(s0, s, orig, bufs, bytes, k) && orig[k] in s0.local
    requires t == s.(local := t.local, blocks := s.blocks[bufs[k] := bytes])
    requires Extends(s.local, t.local, Extent(bufs[k], bytes)) && Extends(s.blocks, t.blocks, {bufs[k]})
    ensures bufs[k] != orig[k] && Borrowed(s0, t, orig, bufs, bytes, k + 1)
  {
    var b, bases, cells := bufs[k], TempBases(orig, bufs, k), TempCells(orig, bufs, bytes, k);
    assert b in Extent(b, bytes);
    assert TempBases(orig, bufs, k + 1) == bases + {b};
    assert TempCells(orig, bufs, bytes, k + 1) == cells + Extent(b, bytes);
    ExtendsMore(s0.local, s.local, t.local, cells, Extent(b, bytes));
    ExtendsMore(s0.blocks, s.blocks, t.blocks, bases, {b});
  }

  lemma {:induction false} BorrowedStay(s0: State, s: State, orig: seq<int>, bufs: seq<int>, bytes: nat, k: nat)
    requires k < |orig| == |bufs| && Borrowed(s0, s, orig, bufs, bytes, k) && bufs[k] == orig[k]
    ensures Borrowed(s0, s, orig, bufs, bytes, k + 1)
  {
    assert TempBases(orig, bufs, k + 1) == TempBases(orig, bufs, k);
    assert TempCells(orig, bufs, bytes, k + 1) == TempCells(orig, bufs, bytes, k);
  }

  lemma {:induction false} SameDataLocal(s0: State, s: State, t: State, extra: set<int>, orig: seq<int>,
                                         bufs: seq<int>, n: nat, ts: int, k: nat)
    requires k <= |orig| == |bufs| && SameData(s0, s, orig, bufs, n, ts, k) && Extends(s.local, t.local, extra)
    ensures SameData(s0, t, orig, bufs, n, ts, k)
  {
    forall i | 0 <= i < k
      ensures Inside(Cells(bufs[i], n, ts), t.local)
      ensures Gather(t.local, Cells(bufs[i], n, ts)) == Gather(s.local, Cells(bufs[i], n, ts))
    {
      ExtendsGather(s.local, t.local, extra, Cells(bufs[i], n, ts));
    }
  }

  /** Filling a block that was just allocated. */
  lemma {:induction false} FilledBlock(m0: Mem, m: Mem, base: int, n: nat, ts: nat, bytes: nat, v: seq<int>)
    requires ts > 0 && bytes == n * ts && |v| == n && Extends(m0, m, Extent(base, bytes))
    ensures Inside(Cells(base, n, ts), m)
    ensures Extends(m0, Scatter(m, Cells(base, n, ts), v), Extent(base, bytes))
    ensures Gather(Scatter(m, Cells(base, n, ts), v), Cells(base, n, ts)) == v
  {
    var c := Cells(base, n, ts);
    CellsExtent(base, n, ts, bytes);
    GatherScattered(m, c, v);
    forall a | a in m0 ensures Scatter(m, c, v)[a] == m0[a] {
      assert a !in Extent(base, bytes);
      ScatterElsewhere(m, c, v, a);
    }
  }

  /** ARMCII_Buf_prepare_read_vec: `shared` says which addresses gmr_lookup finds. */
  method PrepareRead(w: Window, orig: seq<int>, n: nat, ts: nat, bytes: nat, guard: bool, shared: int -> bool)
      returns (bufs: seq<int>)
    requires Idle(w.s) && AllInside(orig, n, ts, w.s.local) && n > 0 && ts > 0 && bytes == n * ts
    modifies w
    ensures |bufs| == |orig| && Borrowed(old(w.s), w.s, orig, bufs, bytes, |orig|) && OnlyLocal(old(w.s), w.s)
    ensures SameData(old(w.s), w.s, orig, bufs, n, ts, |orig|)
    ensures (!guard ==> bufs == orig) && MovedIfShared(orig, bufs, guard, shared, |orig|)
  {
    bufs := orig;
    if guard {
      bufs := GuardRead(w, w.s, orig, n, ts, bytes, shared);
    } else {
      NoneBorrowed(w.s, orig, bytes, |orig|);
    }
  }

  method GuardRead(w: Window, ghost s0: State, orig: seq<int>, n: nat, ts: nat, bytes: nat, shared: int -> bool)
      returns (bufs: seq<int>)
    requires Idle(w.s) && w.s == s0 && AllInside(orig, n, ts, s0.local) && n > 0 && ts > 0 && bytes == n * ts
    modifies w
    ensures |bufs| == |orig| && Borrowed(s0, w.s, orig, bufs, bytes, |orig|) && OnlyLocal(s0, w.s)
    ensures SameData(s0, w.s, orig, bufs, n, ts, |orig|) && MovedIfShared(orig, bufs, true, shared, |orig|)
  {
    bufs := seq(|orig|, _ => 0);
    for i := 0 to |orig|
      invariant |bufs| == |orig| && OnlyLocal(s0, w.s) && MovedIfShared(orig, bufs, true, shared, i)
      invariant Borrowed(s0, w.s, orig, bufs, bytes, i)
      invariant SameData(s0, w.s, orig, bufs, n, ts, i)
    {
      bufs := TakeRead(w, s0, orig, bufs, n, ts, bytes, shared, i);
    }
  }

  /** The first k buffers have moved exactly where the original is shared and guarded. */
  ghost predicate MovedIfShared(orig: seq<int>, bufs: seq<int>, guard: bool, shared: int -> bool, k: nat)
    requires k <= |orig| == |bufs|
  {
    forall i :: 0 <= i < k ==> (bufs[i] != orig[i] <==> guard && shared(orig[i]))
  }

  lemma {:induction false} MovedOneMore(orig: seq<int>, bufs: seq<int>, more: seq<int>, shared: int -> bool, i: nat)
    requires i < |orig| == |bufs| == |more| && MovedIfShared(orig, bufs, true, shared, i) && more[..i] == bufs[..i]
    requires shared(orig[i]) && more[i] != orig[i]
    ensures MovedIfShared(orig, more, true, shared, i + 1)
  {
    forall j | 0 <= j < i ensures more[j] == bufs[j] { assert more[..i][j] == bufs[..i][j]; }
  }

  method TakeRead(w: Window, ghost s0: State, orig: seq<int>, bufs: seq<int>, n: nat, ts: nat, bytes: nat,
                  shared: int -> bool, i: nat)
      returns (more: seq<int>)
    requires Idle(w.s) && AllInside(orig, n, ts, s0.local) && n > 0 && ts > 0 && bytes == n * ts
    requires i < |orig| == |bufs| && Borrowed(s0, w.s, orig, bufs, bytes, i) && SameData(s0, w.s, orig, bufs, n, ts, i)
    requires MovedIfShared(orig, bufs, true, shared, i)
    modifies w
    ensures |more| == |orig| && OnlyLocal(old(w.s), w.s) && MovedIfShared(orig, more, true, shared, i + 1)
    ensures Borrowed(s0, w.s, orig, more, bytes, i + 1) && SameData(s0, w.s, orig, more, n, ts, i + 1)
  {
    if shared(orig[i]) {
      more := MoveRead(w, s0, orig, bufs, n, ts, bytes, i);
      MovedOneMore(orig, bufs, more, shared, i);
    } else {
      KeptRead(s0, w.s, orig, bufs, n, ts, bytes, i);
      more := bufs[i := orig[i]];
    }
  }

  /** One private buffer used as it is. */
  lemma {:induction false} KeptRead(s0: State, s: State, orig: seq<int>, bufs: seq<int>, n: nat, ts: nat, bytes: nat,
                                    i: nat)
    requires i < |orig| == |bufs| && Borrowed(s0, s, orig, bufs, bytes, i) && SameData(s0, s, orig, bufs, n, ts, i)
    requires AllInside(orig, n, ts, s0.local)
    ensures Borrowed(s0, s, orig, bufs[i := orig[i]], bytes, i + 1)
    ensures SameData(s0, s, orig, bufs[i := orig[i]], n, ts, i + 1)
  {
    var more := bufs[i := orig[i]];
    BorrowedAgree(s0, s, orig, bufs, more, bytes, i);
    BorrowedStay(s0, s, orig, more, bytes, i);
    assert Inside(Cells(orig[i], n, ts), s0.local);
    ExtendsGather(s0.local, s.local, TempCells(orig, more, bytes, i), Cells(orig[i], n, ts));
  }

  lemma {:induction false} NoneBorrowed(s: State, orig: seq<int>, bytes: nat, k: nat)
    requires k <= |orig|
    ensures TempBases(orig, orig, k) == {} && TempCells(orig, orig, bytes, k) == {}
    ensures Borrowed(s, s, orig, orig, bytes, k)
  {
    if k > 0 { NoneBorrowed(s, orig, bytes, k - 1); }
  }

  /** One shared buffer copied into a temporary. */
  method MoveRead(w: Window, ghost s0: State, orig: seq<int>, bufs: seq<int>, n: nat, ts: nat, bytes: nat, i: nat)
      returns (more: seq<int>)
    requires Idle(w.s) && AllInside(orig, n, ts, s0.local) && n > 0 && ts > 0 && bytes == n * ts
    requires i < |orig| == |bufs| && Borrowed(s0, w.s, orig, bufs, bytes, i) && SameData(s0, w.s, orig, bufs, n, ts, i)
    modifies w
    ensures |more| == |orig| && more[..i] == bufs[..i] && more[i] != orig[i] && OnlyLocal(old(w.s), w.s)
    ensures Borrowed(s0, w.s, orig, more, bytes, i + 1) && SameData(s0, w.s, orig, more, n, ts, i + 1)
  {
    var base := w.Alloc(bytes);
    more := bufs[i := base];
    BorrowedAgree(s0, old(w.s), orig, bufs, more, bytes, i);
    assert n * ts > 0;
    assert orig[i] == Cells(orig[i], n, ts)[0];
    ghost var s1, c, e := w.s, Cells(orig[i], n, ts), Extent(base, bytes);
    ghost var v := Gather(s0.local, c);
    ExtendsGather(s0.local, old(w.s.local), TempCells(orig, bufs, bytes, i), c);
    ExtendsGather(old(w.s.local), s1.local, e, c);
    FilledBlock(old(w.s.local), s1.local, base, n, ts, bytes, v);
    w.Copy(orig[i], base, n, ts);
    BorrowedAlloc(s0, old(w.s), w.s, orig, more, bytes, i);
    SameDataLocal(s0, old(w.s), w.s, e, orig, bufs, n, ts, i);
  }

  lemma {:induction false} TempBlock(s0: State, s: State, orig: seq<int>, bufs: seq<int>, bytes: nat, k: nat, i: nat)
    requires i < k <= |orig| == |bufs| && bufs[i] != orig[i] && Borrowed(s0, s, orig, bufs, bytes, k)
    ensures bufs[i] in s.blocks && s.blocks[bufs[i]] == bytes && bufs[i] !in TempBases(orig, bufs, i)
  {
    TempBaseIn(orig, bufs, k, i);
  }

  lemma {:induction false} ReturnNext(s: State, orig: seq<int>, bufs: seq<int>, bytes: nat, k: nat)
    requires k < |orig| == |bufs|
    ensures var t := Returned(s, orig, bufs, bytes, k);
            Returned(s, orig, bufs, bytes, k + 1) ==
            if bufs[k] == orig[k] then t
            else t.(local := t.local - Extent(bufs[k], bytes), blocks := t.blocks - {bufs[k]})
  {
    var t, u := Returned(s, orig, bufs, bytes, k), Returned(s, orig, bufs, bytes, k + 1);
    if bufs[k] == orig[k] {
      assert TempCells(orig, bufs, bytes, k + 1) == TempCells(orig, bufs, bytes, k);
      assert TempBases(orig, bufs, k + 1) == TempBases(orig, bufs, k);
    } else {
      assert u.local == t.local - Extent(bufs[k], bytes);
      assert u.blocks == t.blocks - {bufs[k]};
    }
  }

  /** ARMCII_Buf_finish_read_vec, and the unscaled case of ARMCII_Buf_finish_acc_vec: the temporaries
      are freed, each once, and the origin's memory is as it was. */
  method FinishRead(w: Window, ghost s0: State, orig: seq<int>, bufs: seq<int>, ghost bytes: nat, guard: bool)
    requires Idle(w.s) && |bufs| == |orig| && (!guard ==> bufs == orig) && Borrowed(s0, w.s, orig, bufs, bytes, |orig|)
    modifies w
    ensures w.s == old(w.s).(local := s0.local, blocks := s0.blocks) && Idle(w.s) && View(w.s) == View(old(w.s))
  {
    ghost var s := w.s;
    ReturnedAll(s0, s, orig, bufs, bytes);
    if guard {
      assert Returned(s, orig, bufs, bytes, 0) == s by {
        assert s.local - {} == s.local && s.blocks - {} == s.blocks;
      }
      for i := 0 to |orig|
        invariant w.s == Returned(s, orig, bufs, bytes, i) && Idle(w.s) && View(w.s) == View(s)
      {
        ReturnNext(s, orig, bufs, bytes, i);
        if orig[i] != bufs[i] {
          TempBlock(s0, s, orig, bufs, bytes, |orig|, i);
          w.Free(bufs[i]);
        }
      }
    } else {
      NoneBorrowed(s, orig, bytes, |orig|);
      assert s.local - {} == s.local && s.blocks - {} == s.blocks;
    }
  }

  // ----- Temporaries that receive the result of a get

  /** ARMCII_Buf_prepare_write_vec. */
  method PrepareWrite(w: Window, orig: seq<int>, n: nat, ts: nat, bytes: nat, guard: bool, shared: int -> bool)
      returns (bufs: seq<int>)
    requires Idle(w.s) && AllInside(orig, n, ts, w.s.local) && n > 0 && ts > 0 && bytes == n * ts
    modifies w
    ensures |bufs| == |orig| && Borrowed(old(w.s), w.s, orig, bufs, bytes, |orig|) && OnlyLocal(old(w.s), w.s)
    ensures AllInside(bufs, n, ts, w.s.local)
    ensures (!guard ==> bufs == orig) && MovedIfShared(orig, bufs, guard, shared, |orig|)
  {
    bufs := orig;
    if guard {
      bufs := GuardWrite(w, w.s, orig, n, ts, bytes, shared);
    } else {
      NoneBorrowed(w.s, orig, bytes, |orig|);
    }
    BorrowedInside(old(w.s), w.s, orig, bufs, n, ts, bytes);
  }

  method GuardWrite(w: Window, ghost s0: State, orig: seq<int>, n: nat, ts: nat, bytes: nat, shared: int -> bool)
      returns (bufs: seq<int>)
    requires Idle(w.s) && w.s == s0 && AllInside(orig, n, ts, s0.local) && n > 0 && ts > 0 && bytes == n * ts
    modifies w
    ensures |bufs| == |orig| && Borrowed(s0, w.s, orig, bufs, bytes, |orig|) && OnlyLocal(s0, w.s)
    ensures MovedIfShared(orig, bufs, true, shared, |orig|)
  {
    bufs := seq(|orig|, _ => 0);
    for i := 0 to |orig|
      invariant |bufs| == |orig| && OnlyLocal(s0, w.s) && MovedIfShared(orig, bufs, true, shared, i)
      invariant Borrowed(s0, w.s, orig, bufs, bytes, i)
    {
      bufs := TakeWrite(w, s0, orig, bufs, n, ts, bytes, shared, i);
    }
  }

  method TakeWrite(w: Window, ghost s0: State, orig: seq<int>, bufs: seq<int>, n: nat, ts: nat, bytes: nat,
                   shared: int -> bool, i: nat)
      returns (more: seq<int>)
    requires Idle(w.s) && AllInside(orig, n, ts, s0.local) && n > 0 && ts > 0 && bytes == n * ts
    requires i < |orig| == |bufs| && Borrowed(s0, w.s, orig, bufs, bytes, i)
    requires MovedIfShared(orig, bufs, true, shared, i)
    modifies w
    ensures |more| == |orig| && OnlyLocal(old(w.s), w.s) && MovedIfShared(orig, more, true, shared, i + 1)
    ensures Borrowed(s0, w.s, orig, more, bytes, i + 1)
  {
    ghost var s := w.s;
    if shared(orig[i]) {
      var base := w.Alloc(bytes);
      more := bufs[i := base];
      BorrowedAgree(s0, s, orig, bufs, more, bytes, i);
      assert n * ts > 0;
      assert orig[i] == Cells(orig[i], n, ts)[0];
      BorrowedAlloc(s0, s, w.s, orig, more, bytes, i);
    } else {
      more := bufs[i := orig[i]];
      BorrowedAgree(s0, s, orig, bufs, more, bytes, i);
      BorrowedStay(s0, s, orig, more, bytes, i);
    }
  }

  lemma {:induction false} TempCellsIn(orig: seq<int>, bufs: seq<int>, bytes: nat, k: nat, i: nat)
    requires i < k <= |orig| == |bufs| && bufs[i] != orig[i]
    ensures Extent(bufs[i], bytes) <= TempCells(orig, bufs, bytes, k)
  {
    if i < k - 1 { TempCellsIn(orig, bufs, bytes, k - 1, i); }
  }

  lemma {:induction false} BorrowedInside(s0: State, s: State, orig: seq<int>, bufs: seq<int>, n: nat, ts: nat,
                                          bytes: nat)
    requires |orig| == |bufs| && ts > 0 && bytes == n * ts
    requires Borrowed(s0, s, orig, bufs, bytes, |orig|) && AllInside(orig, n, ts, s0.local)
    ensures AllInside(bufs, n, ts, s.local)
  {
    forall i | 0 <= i < |bufs| ensures Inside(Cells(bufs[i], n, ts), s.local) {
      if bufs[i] == orig[i] {
        ExtendsGather(s0.local, s.local, TempCells(orig, bufs, bytes, |orig|), Cells(orig[i], n, ts));
      } else {
        TempCellsIn(orig, bufs, bytes, |orig|, i);
        CellsExtent(bufs[i], n, ts, bytes);
      }
    }
  }

  /** Segment j of the result is at its place. */
  ghost predicate At(m: Mem, p: int, v: Mem, q: int, n: nat, ts: int) {
    Inside(Cells(p, n, ts), m) && Inside(Cells(q, n, ts), v) && Gather(m, Cells(p, n, ts)) == Gather(v, Cells(q, n, ts))
  }

  /** Where the result of a get is after i entries were written back: still in its temporary, or in
      the user's buffer. */
  ghost predicate WrittenBack(s0: State, m: Mem, orig: seq<int>, bufs: seq<int>, n: nat, ts: int, v: Mem,
                              src: seq<int>, i: nat)
    requires |orig| == |bufs| == |src|
  {
    && (forall j :: i <= j < |orig| && bufs[j] != orig[j] ==> At(m, bufs[j], v, src[j], n, ts))
    && (forall j :: 0 <= j < |orig| && (j < i || bufs[j] == orig[j]) ==> At(m, orig[j], v, src[j], n, ts))
    && s0.local.Keys <= m.Keys && (forall x :: x in s0.local && x !in AllCells(orig, n, ts) ==> m[x] == s0.local[x])
  }

  /** The result of a copy and a free at entry i. */
  ghost function CopiedBack(m: Mem, p: int, q: int, n: nat, ts: int, bytes: nat): Mem
    requires Inside(Cells(p, n, ts), m) && Inside(Cells(q, n, ts), m)
  {
    Scatter(m, Cells(p, n, ts), Gather(m, Cells(q, n, ts))) - Extent(q, bytes)
  }

  lemma {:induction false} AtElsewhere(m: Mem, p: int, q: int, n: nat, ts: int, bytes: nat, r: int, v: Mem, src: int)
    requires Inside(Cells(p, n, ts), m) && Inside(Cells(q, n, ts), m) && At(m, r, v, src, n, ts)
    requires forall a :: 0 <= a < n ==>
               Cells(r, n, ts)[a] !in Cells(p, n, ts) && Cells(r, n, ts)[a] !in Extent(q, bytes)
    ensures At(CopiedBack(m, p, q, n, ts, bytes), r, v, src, n, ts)
  {
    forall a | 0 <= a < n
      ensures Cells(r, n, ts)[a] in CopiedBack(m, p, q, n, ts, bytes)
      ensures CopiedBack(m, p, q, n, ts, bytes)[Cells(r, n, ts)[a]] == Gather(m, Cells(r, n, ts))[a]
    {
      ScatterElsewhere(m, Cells(p, n, ts), Gather(m, Cells(q, n, ts)), Cells(r, n, ts)[a]);
    }
  }

  lemma {:induction false} AtHere(m: Mem, p: int, q: int, n: nat, ts: nat, bytes: nat, v: Mem, src: int)
    requires ts > 0 && bytes == n * ts && Inside(Cells(p, n, ts), m) && At(m, q, v, src, n, ts)
    requires forall a :: 0 <= a < n ==> Cells(p, n, ts)[a] !in Extent(q, bytes)
    ensures At(CopiedBack(m, p, q, n, ts, bytes), p, v, src, n, ts)
  {
    var c := Cells(p, n, ts);
    CellsExtent(p, n, ts, bytes);
    GatherScattered(m, c, Gather(m, Cells(q, n, ts)));
    var t := Scatter(m, c, Gather(m, Cells(q, n, ts)));
    forall a | 0 <= a < n
      ensures c[a] in CopiedBack(m, p, q, n, ts, bytes)
      ensures CopiedBack(m, p, q, n, ts, bytes)[c[a]] == Gather(m, Cells(q, n, ts))[a]
    {
      assert Gather(t, c)[a] == t[c[a]];
    }
  }

  /** No cell of the user's memory belongs to a temporary, and no two temporaries meet. */
  lemma {:induction false} TempsApart(s0: State, s: State, orig: seq<int>, bufs: seq<int>, n: nat, ts: nat,
                                      bytes: nat, i: nat, j: nat)
    requires |orig| == |bufs| && i < |orig| && j < |orig| && bufs[i] != orig[i] && ts > 0 && bytes == n * ts
    requires Borrowed(s0, s, orig, bufs, bytes, |orig|) && AllInside(orig, n, ts, s0.local)
    ensures forall a :: 0 <= a < n ==> Cells(orig[j], n, ts)[a] !in Extent(bufs[i], bytes)
    ensures i < j && bufs[j] != orig[j] ==>
              forall a :: 0 <= a < n ==>
                && Cells(bufs[j], n, ts)[a] !in Cells(orig[i], n, ts)
                && Cells(bufs[j], n, ts)[a] !in Extent(bufs[i], bytes)
  {
    TempCellsIn(orig, bufs, bytes, |orig|, i);
    assert Inside(Cells(orig[j], n, ts), s0.local) && Inside(Cells(orig[i], n, ts), s0.local);
    if i < j && bufs[j] != orig[j] {
      TempCellsIn(orig, bufs, bytes, |orig|, j);
      TempCellsIn(orig, bufs, bytes, j, i);
      CellsExtent(bufs[j], n, ts, bytes);
    }
  }

  lemma {:induction false} WriteBackOthers(s0: State, s: State, m: Mem, orig: seq<int>, bufs: seq<int>, n: nat,
                                           ts: nat, bytes: nat, v: Mem, src: seq<int>, i: nat, j: nat)
    requires |orig| == |bufs| == |src| && i < |orig| && j < |orig| && i != j && bufs[i] != orig[i] && ts > 0
    requires bytes == n * ts
    requires Borrowed(s0, s, orig, bufs, bytes, |orig|) && AllInside(orig, n, ts, s0.local)
    requires Distinct(AllCells(orig, n, ts))
    requires WrittenBack(s0, m, orig, bufs, n, ts, v, src, i)
    requires Inside(Cells(orig[i], n, ts), m) && Inside(Cells(bufs[i], n, ts), m)
    ensures i < j && bufs[j] != orig[j] ==> At(CopiedBack(m, orig[i], bufs[i], n, ts, bytes), bufs[j], v, src[j], n, ts)
    ensures j < i || bufs[j] == orig[j] ==> At(CopiedBack(m, orig[i], bufs[i], n, ts, bytes), orig[j], v, src[j], n, ts)
  {
    TempsApart(s0, s, orig, bufs, n, ts, bytes, i, j);
    if j < i || bufs[j] == orig[j] {
      forall a, b | 0 <= a < n && 0 <= b < n ensures Cells(orig[j], n, ts)[a] != Cells(orig[i], n, ts)[b] {
        if i < j { SegmentsApart(orig, n, ts, i, j, b, a); } else { SegmentsApart(orig, n, ts, j, i, a, b); }
      }
      AtElsewhere(m, orig[i], bufs[i], n, ts, bytes, orig[j], v, src[j]);
    } else {
      AtElsewhere(m, orig[i], bufs[i], n, ts, bytes, bufs[j], v, src[j]);
    }
  }

  lemma {:induction false} WriteBackStep(s0: State, s: State, m: Mem, orig: seq<int>, bufs: seq<int>, n: nat, ts: nat,
                                         bytes: nat, v: Mem, src: seq<int>, i: nat)
    requires |orig| == |bufs| == |src| && i < |orig| && bufs[i] != orig[i] && ts > 0 && bytes == n * ts
    requires Borrowed(s0, s, orig, bufs, bytes, |orig|) && AllInside(orig, n, ts, s0.local)
    requires Distinct(AllCells(orig, n, ts))
    requires WrittenBack(s0, m, orig, bufs, n, ts, v, src, i)
    ensures Inside(Cells(orig[i], n, ts), m) && Inside(Cells(bufs[i], n, ts), m)
    ensures WrittenBack(s0, CopiedBack(m, orig[i], bufs[i], n, ts, bytes), orig, bufs, n, ts, v, src, i + 1)
  {
    assert At(m, bufs[i], v, src[i], n, ts);
    assert Inside(Cells(orig[i], n, ts), s0.local);
    var t := CopiedBack(m, orig[i], bufs[i], n, ts, bytes);
    TempsApart(s0, s, orig, bufs, n, ts, bytes, i, i);
    AtHere(m, orig[i], bufs[i], n, ts, bytes, v, src[i]);
    forall j | 0 <= j < |orig| && j != i
      ensures i < j && bufs[j] != orig[j] ==> At(t, bufs[j], v, src[j], n, ts)
      ensures j < i || bufs[j] == orig[j] ==> At(t, orig[j], v, src[j], n, ts)
    {
      WriteBackOthers(s0, s, m, orig, bufs, n, ts, bytes, v, src, i, j);
    }
    WriteBackRest(s0, s, m, orig, bufs, n, ts, bytes, i);
  }

  lemma {:induction false} WriteBackRest(s0: State, s: State, m: Mem, orig: seq<int>, bufs: seq<int>, n: nat, ts: nat,
                                         bytes: nat, i: nat)
    requires i < |orig| == |bufs| && bufs[i] != orig[i] && Borrowed(s0, s, orig, bufs, bytes, |orig|)
    requires Inside(Cells(orig[i], n, ts), m) && Inside(Cells(bufs[i], n, ts), m) && s0.local.Keys <= m.Keys
    requires forall x :: x in s0.local && x !in AllCells(orig, n, ts) ==> m[x] == s0.local[x]
    ensures var t := CopiedBack(m, orig[i], bufs[i], n, ts, bytes);
            s0.local.Keys <= t.Keys && forall x :: x in s0.local && x !in AllCells(orig, n, ts) ==> t[x] == s0.local[x]
  {
    TempCellsIn(orig, bufs, bytes, |orig|, i);
    var c, t := Cells(orig[i], n, ts), CopiedBack(m, orig[i], bufs[i], n, ts, bytes);
    forall x | x in s0.local && x !in AllCells(orig, n, ts) ensures t[x] == s0.local[x] {
      if x in c {
        var a :| 0 <= a < n && c[a] == x;
        AllCellsHas(orig, n, ts, i, a);
        assert false;
      }
      ScatterElsewhere(m, c, Gather(m, Cells(bufs[i], n, ts)), x);
    }
  }

  /** ARMCII_Buf_finish_write_vec: every segment ends in the user's buffer, each temporary is freed
      once, and nothing else in the origin's memory differs from before the get. */
  method FinishWrite(w: Window, ghost s0: State, ghost s: State, orig: seq<int>, bufs: seq<int>, n: nat, ts: nat,
                     ghost bytes: nat, ghost v: Mem, ghost src: seq<int>, guard: bool)
    requires Idle(w.s) && |bufs| == |orig| == |src| && (!guard ==> bufs == orig) && ts > 0 && bytes == n * ts
    requires Borrowed(s0, s, orig, bufs, bytes, |orig|) && AllInside(orig, n, ts, s0.local)
    requires Distinct(AllCells(orig, n, ts))
    requires AllInside(src, n, ts, v) && Inside(AllCells(src, n, ts), v)
    requires w.s.blocks == s.blocks && w.s.local.Keys == s.local.Keys
    requires WrittenBack(s0, w.s.local, orig, bufs, n, ts, v, src, 0)
    modifies w
    ensures Inside(AllCells(orig, n, ts), s0.local) && |AllCells(orig, n, ts)| == |AllCells(src, n, ts)|
    ensures w.s == old(w.s).(local := Scatter(s0.local, AllCells(orig, n, ts), Gather(v, AllCells(src, n, ts))),
                             blocks := s0.blocks)
    ensures Idle(w.s) && View(w.s) == View(old(w.s))
  {
    ghost var was := w.s;
    FinishStart(s0, s, was, orig, bufs, n, ts, bytes, v, src);
    if guard {
      for i := 0 to |orig|
        invariant Finishing(s0, s, was, w.s, orig, bufs, n, ts, bytes, v, src, i)
      {
        if orig[i] != bufs[i] {
          WriteBack(w, s0, s, was, orig, bufs, n, ts, bytes, v, src, i);
        } else {
          FinishStay(s0, s, was, w.s, orig, bufs, n, ts, bytes, v, src, i);
        }
      }
    } else {
      FinishStays(s0, s, was, orig, bufs, n, ts, bytes, v, src, |orig|);
    }
    FinishEnd(s0, s, was, w.s, orig, bufs, n, ts, bytes, v, src);
  }

  lemma {:induction false} FinishStart(s0: State, s: State, was: State, orig: seq<int>, bufs: seq<int>, n: nat,
                                       ts: nat, bytes: nat, v: Mem, src: seq<int>)
    requires |orig| == |bufs| == |src| && Idle(was) && was.blocks == s.blocks && was.local.Keys == s.local.Keys
    requires WrittenBack(s0, was.local, orig, bufs, n, ts, v, src, 0)
    ensures Finishing(s0, s, was, was, orig, bufs, n, ts, bytes, v, src, 0)
  {
    assert s.blocks - {} == s.blocks;
  }

  lemma {:induction false} FinishStay(s0: State, s: State, was: State, t: State, orig: seq<int>, bufs: seq<int>,
                                      n: nat, ts: nat, bytes: nat, v: Mem, src: seq<int>, i: nat)
    requires |orig| == |bufs| == |src| && Formed(was) && i < |orig| && bufs[i] == orig[i]
    requires Finishing(s0, s, was, t, orig, bufs, n, ts, bytes, v, src, i)
    ensures Finishing(s0, s, was, t, orig, bufs, n, ts, bytes, v, src, i + 1)
  {
    assert TempCells(orig, bufs, bytes, i + 1) == TempCells(orig, bufs, bytes, i);
    assert TempBases(orig, bufs, i + 1) == TempBases(orig, bufs, i);
  }

  lemma {:induction false} FinishStays(s0: State, s: State, was: State, orig: seq<int>, bufs: seq<int>, n: nat,
                                       ts: nat, bytes: nat, v: Mem, src: seq<int>, i: nat)
    requires |orig| == |bufs| == |src| && Formed(was) && i <= |orig| && bufs == orig
    requires Finishing(s0, s, was, was, orig, bufs, n, ts, bytes, v, src, 0)
    ensures Finishing(s0, s, was, was, orig, bufs, n, ts, bytes, v, src, i)
  {
    if i > 0 {
      FinishStays(s0, s, was, orig, bufs, n, ts, bytes, v, src, i - 1);
      FinishStay(s0, s, was, was, orig, bufs, n, ts, bytes, v, src, i - 1);
    }
  }

  lemma {:induction false} FinishEnd(s0: State, s: State, was: State, t: State, orig: seq<int>, bufs: seq<int>,
                                     n: nat, ts: nat, bytes: nat, v: Mem, src: seq<int>)
    requires |orig| == |bufs| == |src| && Formed(was) && AllInside(src, n, ts, v) && Inside(AllCells(src, n, ts), v)
    requires Borrowed(s0, s, orig, bufs, bytes, |orig|) && AllInside(orig, n, ts, s0.local)
    requires Distinct(AllCells(orig, n, ts))
    requires Finishing(s0, s, was, t, orig, bufs, n, ts, bytes, v, src, |orig|)
    ensures Inside(AllCells(orig, n, ts), s0.local) && |AllCells(orig, n, ts)| == |AllCells(src, n, ts)|
    ensures t == was.(local := Scatter(s0.local, AllCells(orig, n, ts), Gather(v, AllCells(src, n, ts))),
                      blocks := s0.blocks)
    ensures Idle(t) && View(t) == View(was)
  {
    GotAll(s0, s, t.local, orig, bufs, n, ts, bytes, v, src);
  }

  ghost predicate Finishing(s0: State, s: State, was: State, t: State, orig: seq<int>, bufs: seq<int>, n: nat,
                            ts: nat, bytes: nat, v: Mem, src: seq<int>, i: nat)
    requires |orig| == |bufs| == |src| && Formed(was) && i <= |orig|
  {
    && WrittenBack(s0, t.local, orig, bufs, n, ts, v, src, i)
    && OnlyLocal(was, t) && t.local.Keys == s.local.Keys - TempCells(orig, bufs, bytes, i)
    && t.blocks == s.blocks - TempBases(orig, bufs, i)
  }

  /** One temporary copied back and freed. */
  method WriteBack(w: Window, ghost s0: State, ghost s: State, ghost was: State, orig: seq<int>, bufs: seq<int>,
                   n: nat, ts: nat, ghost bytes: nat, ghost v: Mem, ghost src: seq<int>, i: nat)
    requires |orig| == |bufs| == |src| && i < |orig| && bufs[i] != orig[i] && ts > 0 && bytes == n * ts && Formed(was)
    requires Borrowed(s0, s, orig, bufs, bytes, |orig|) && AllInside(orig, n, ts, s0.local)
    requires Distinct(AllCells(orig, n, ts))
    requires Finishing(s0, s, was, w.s, orig, bufs, n, ts, bytes, v, src, i)
    modifies w
    ensures Finishing(s0, s, was, w.s, orig, bufs, n, ts, bytes, v, src, i + 1)
  {
    ghost var m := w.s.local;
    TempBlock(s0, s, orig, bufs, bytes, |orig|, i);
    WriteBackStep(s0, s, m, orig, bufs, n, ts, bytes, v, src, i);
    w.Copy(bufs[i], orig[i], n, ts);
    w.Free(bufs[i]);
    assert w.s.local == CopiedBack(m, orig[i], bufs[i], n, ts, bytes);
    assert w.s.blocks == s.blocks - TempBases(orig, bufs, i + 1);
    assert w.s.local.Keys == s.local.Keys - TempCells(orig, bufs, bytes, i + 1);
  }

  lemma {:induction false} GotAll(s0: State, s: State, m: Mem, orig: seq<int>, bufs: seq<int>, n: nat, ts: nat,
                                  bytes: nat, v: Mem, src: seq<int>)
    requires |orig| == |bufs| == |src| && Borrowed(s0, s, orig, bufs, bytes, |orig|) && AllInside(orig, n, ts, s0.local)
    requires Distinct(AllCells(orig, n, ts)) && AllInside(src, n, ts, v) && Inside(AllCells(src, n, ts), v)
    requires m.Keys == s.local.Keys - TempCells(orig, bufs, bytes, |orig|)
    requires WrittenBack(s0, m, orig, bufs, n, ts, v, src, |orig|)
    ensures Inside(AllCells(orig, n, ts), s0.local) && |AllCells(orig, n, ts)| == |AllCells(src, n, ts)|
    ensures m == Scatter(s0.local, AllCells(orig, n, ts), Gather(v, AllCells(src, n, ts)))
    ensures s.blocks - TempBases(orig, bufs, |orig|) == s0.blocks
  {
    ExtendsRemove(s0.blocks, s.blocks, TempBases(orig, bufs, |orig|));
    forall j | 0 <= j < |orig|
      ensures Inside(Cells(orig[j], n, ts), m) && Gather(m, Cells(orig[j], n, ts)) == Gather(v, Cells(src[j], n, ts))
    {
      assert At(m, orig[j], v, src[j], n, ts);
    }
    StoredIsScatter(s0.local, m, orig, v, src, n, ts);
  }

  // ----- Scaled copies for accumulate

  /** The extra slot of the vector: where the scaled copies were gathered, if they were. */
  datatype Region = NoRegion | Region(base: int)

  ghost function Times(scale: int, v: seq<int>): (r: seq<int>)
    ensures |r| == |v| && forall i :: 0 <= i < |v| ==> r[i] == v[i] * scale
  {
    seq(|v|, i requires 0 <= i < |v| => v[i] * scale)
  }

  /** Each new buffer holds the original times the scale. */
  ghost predicate ScaledData(s0: State, s: State, orig: seq<int>, bufs: seq<int>, n: nat, ts: int, scale: int, k: nat)
    requires k <= |orig| == |bufs|
  {
    forall i :: 0 <= i < k ==>
      && Inside(Cells(orig[i], n, ts), s0.local) && Inside(Cells(bufs[i], n, ts), s.local)
      && Gather(s.local, Cells(bufs[i], n, ts)) == Times(scale, Gather(s0.local, Cells(orig[i], n, ts)))
  }

  ghost predicate CellsApart(src: int, dst: int, n: nat, ts: nat) {
    forall i, j :: 0 <= i < n && 0 <= j < n ==> Cells(src, n, ts)[i] != Cells(dst, n, ts)[j]
  }

  /** ARMCII_Buf_acc_scale for the integer types. */
  method AccScale(w: Window, src: int, dst: int, n: nat, ts: nat, scale: int)
    requires Idle(w.s) && Inside(Cells(src, n, ts), w.s.local) && Inside(Cells(dst, n, ts), w.s.local)
    requires CellsApart(src, dst, n, ts)
    modifies w
    ensures w.s == old(w.s).(local := Scatter(old(w.s.local), Cells(dst, n, ts),
                                              Times(scale, Gather(old(w.s.local), Cells(src, n, ts)))))
    ensures Idle(w.s) && View(w.s) == View(old(w.s))
  {
    ghost var s0, c, v := w.s, Cells(dst, n, ts), Times(scale, Gather(w.s.local, Cells(src, n, ts)));
    assert c[..0] == [] && v[..0] == [];
    for j := 0 to n
      invariant ScaledUpTo(s0, w.s, c, v, j)
    {
      ScaleCell(w, s0, src, dst, n, ts, scale, j);
    }
    assert c[..n] == c && v[..n] == v;
  }

  ghost predicate ScaledUpTo(s0: State, s: State, c: seq<int>, v: seq<int>, j: nat)
    requires j <= |c| == |v| && Inside(c, s0.local) && Formed(s0)
  {
    Inside(c[..j], s0.local) && OnlyLocal(s0, s) && s == s0.(local := Scatter(s0.local, c[..j], v[..j]))
  }

  method ScaleCell(w: Window, ghost s0: State, src: int, dst: int, n: nat, ts: nat, scale: int, j: nat)
    requires Formed(s0) && Inside(Cells(src, n, ts), s0.local) && Inside(Cells(dst, n, ts), s0.local) && j < n
    requires CellsApart(src, dst, n, ts)
    requires ScaledUpTo(s0, w.s, Cells(dst, n, ts), Times(scale, Gather(s0.local, Cells(src, n, ts))), j)
    modifies w
    ensures ScaledUpTo(s0, w.s, Cells(dst, n, ts), Times(scale, Gather(s0.local, Cells(src, n, ts))), j + 1)
  {
    ghost var c, v := Cells(dst, n, ts), Times(scale, Gather(s0.local, Cells(src, n, ts)));
    var from, to := Cells(src, n, ts)[j], Cells(dst, n, ts)[j];
    SourceKept(s0.local, src, dst, n, ts, j, v);
    ScatterNext(s0.local, c, v, j);
    w.Store(to, w.s.local[from] * scale);
  }

  lemma {:induction false} SourceKept(m: Mem, src: int, dst: int, n: nat, ts: nat, j: nat, v: seq<int>)
    requires Inside(Cells(src, n, ts), m) && Inside(Cells(dst, n, ts), m) && j < n == |v| && CellsApart(src, dst, n, ts)
    ensures Inside(Cells(dst, n, ts)[..j], m)
    ensures Scatter(m, Cells(dst, n, ts)[..j], v[..j])[Cells(src, n, ts)[j]] == m[Cells(src, n, ts)[j]]
  {
    var c := Cells(dst, n, ts)[..j];
    assert forall i :: 0 <= i < j ==> c[i] == Cells(dst, n, ts)[i];
    ScatterElsewhere(m, c, v[..j], Cells(src, n, ts)[j]);
  }

  /** What the scaled case hands out: segment i sits i * bytes into one fresh block. */
  ghost predicate Gathered(s0: State, s: State, base: int, bufs: seq<int>, bytes: nat, total: nat) {
    && Extends(s0.local, s.local, Extent(base, total)) && Extends(s0.blocks, s.blocks, {base})
    && s.blocks[base] == total
    && forall i :: 0 <= i < |bufs| ==> bufs[i] == base + i * bytes
  }

  lemma {:induction false} SlotFits(i: nat, k: nat, bytes: nat)
    requires i < k
    ensures 0 <= i * bytes && i * bytes + bytes <= k * bytes
  {
    var d := k - i - 1;
    assert d * bytes >= 0;
    assert k == i + 1 + d;
    assert (i + 1 + d) * bytes == i * bytes + bytes + d * bytes;
  }

  lemma {:induction false} SlotInside(base: int, p: int, i: nat, k: nat, n: nat, ts: nat, bytes: nat, total: nat)
    requires i < k && ts > 0 && bytes == n * ts && total == k * bytes && p == base + i * bytes
    ensures forall j :: 0 <= j < n ==> Cells(p, n, ts)[j] in Extent(base, total)
  {
    SlotFits(i, k, bytes);
    CellsExtent(p, n, ts, bytes);
  }

  /** Scaling into the fresh block leaves the user's memory and the segments already done alone. */
  lemma {:induction false} ScaledStep(s0: State, s: State, t: State, base: int, orig: seq<int>, bufs: seq<int>,
                                      n: nat, ts: nat, bytes: nat, total: nat, scale: int, k: nat)
    requires k < |orig| == |bufs| && ts > 0 && bytes == n * ts && total == |orig| * bytes
    requires Gathered(s0, s, base, bufs, bytes, total) && ScaledData(s0, s, orig, bufs, n, ts, scale, k)
    requires AllInside(orig, n, ts, s0.local)
    requires Inside(Cells(bufs[k], n, ts), s.local) && Inside(Cells(orig[k], n, ts), s.local)
    requires t == s.(local := Scatter(s.local, Cells(bufs[k], n, ts),
                                      Times(scale, Gather(s.local, Cells(orig[k], n, ts)))))
    ensures Gathered(s0, t, base, bufs, bytes, total) && ScaledData(s0, t, orig, bufs, n, ts, scale, k + 1)
  {
    var v := Times(scale, Gather(s.local, Cells(orig[k], n, ts)));
    ScaledOutside(s0.local, s.local, base, bufs[k], k, |orig|, n, ts, bytes, total, v);
    assert Inside(Cells(orig[k], n, ts), s0.local);
    ExtendsGather(s0.local, s.local, Extent(base, total), Cells(orig[k], n, ts));
    CellsExtent(bufs[k], n, ts, bytes);
    GatherScattered(s.local, Cells(bufs[k], n, ts), v);
    forall i | 0 <= i < k
      ensures Inside(Cells(bufs[i], n, ts), t.local)
      ensures Gather(t.local, Cells(bufs[i], n, ts)) == Gather(s.local, Cells(bufs[i], n, ts))
    {
      ScaledKept(s.local, base, bufs[i], bufs[k], i, k, n, ts, bytes, v);
    }
  }

  lemma {:induction false} ScaledOutside(m0: Mem, m: Mem, base: int, p: int, i: nat, k: nat, n: nat, ts: nat,
                                         bytes: nat, total: nat, v: seq<int>)
    requires i < k && ts > 0 && bytes == n * ts && total == k * bytes && p == base + i * bytes && |v| == n
    requires Extends(m0, m, Extent(base, total)) && Inside(Cells(p, n, ts), m)
    ensures Extends(m0, Scatter(m, Cells(p, n, ts), v), Extent(base, total))
  {
    SlotInside(base, p, i, k, n, ts, bytes, total);
    forall a | a in m0 ensures Scatter(m, Cells(p, n, ts), v)[a] == m0[a] {
      ScatterElsewhere(m, Cells(p, n, ts), v, a);
    }
  }

  lemma {:induction false} ScaledKept(m: Mem, base: int, p: int, q: int, i: nat, k: nat, n: nat, ts: nat, bytes: nat,
                                      v: seq<int>)
    requires i < k && ts > 0 && bytes == n * ts && |v| == n && p == base + i * bytes && q == base + k * bytes
    requires Inside(Cells(p, n, ts), m) && Inside(Cells(q, n, ts), m)
    ensures Gather(Scatter(m, Cells(q, n, ts), v), Cells(p, n, ts)) == Gather(m, Cells(p, n, ts))
  {
    var c, d := Cells(q, n, ts), Cells(p, n, ts);
    SlotFits(i, k, bytes);
    CellsExtent(p, n, ts, bytes);
    CellsExtent(q, n, ts, bytes);
    forall a | 0 <= a < n ensures Scatter(m, c, v)[d[a]] == m[d[a]] {
      ScatterElsewhere(m, c, v, d[a]);
    }
  }

  ghost predicate PreparedAcc(s0: State, s: State, orig: seq<int>, bufs: seq<int>, region: Region, bytes: nat)
    requires |orig| == |bufs|
  {
    if region.Region? then
      Gathered(s0, s, region.base, bufs, bytes, |orig| * bytes)
    else
      Borrowed(s0, s, orig, bufs, bytes, |orig|)
  }

  /** ARMCII_Buf_prepare_acc_vec. */
  method PrepareAcc(w: Window, orig: seq<int>, n: nat, ts: nat, bytes: nat, guard: bool, shared: int -> bool,
                    scale: int)
      returns (bufs: seq<int>, region: Region)
    requires Idle(w.s) && AllInside(orig, n, ts, w.s.local) && n > 0 && ts > 0 && bytes == n * ts
    modifies w
    ensures |bufs| == |orig| && OnlyLocal(old(w.s), w.s) && PreparedAcc(old(w.s), w.s, orig, bufs, region, bytes)
    ensures ScaledData(old(w.s), w.s, orig, bufs, n, ts, scale, |orig|)
    ensures (region.Region? <==> scale != 1) && (scale == 1 ==> MovedIfShared(orig, bufs, guard, shared, |orig|))
  {
    if scale != 1 {
      var base := w.Alloc(|orig| * bytes);
      region := Region(base);
      bufs := seq(|orig|, i => base + i * bytes);
      for i := 0 to |orig|
        invariant OnlyLocal(old(w.s), w.s) && Gathered(old(w.s), w.s, base, bufs, bytes, |orig| * bytes)
        invariant ScaledData(old(w.s), w.s, orig, bufs, n, ts, scale, i)
      {
        ScaleInto(w, old(w.s), base, orig, bufs, n, ts, bytes, scale, i);
      }
    } else {
      region := NoRegion;
      bufs := PrepareRead(w, orig, n, ts, bytes, true, a => guard && shared(a));
      forall i | 0 <= i < |orig|
        ensures Gather(w.s.local, Cells(bufs[i], n, ts)) == Times(1, Gather(old(w.s.local), Cells(orig[i], n, ts)))
      {
        var g := Gather(old(w.s.local), Cells(orig[i], n, ts));
        assert Times(1, g) == g;
      }
    }
  }

  method ScaleInto(w: Window, ghost s0: State, ghost base: int, orig: seq<int>, bufs: seq<int>, n: nat, ts: nat,
                   bytes: nat, scale: int, i: nat)
    requires i < |orig| == |bufs| && Idle(w.s) && ts > 0 && bytes == n * ts && AllInside(orig, n, ts, s0.local)
    requires Gathered(s0, w.s, base, bufs, bytes, |orig| * bytes) && ScaledData(s0, w.s, orig, bufs, n, ts, scale, i)
    modifies w
    ensures OnlyLocal(old(w.s), w.s) && Gathered(s0, w.s, base, bufs, bytes, |orig| * bytes)
    ensures ScaledData(s0, w.s, orig, bufs, n, ts, scale, i + 1)
  {
    ghost var s, total := w.s, |orig| * bytes;
    SlotInside(base, bufs[i], i, |orig|, n, ts, bytes, total);
    assert Inside(Cells(orig[i], n, ts), s0.local);
    ExtendsGather(s0.local, s.local, Extent(base, total), Cells(orig[i], n, ts));
    AccScale(w, orig[i], bufs[i], n, ts, scale);
    ScaledStep(s0, s, w.s, base, orig, bufs, n, ts, bytes, total, scale, i);
  }

  /** ARMCII_Buf_finish_acc_vec. */
  method FinishAcc(w: Window, ghost s0: State, orig: seq<int>, bufs: seq<int>, region: Region, ghost bytes: nat)
    requires Idle(w.s) && |bufs| == |orig| && PreparedAcc(s0, w.s, orig, bufs, region, bytes)
    modifies w
    ensures w.s == old(w.s).(local := s0.local, blocks := s0.blocks) && Idle(w.s) && View(w.s) == View(old(w.s))
  {
    if region.Region? {
      ExtendsRemove(s0.local, w.s.local, Extent(region.base, |orig| * bytes));
      ExtendsRemove(s0.blocks, w.s.blocks, {region.base});
      w.Free(region.base);
    } else {
      FinishRead(w, s0, orig, bufs, bytes, true);
    }
  }
}
