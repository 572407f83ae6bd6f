/** One origin process and one target window: what gmr_put, gmr_get, gmr_accumulate and gmr_flush
    (src/gmr.c) ask of MPI, with the origin's memory and its temporary buffers. */
module Rma {
  import opened Memory

  datatype Op = PUT | GET | ACC

  /** One cell on its way to the target. */
  function Carry(op: Op, addr: int, value: int): Update { if op == PUT then Write(addr, value) else Add(addr, value) }

  /** The updates that carry the given values to the given target cells. */
  ghost function Updates(op: Op, rems: seq<int>, values: seq<int>): (us: seq<Update>)
    requires |rems| == |values| && op != GET
    ensures |us| == |rems| && forall i :: 0 <= i < |us| ==> us[i] == Carry(op, rems[i], values[i])
  {
    seq(|rems|, i requires 0 <= i < |rems| => Carry(op, rems[i], values[i]))
  }

  lemma {:induction false} UpdatesConcat(op: Op, a: seq<int>, b: seq<int>, v: seq<int>, w: seq<int>)
    requires |a| == |v| && |b| == |w| && op != GET
    ensures Updates(op, a + b, v + w) == Updates(op, a, v) + Updates(op, b, w)
  {
  }

  lemma {:induction false} GatherConcat(m: Mem, a: seq<int>, b: seq<int>)
    requires Inside(a, m) && Inside(b, m)
    ensures Inside(a + b, m) && Gather(m, a + b) == Gather(m, a) + Gather(m, b)
  {
  }

  /** An operation on these cells conflicts with nothing that is outstanding. */
  ghost predicate Clear(op: Op, pending: seq<Update>, locs: seq<int>, rems: seq<int>) {
    && (op == PUT ==> Distinct(rems))
    && (op == GET ==> Distinct(locs))
    && (forall i, j :: 0 <= i < |pending| && 0 <= j < |rems| && pending[i].addr == rems[j] ==>
          op == ACC && pending[i].Add?)
  }

  lemma {:induction false} ClearIsCompatible(op: Op, pending: seq<Update>, locs: seq<int>, rems: seq<int>,
                                             values: seq<int>)
    requires |rems| == |values| && op != GET && Clear(op, pending, locs, rems) && Compatible(pending)
    ensures Compatible(pending + Updates(op, rems, values))
  {
    var us, n := pending + Updates(op, rems, values), |pending|;
    forall i, j | 0 <= i < j < |us| ensures Commute(us[i], us[j]) {
      if j >= n {
        assert us[j].addr == rems[j - n];
        if i < n { assert us[i] == pending[i]; } else { assert us[i].addr == rems[i - n]; }
      } else {
        assert us[i] == pending[i] && us[j] == pending[j];
      }
    }
  }

  function Extent(base: int, bytes: nat): (e: set<int>)
    ensures forall a :: a in e <==> base <= a < base + bytes
  {
    if bytes == 0 then {} else Extent(base, bytes - 1) + {base + bytes - 1}
  }

  /** The origin's memory, its live temporaries (base and size in bytes), the target's window, the
      updates that are locally complete and not yet delivered, and the operation in flight with its
      origin and target cells. */
  datatype State = State(local: Mem, blocks: map<int, nat>, target: Mem, sent: seq<Update>,
                         op: Op, locs: seq<int>, rems: seq<int>)

  ghost predicate Formed(s: State) {
    && |s.locs| == |s.rems| && Inside(s.locs, s.local) && Inside(s.rems, s.target) && Fits(s.sent, s.target)
    && (s.op == GET ==> Clear(GET, s.sent, s.locs, s.rems))
  }

  /** Updates that have not reached the target. */
  ghost function Pending(s: State): (us: seq<Update>)
    requires Formed(s)
    ensures Fits(us, s.target)
  {
    if s.op == GET || s.locs == [] then s.sent else s.sent + Updates(s.op, s.rems, Gather(s.local, s.locs))
  }

  ghost predicate Valid(s: State) { Formed(s) && Compatible(Pending(s)) }

  /** The target once everything issued so far has been delivered. */
  ghost function View(s: State): (m: Mem)
    requires Formed(s)
    ensures m.Keys == s.target.Keys
  {
    ApplyAll(s.target, Pending(s))
  }

  /** The origin once everything issued so far has completed. */
  ghost function LocalView(s: State): (m: Mem)
    requires Formed(s)
    ensures m.Keys == s.local.Keys
  {
    if s.op == GET then Scatter(s.local, s.locs, Gather(s.target, s.rems)) else s.local
  }

  ghost predicate Idle(s: State) { Valid(s) && s.locs == [] }

  // ----- Issuing and completing operations

  /** What MPI asks of one operation: cells inside both memories, no conflict with anything outstanding,
      and no target cell named twice. */
  ghost predicate CanIssue(s: State, op: Op, ls: seq<int>, rs: seq<int>) {
    && Valid(s) && |ls| == |rs| && Inside(ls, s.local) && Inside(rs, s.target)
    && (s.locs == [] || s.op == op) && Clear(op, Pending(s), ls, rs) && (op == GET ==> Distinct(s.locs + ls))
    && (op == ACC ==> Distinct(rs))
  }

  function Issued(s: State, op: Op, ls: seq<int>, rs: seq<int>): State {
    s.(op := op, locs := s.locs + ls, rems := s.rems + rs)
  }

  lemma {:induction false} IssueUpdate(s: State, op: Op, ls: seq<int>, rs: seq<int>)
    requires CanIssue(s, op, ls, rs) && op != GET
    ensures Valid(Issued(s, op, ls, rs)) && LocalView(Issued(s, op, ls, rs)) == LocalView(s)
    ensures Pending(Issued(s, op, ls, rs)) == Pending(s) + Updates(op, rs, Gather(s.local, ls))
    ensures View(Issued(s, op, ls, rs)) == ApplyAll(View(s), Updates(op, rs, Gather(s.local, ls)))
  {
    var now := Updates(op, rs, Gather(s.local, ls));
    IssuePending(s, op, ls, rs);
    ClearIsCompatible(op, Pending(s), ls, rs, Gather(s.local, ls));
    ApplyConcat(s.target, Pending(s), now);
    UpdateLeavesLocal(s, op, ls, rs);
  }

  lemma {:induction false} UpdateLeavesLocal(s: State, op: Op, ls: seq<int>, rs: seq<int>)
    requires CanIssue(s, op, ls, rs) && op != GET && Formed(Issued(s, op, ls, rs))
    ensures LocalView(Issued(s, op, ls, rs)) == LocalView(s)
  {
    if s.locs == [] { assert Scatter(s.local, s.locs, Gather(s.target, s.rems)) == s.local; }
  }

  lemma {:induction false} IssuePending(s: State, op: Op, ls: seq<int>, rs: seq<int>)
    requires CanIssue(s, op, ls, rs) && op != GET
    ensures Formed(Issued(s, op, ls, rs))
    ensures Pending(Issued(s, op, ls, rs)) == Pending(s) + Updates(op, rs, Gather(s.local, ls))
  {
    var t, before := Issued(s, op, ls, rs), Updates(op, s.rems, Gather(s.local, s.locs));
    var now := Updates(op, rs, Gather(s.local, ls));
    GatherConcat(s.local, s.locs, ls);
    assert Formed(t);
    UpdatesConcat(op, s.rems, rs, Gather(s.local, s.locs), Gather(s.local, ls));
    assert Updates(op, t.rems, Gather(t.local, t.locs)) == before + now;
    PendingAs(s, op);
    PendingAs(t, op);
    assert (s.sent + before) + now == s.sent + (before + now);
  }

  lemma {:induction false} PendingAs(s: State, op: Op)
    requires Formed(s) && op != GET && (s.locs == [] || s.op == op)
    ensures Pending(s) == s.sent + Updates(op, s.rems, Gather(s.local, s.locs))
  {
    if s.locs == [] { assert Updates(op, s.rems, Gather(s.local, s.locs)) == []; }
  }

  lemma {:induction false} IssueRead(s: State, ls: seq<int>, rs: seq<int>)
    requires CanIssue(s, GET, ls, rs)
    ensures Valid(Issued(s, GET, ls, rs)) && Pending(Issued(s, GET, ls, rs)) == Pending(s)
    ensures View(Issued(s, GET, ls, rs)) == View(s)
    ensures LocalView(Issued(s, GET, ls, rs)) == Scatter(LocalView(s), ls, Gather(s.target, rs))
  {
    var t := Issued(s, GET, ls, rs);
    assert Clear(GET, s.sent, t.locs, t.rems);
    GatherConcat(s.target, s.rems, rs);
    ScatterConcat(s.local, s.locs, ls, Gather(s.target, s.rems), Gather(s.target, rs));
  }

  /** MPI_Win_flush_local: origin buffers may be reused, updates may still be under way. */
  ghost function FlushedLocal(s: State): State
    requires Formed(s)
  {
    s.(local := LocalView(s), sent := Pending(s), locs := [], rems := [])
  }

  lemma {:induction false} FlushLocalKeeps(s: State)
    requires Valid(s)
    ensures Idle(FlushedLocal(s)) && View(FlushedLocal(s)) == View(s) && Pending(FlushedLocal(s)) == Pending(s)
    ensures LocalView(FlushedLocal(s)) == LocalView(s)
  {
  }

  // ----- The origin's memory

  lemma {:induction false} LocalChange(s: State, local: Mem, blocks: map<int, nat>)
    requires Idle(s)
    ensures Idle(s.(local := local, blocks := blocks)) && View(s.(local := local, blocks := blocks)) == View(s)
  {
  }

  /** n cells of ts bytes from p on. */
  function Cells(p: int, n: nat, ts: int): (a: seq<int>)
    ensures |a| == n && forall j :: 0 <= j < n ==> a[j] == p + j * ts
  {
    seq(n, j => p + j * ts)
  }

  lemma {:induction false} CellsExtent(p: int, n: nat, ts: nat, bytes: nat)
    requires ts > 0 && bytes == n * ts
    ensures forall j :: 0 <= j < n ==> Cells(p, n, ts)[j] in Extent(p, bytes)
    ensures Distinct(Cells(p, n, ts))
  {
    var c := Cells(p, n, ts);
    forall j | 0 <= j < n ensures c[j] in Extent(p, bytes) { TimesApart(j, n, ts); }
    forall i, j | 0 <= i < j < n ensures c[i] != c[j] { TimesApart(i, j, ts); }
  }

  lemma {:induction false} TimesApart(i: nat, j: nat, ts: nat)
    requires i < j && ts > 0
    ensures 0 <= i * ts && i * ts + ts <= j * ts
  {
    assert j * ts == (j - 1) * ts + ts;
    if i + 1 < j { TimesApart(i, j - 1, ts); }
  }

  lemma {:induction false} DistinctCells(p: int, n: nat, ts: nat)
    requires ts > 0
    ensures Distinct(Cells(p, n, ts))
  {
    CellsExtent(p, n, ts, n * ts);
  }

  /** ARMCI_Copy between two places of the origin. */
  function Copied(s: State, src: int, dst: int, n: nat, ts: int): State
    requires Inside(Cells(src, n, ts), s.local) && Inside(Cells(dst, n, ts), s.local)
  {
    s.(local := Scatter(s.local, Cells(dst, n, ts), Gather(s.local, Cells(src, n, ts))))
  }

  method Room(taken: set<int>) returns (base: int)
    ensures base > 0 && forall a :: a in taken ==> a < base
  {
    base := 1;
    var left := taken;
    while exists a :: a in left
      invariant left <= taken && base > 0
      invariant forall a :: a in taken && a !in left ==> a < base
      decreases left
    {
      var a :| a in left;
      left := left - {a};
      if a >= base { base := a + 1; }
    }
  }

  class Window {
    var s: State

    constructor (local: Mem, target: Mem)
      ensures s == State(local, map[], target, [], PUT, [], []) && Idle(s) && View(s) == target
    {
      s := State(local, map[], target, [], PUT, [], []);
    }

    method Issue(op: Op, ls: seq<int>, rs: seq<int>)
      requires CanIssue(s, op, ls, rs)
      modifies this
      ensures s == Issued(old(s), op, ls, rs) && Valid(s)
      ensures op != GET ==> View(s) == ApplyAll(View(old(s)), Updates(op, rs, Gather(s.local, ls)))
      ensures op == GET ==> LocalView(s) == Scatter(LocalView(old(s)), ls, Gather(s.target, rs))
      ensures op == GET ==> View(s) == View(old(s))
    {
      if op == GET { IssueRead(s, ls, rs); } else { IssueUpdate(s, op, ls, rs); }
      s := Issued(s, op, ls, rs);
    }

    method FlushLocal()
      requires Valid(s)
      modifies this
      ensures s == FlushedLocal(old(s)) && Idle(s) && View(s) == View(old(s)) && LocalView(s) == LocalView(old(s))
    {
      FlushLocalKeeps(s);
      var local := if s.op == GET then Scatter(s.local, s.locs, Gather(s.target, s.rems)) else s.local;
      var sent := s.sent;
      for i := 0 to |s.locs|
        invariant s == old(s)
        invariant s.op == GET ==> sent == s.sent
        invariant s.op != GET ==> sent == s.sent + Updates(s.op, s.rems, Gather(s.local, s.locs))[..i]
      {
        if s.op != GET { sent := sent + [Carry(s.op, s.rems[i], s.local[s.locs[i]])]; }
      }
      s := s.(local := local, sent := sent, locs := [], rems := []);
    }

    /** MPI_Alloc_mem. */
    method Alloc(bytes: nat) returns (base: int)
      requires Idle(s)
      modifies this
      ensures s == old(s).(local := s.local, blocks := old(s.blocks)[base := bytes]) && Idle(s)
      ensures View(s) == View(old(s))
      ensures Extends(old(s.local), s.local, Extent(base, bytes)) && Extends(old(s.blocks), s.blocks, {base})
    {
      base := Room(s.local.Keys + s.blocks.Keys);
      var block := map a | a in Extent(base, bytes) :: 0;
      LocalChange(s, s.local + block, s.blocks[base := bytes]);
      s := s.(local := s.local + block, blocks := s.blocks[base := bytes]);
    }

    /** MPI_Free_mem: once, of a live block, with nothing in flight that could still read it. */
    method Free(base: int)
      requires Idle(s) && base in s.blocks
      modifies this
      ensures s == old(s).(local := old(s.local) - Extent(base, old(s.blocks)[base]), blocks := old(s.blocks) - {base})
      ensures Idle(s) && View(s) == View(old(s))
    {
      var cells := Extent(base, s.blocks[base]);
      LocalChange(s, s.local - cells, s.blocks - {base});
      s := s.(local := s.local - cells, blocks := s.blocks - {base});
    }

    method Copy(src: int, dst: int, n: nat, ts: int)
      requires Idle(s) && Inside(Cells(src, n, ts), s.local) && Inside(Cells(dst, n, ts), s.local)
      modifies this
      ensures s == Copied(old(s), src, dst, n, ts) && Idle(s) && View(s) == View(old(s))
    {
      LocalChange(s, Copied(s, src, dst, n, ts).local, s.blocks);
      s := Copied(s, src, dst, n, ts);
    }

    method Store(addr: int, value: int)
      requires Idle(s) && addr in s.local
      modifies this
      ensures s == old(s).(local := old(s.local)[addr := value]) && Idle(s) && View(s) == View(old(s))
    {
      LocalChange(s, s.local[addr := value], s.blocks);
      s := s.(local := s.local[addr := value]);
    }

    /** MPI_Win_flush: everything under way is delivered, in an order nobody chooses. */
    method Flush()
      requires Valid(s)
      modifies this
      ensures Idle(s) && s.sent == [] && s.target == View(old(s)) && s.local == LocalView(old(s))
      ensures s.blocks == old(s.blocks)
      ensures View(s) == s.target
    {
      FlushLocal();
      while s.sent != []
        invariant Idle(s) && View(s) == View(old(s)) && s.local == LocalView(old(s)) && s.blocks == old(s.blocks)
        decreases |s.sent|
      {
        var i: nat :| i < |s.sent|;
        DeliverOne(s, i);
        s := Delivered(s, i);
      }
    }
  }

  function Delivered(s: State, i: nat): State
    requires i < |s.sent| && s.sent[i].addr in s.target
  {
    s.(target := Apply(s.target, s.sent[i]), sent := Without(s.sent, i))
  }

  lemma {:induction false} DeliverOne(s: State, i: nat)
    requires Idle(s) && i < |s.sent|
    ensures Idle(Delivered(s, i)) && View(Delivered(s, i)) == View(s)
  {
    DeliverAny(s.target, s.sent, i);
  }
}
