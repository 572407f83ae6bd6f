/** How far a vector operation has come: which cells have been issued, whatever has been flushed or
    delivered meanwhile. */
module Progress {
  import opened Memory
  import opened Rma
  import opened Segments

  /** Every pending update was pending before or is one of the operation's own. */
  ghost predicate From(p: seq<Update>, p0: seq<Update>, op: Op, rs: seq<int>) {
    forall i :: 0 <= i < |p| ==> p[i] in p0 || (p[i].addr in rs && (p[i].Add? <==> op == ACC))
  }

  /** s is s0 after values were put or added to the cells rs, in that order. */
  ghost predicate Updated(s0: State, s: State, op: Op, rs: seq<int>, values: seq<int>) {
    && Valid(s0) && Valid(s) && |rs| == |values| && op != GET && Inside(rs, s0.target)
    && s.target.Keys == s0.target.Keys
    && View(s) == ApplyAll(View(s0), Updates(op, rs, values)) && From(Pending(s), Pending(s0), op, rs)
    && s.local == s0.local && s.blocks == s0.blocks && (s.locs == [] || s.op == op)
  }

  /** s is s0 after the cells rs were read into the cells ls, in that order. */
  ghost predicate Fetched(s0: State, s: State, ls: seq<int>, rs: seq<int>) {
    && Valid(s0) && Valid(s) && |rs| == |ls| && Inside(rs, s0.target) && Inside(ls, s0.local)
    && s.target.Keys == s0.target.Keys
    && s.local.Keys == s0.local.Keys && View(s) == View(s0) && From(Pending(s), Pending(s0), GET, [])
    && LocalView(s) == Scatter(LocalView(s0), ls, Gather(View(s0), rs)) && s.blocks == s0.blocks
    && (s.locs == [] || s.op == GET) && |s.locs| <= |ls| && s.locs == ls[|ls| - |s.locs|..]
  }

  lemma {:induction false} UpdatedStart(s: State, op: Op)
    requires Idle(s) && op != GET
    ensures Updated(s, s, op, [], [])
  {
    assert Updates(op, [], []) == [];
  }

  lemma {:induction false} FetchedStart(s: State)
    requires Idle(s)
    ensures Fetched(s, s, [], [])
  {
  }

  /** An operation that was clear of everything outstanding is clear of its own beginning, too. */
  lemma {:induction false} StillClear(p: seq<Update>, p0: seq<Update>, op: Op, ls: seq<int>, l: seq<int>,
                                      rs: seq<int>, r: seq<int>)
    requires Clear(op, p0, ls + l, rs + r) && From(p, p0, op, if op == GET then [] else rs)
    ensures Clear(op, p, l, r)
  {
    DistinctTail(op, ls, l, rs, r);
    forall i, j | 0 <= i < |p| && 0 <= j < |r| && p[i].addr == r[j] ensures op == ACC && p[i].Add? {
      assert (rs + r)[|rs| + j] == r[j];
      if p[i] in p0 {
        var k :| 0 <= k < |p0| && p0[k] == p[i];
      } else {
        assert p[i].addr in rs;
        assert r[j] in r;
      }
    }
  }

  lemma {:induction false} DistinctTail(op: Op, ls: seq<int>, l: seq<int>, rs: seq<int>, r: seq<int>)
    requires (op == PUT ==> Distinct(rs + r)) && (op == GET ==> Distinct(ls + l))
    ensures op == PUT ==> Distinct(r) && forall x :: x in rs ==> x !in r
    ensures op == GET ==> Distinct(l)
  {
    if op == PUT { DistinctPart(rs, r); }
    if op == GET { DistinctPart(ls, l); }
  }

  lemma {:induction false} UpdatedIssue(s0: State, s: State, op: Op, rs: seq<int>, values: seq<int>, l: seq<int>,
                                        r: seq<int>)
    requires Updated(s0, s, op, rs, values) && |l| == |r| && Inside(l, s.local) && Inside(r, s.target)
    requires Clear(op, Pending(s0), [], rs + r) && (op == ACC ==> Distinct(r))
    ensures CanIssue(s, op, l, r) && Updated(s0, Issued(s, op, l, r), op, rs + r, values + Gather(s.local, l))
  {
    var now := Updates(op, r, Gather(s.local, l));
    var p0, p := Pending(s0), Pending(s);
    StillClear(p, p0, op, [], [], rs, r);
    IssueUpdate(s, op, l, r);
    UpdatesConcat(op, rs, r, values, Gather(s.local, l));
    ApplyConcat(View(s0), Updates(op, rs, values), now);
    FromMore(p, p0, op, rs, r, Gather(s.local, l));
  }

  lemma {:induction false} FromMore(p: seq<Update>, p0: seq<Update>, op: Op, rs: seq<int>, r: seq<int>,
                                    values: seq<int>)
    requires From(p, p0, op, rs) && |r| == |values| && op != GET
    ensures From(p + Updates(op, r, values), p0, op, rs + r)
  {
    var us, all := p + Updates(op, r, values), rs + r;
    forall i | 0 <= i < |us| ensures us[i] in p0 || (us[i].addr in all && (us[i].Add? <==> op == ACC)) {
      if i < |p| {
        assert us[i] == p[i];
      } else {
        assert us[i] == Carry(op, r[i - |p|], values[i - |p|]);
        assert all[|rs| + i - |p|] == r[i - |p|];
      }
    }
  }

  /** Cells that nothing pending touches are read as they will be. */
  lemma {:induction false} Settled(s: State, r: seq<int>)
    requires Formed(s) && Inside(r, s.target)
    requires forall i, j :: 0 <= i < |Pending(s)| && 0 <= j < |r| ==> Pending(s)[i].addr != r[j]
    ensures Gather(View(s), r) == Gather(s.target, r)
  {
    forall j | 0 <= j < |r| ensures View(s)[r[j]] == s.target[r[j]] {
      ApplyElsewhere(s.target, Pending(s), r[j]);
    }
  }

  lemma {:induction false} DistinctSuffix(ls: seq<int>, k: nat, l: seq<int>)
    requires k <= |ls| && Distinct(ls + l)
    ensures Distinct(ls[k..] + l)
  {
    assert ls + l == ls[..k] + (ls[k..] + l);
    DistinctPart(ls[..k], ls[k..] + l);
  }

  lemma {:induction false} FetchedCanIssue(s0: State, s: State, ls: seq<int>, rs: seq<int>, l: seq<int>, r: seq<int>)
    requires Fetched(s0, s, ls, rs) && |l| == |r| && Inside(l, s.local) && Inside(r, s.target)
    requires Clear(GET, Pending(s0), ls + l, rs + r)
    ensures CanIssue(s, GET, l, r) && Gather(s.target, r) == Gather(View(s0), r)
  {
    StillClear(Pending(s), Pending(s0), GET, ls, l, rs, r);
    DistinctSuffix(ls, |ls| - |s.locs|, l);
    Settled(s, r);
  }

  lemma {:induction false} FetchedIssue(s0: State, s: State, ls: seq<int>, rs: seq<int>, l: seq<int>, r: seq<int>)
    requires Fetched(s0, s, ls, rs) && |l| == |r| && Inside(l, s.local) && Inside(r, s.target)
    requires Clear(GET, Pending(s0), ls + l, rs + r)
    ensures CanIssue(s, GET, l, r) && Fetched(s0, Issued(s, GET, l, r), ls + l, rs + r)
  {
    FetchedCanIssue(s0, s, ls, rs, l, r);
    IssueRead(s, l, r);
    GatherConcat(View(s0), rs, r);
    ScatterConcat(LocalView(s0), ls, l, Gather(View(s0), rs), Gather(View(s0), r));
    SuffixConcat(ls, s.locs, l);
  }

  lemma {:induction false} SuffixConcat(ls: seq<int>, locs: seq<int>, l: seq<int>)
    requires |locs| <= |ls| && locs == ls[|ls| - |locs|..]
    ensures locs + l == (ls + l)[|ls + l| - |locs + l|..]
  {
  }

  /** gmr_flush: locally, or with end_to_end_flush also remotely. */
  method FlushRegion(w: Window, localOnly: bool, endToEnd: bool)
    requires Valid(w.s)
    modifies w
    ensures Idle(w.s) && View(w.s) == View(old(w.s)) && w.s.local == LocalView(old(w.s))
    ensures w.s.blocks == old(w.s.blocks)
    ensures Pending(w.s) == Pending(old(w.s)) || Pending(w.s) == []
    ensures w.s.target.Keys == old(w.s.target.Keys)
    ensures !localOnly || endToEnd ==> w.s.sent == [] && w.s.target == View(old(w.s))
  {
    FlushLocalKeeps(w.s);
    if !localOnly || endToEnd { w.Flush(); } else { w.FlushLocal(); }
  }

  lemma {:induction false} UpdatedFlush(s0: State, s: State, t: State, op: Op, rs: seq<int>, values: seq<int>)
    requires Updated(s0, s, op, rs, values) && Idle(t) && View(t) == View(s) && t.local == LocalView(s)
    requires t.blocks == s.blocks
    requires (Pending(t) == Pending(s) || Pending(t) == []) && t.target.Keys == s.target.Keys
    ensures Updated(s0, t, op, rs, values)
  {
  }

  lemma {:induction false} FetchedFlush(s0: State, s: State, t: State, ls: seq<int>, rs: seq<int>)
    requires Fetched(s0, s, ls, rs) && Idle(t) && View(t) == View(s) && t.local == LocalView(s) && t.blocks == s.blocks
    requires (Pending(t) == Pending(s) || Pending(t) == []) && t.target.Keys == s.target.Keys
    ensures Fetched(s0, t, ls, rs)
  {
  }

  /** One operation after another. */
  lemma {:induction false} UpdatedTwice(s0: State, s1: State, s2: State, op: Op, r1: seq<int>, v1: seq<int>,
                                        r2: seq<int>, v2: seq<int>)
    requires Updated(s0, s1, op, r1, v1) && Updated(s1, s2, op, r2, v2)
    ensures Updated(s0, s2, op, r1 + r2, v1 + v2)
  {
    UpdatesConcat(op, r1, r2, v1, v2);
    ApplyConcat(View(s0), Updates(op, r1, v1), Updates(op, r2, v2));
    FromBoth(Pending(s2), Pending(s1), Pending(s0), op, r1, r2);
  }

  lemma {:induction false} FromBoth(p: seq<Update>, p1: seq<Update>, p0: seq<Update>, op: Op, r1: seq<int>,
                                    r2: seq<int>)
    requires From(p, p1, op, r2) && From(p1, p0, op, r1)
    ensures From(p, p0, op, r1 + r2)
  {
    forall i | 0 <= i < |p| ensures p[i] in p0 || (p[i].addr in r1 + r2 && (p[i].Add? <==> op == ACC)) {
      if p[i] in p1 {
        var k :| 0 <= k < |p1| && p1[k] == p[i];
      }
    }
  }

  lemma {:induction false} FetchedTwice(s0: State, s1: State, s2: State, l1: seq<int>, r1: seq<int>, l2: seq<int>,
                                        r2: seq<int>)
    requires Fetched(s0, s1, l1, r1) && Fetched(s1, s2, l2, r2) && Idle(s0) && Idle(s1) && Idle(s2)
    ensures Fetched(s0, s2, l1 + l2, r1 + r2)
  {
    GatherConcat(View(s0), r1, r2);
    ScatterConcat(s0.local, l1, l2, Gather(View(s0), r1), Gather(View(s0), r2));
    FromTwice(Pending(s2), Pending(s1), Pending(s0));
    var ls := l1 + l2;
    assert ls[|ls|..] == [];
    assert s2.locs == [] && LocalView(s2) == s2.local && LocalView(s1) == s1.local && LocalView(s0) == s0.local;
  }

  lemma {:induction false} FromTwice(p: seq<Update>, p1: seq<Update>, p0: seq<Update>)
    requires From(p, p1, GET, []) && From(p1, p0, GET, [])
    ensures From(p, p0, GET, [])
  {
    forall i | 0 <= i < |p| ensures p[i] in p0 {
      var k :| 0 <= k < |p1| && p1[k] == p[i];
    }
  }

  /** Puts of values are stores, one after the other. */
  lemma {:induction false} PutsAreStores(m: Mem, a: seq<int>, v: seq<int>)
    requires |a| == |v| && Inside(a, m)
    ensures ApplyAll(m, Updates(PUT, a, v)) == Scatter(m, a, v)
  {
    if a != [] {
      var n, us := |a| - 1, Updates(PUT, a, v);
      PutsAreStores(m, a[..n], v[..n]);
      assert us[..n] == Updates(PUT, a[..n], v[..n]) && us[n] == Write(a[n], v[n]);
    } else {
      assert Updates(PUT, a, v) == [];
    }
  }

  /** Add values to cells, one after the other. */
  ghost function AddInto(m: Mem, a: seq<int>, v: seq<int>): (r: Mem)
    requires |a| == |v| && Inside(a, m)
    ensures r.Keys == m.Keys
  {
    if a == [] then m
    else
      var n := |a| - 1;
      var before := AddInto(m, a[..n], v[..n]);
      before[a[n] := before[a[n]] + v[n]]
  }

  lemma {:induction false} AccumulatesAreAdds(m: Mem, a: seq<int>, v: seq<int>)
    requires |a| == |v| && Inside(a, m)
    ensures ApplyAll(m, Updates(ACC, a, v)) == AddInto(m, a, v)
  {
    if a != [] {
      var n, us := |a| - 1, Updates(ACC, a, v);
      AccumulatesAreAdds(m, a[..n], v[..n]);
      assert us[..n] == Updates(ACC, a[..n], v[..n]) && us[n] == Add(a[n], v[n]);
    } else {
      assert Updates(ACC, a, v) == [];
    }
  }
}
