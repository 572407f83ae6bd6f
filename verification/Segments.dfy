/** The cells of a list of equal segments, first segment first. */
module Segments {
  import opened Memory
  import opened Rma

  ghost function AllCells(ptrs: seq<int>, n: nat, ts: int): seq<int> {
    if ptrs == [] then [] else AllCells(ptrs[..|ptrs| - 1], n, ts) + Cells(ptrs[|ptrs| - 1], n, ts)
  }

  ghost predicate AllInside(ptrs: seq<int>, n: nat, ts: int, m: Mem) {
    forall i :: 0 <= i < |ptrs| ==> Inside(Cells(ptrs[i], n, ts), m)
  }

  lemma {:induction false} AllCellsInside(ptrs: seq<int>, n: nat, ts: int, m: Mem)
    requires AllInside(ptrs, n, ts, m)
    ensures Inside(AllCells(ptrs, n, ts), m)
  {
    if ptrs != [] {
      var k := |ptrs| - 1;
      AllCellsInside(ptrs[..k], n, ts, m);
      assert Inside(Cells(ptrs[k], n, ts), m);
    }
  }

  lemma {:induction false} AllCellsLength(ptrs: seq<int>, more: seq<int>, n: nat, ts: int)
    requires |ptrs| == |more|
    ensures |AllCells(ptrs, n, ts)| == |AllCells(more, n, ts)|
  {
    if ptrs != [] {
      var k := |ptrs| - 1;
      AllCellsLength(ptrs[..k], more[..k], n, ts);
    }
  }

  lemma {:induction false} AllCellsHas(ptrs: seq<int>, n: nat, ts: int, j: nat, i: nat)
    requires j < |ptrs| && i < n
    ensures Cells(ptrs[j], n, ts)[i] in AllCells(ptrs, n, ts)
  {
    var k := |ptrs| - 1;
    if j < k {
      AllCellsHas(ptrs[..k], n, ts, j, i);
    } else {
      assert Cells(ptrs[k], n, ts)[i] in Cells(ptrs[k], n, ts);
    }
  }

  lemma {:induction false} AllCellsFrom(ptrs: seq<int>, n: nat, ts: int, x: int) returns (j: nat)
    requires x in AllCells(ptrs, n, ts)
    ensures j < |ptrs| && x in Cells(ptrs[j], n, ts)
  {
    var k := |ptrs| - 1;
    if x in Cells(ptrs[k], n, ts) {
      j := k;
    } else {
      j := AllCellsFrom(ptrs[..k], n, ts, x);
    }
  }

  lemma {:induction false} DistinctPart(a: seq<int>, b: seq<int>)
    requires Distinct(a + b)
    ensures Distinct(a) && Distinct(b) && forall x :: x in a ==> x !in b
  {
    var c := a + b;
    assert forall i :: 0 <= i < |a| ==> c[i] == a[i];
    assert forall j :: 0 <= j < |b| ==> c[|a| + j] == b[j];
  }

  lemma {:induction false} SegmentsApart(ptrs: seq<int>, n: nat, ts: int, i: nat, j: nat, a: nat, b: nat)
    requires i < j < |ptrs| && a < n && b < n && Distinct(AllCells(ptrs, n, ts))
    ensures Cells(ptrs[i], n, ts)[a] != Cells(ptrs[j], n, ts)[b]
  {
    var k := |ptrs| - 1;
    DistinctPart(AllCells(ptrs[..k], n, ts), Cells(ptrs[k], n, ts));
    if j < k {
      SegmentsApart(ptrs[..k], n, ts, i, j, a, b);
    } else {
      AllCellsHas(ptrs[..k], n, ts, i, a);
      assert Cells(ptrs[k], n, ts)[b] in Cells(ptrs[k], n, ts);
    }
  }

  /** What segment j of the destination holds after a segment-by-segment store. */
  lemma {:induction false} SegmentStored(m: Mem, dst: seq<int>, v: Mem, src: seq<int>, n: nat, ts: int, j: nat)
    requires j < |dst| == |src| && AllInside(dst, n, ts, m) && AllInside(src, n, ts, v)
    requires Distinct(AllCells(dst, n, ts))
    requires Inside(AllCells(dst, n, ts), m) && Inside(AllCells(src, n, ts), v)
    requires |AllCells(dst, n, ts)| == |AllCells(src, n, ts)|
    ensures Gather(Scatter(m, AllCells(dst, n, ts), Gather(v, AllCells(src, n, ts))), Cells(dst[j], n, ts)) ==
            Gather(v, Cells(src[j], n, ts))
  {
    var k := |dst| - 1;
    var d, e, c := AllCells(dst[..k], n, ts), AllCells(src[..k], n, ts), Cells(dst[k], n, ts);
    AllCellsInside(dst[..k], n, ts, m);
    AllCellsInside(src[..k], n, ts, v);
    AllCellsLength(dst[..k], src[..k], n, ts);
    DistinctPart(d, c);
    var p := Scatter(m, d, Gather(v, e));
    GatherConcat(v, e, Cells(src[k], n, ts));
    ScatterConcat(m, d, c, Gather(v, e), Gather(v, Cells(src[k], n, ts)));
    if j == k {
      GatherScattered(p, c, Gather(v, Cells(src[k], n, ts)));
    } else {
      SegmentStored(m, dst[..k], v, src[..k], n, ts, j);
      var last := Scatter(p, c, Gather(v, Cells(src[k], n, ts)));
      forall i | 0 <= i < n ensures last[Cells(dst[j], n, ts)[i]] == p[Cells(dst[j], n, ts)[i]] {
        AllCellsHas(dst[..k], n, ts, j, i);
        ScatterElsewhere(p, c, Gather(v, Cells(src[k], n, ts)), Cells(dst[j], n, ts)[i]);
      }
    }
  }

  /** A memory that holds the source at every segment and is unchanged elsewhere is the one that a
      segment-by-segment store gives. */
  lemma {:induction false} StoredIsScatter(m: Mem, f: Mem, dst: seq<int>, v: Mem, src: seq<int>, n: nat, ts: int)
    requires |dst| == |src| && AllInside(dst, n, ts, m) && AllInside(src, n, ts, v) && Distinct(AllCells(dst, n, ts))
    requires f.Keys == m.Keys
    requires forall j :: 0 <= j < |dst| ==>
               Inside(Cells(dst[j], n, ts), f) && Gather(f, Cells(dst[j], n, ts)) == Gather(v, Cells(src[j], n, ts))
    requires forall x :: x in m && x !in AllCells(dst, n, ts) ==> f[x] == m[x]
    ensures Inside(AllCells(dst, n, ts), m) && Inside(AllCells(src, n, ts), v)
    ensures |AllCells(dst, n, ts)| == |AllCells(src, n, ts)|
    ensures f == Scatter(m, AllCells(dst, n, ts), Gather(v, AllCells(src, n, ts)))
  {
    AllCellsInside(dst, n, ts, m);
    AllCellsInside(src, n, ts, v);
    AllCellsLength(dst, src, n, ts);
    var d, g := AllCells(dst, n, ts), Gather(v, AllCells(src, n, ts));
    var s := Scatter(m, d, g);
    forall x | x in m ensures s[x] == f[x] {
      if x in d {
        var j := AllCellsFrom(dst, n, ts, x);
        var c := Cells(dst[j], n, ts);
        var i :| 0 <= i < n && c[i] == x;
        SegmentStored(m, dst, v, src, n, ts, j);
        assert Gather(s, c)[i] == Gather(f, c)[i];
      } else {
        ScatterElsewhere(m, d, g, x);
      }
    }
  }

  ghost predicate Apart(p: int, q: int, n: nat, ts: int) {
    forall a :: 0 <= a < n ==> Cells(p, n, ts)[a] !in Cells(q, n, ts)
  }

  lemma {:induction false} ApartDistinct(ptrs: seq<int>, n: nat, ts: nat)
    requires ts > 0 && forall i, j :: 0 <= i < j < |ptrs| ==> Apart(ptrs[i], ptrs[j], n, ts)
    ensures Distinct(AllCells(ptrs, n, ts))
  {
    if ptrs != [] {
      var k := |ptrs| - 1;
      ApartDistinct(ptrs[..k], n, ts);
      CellsExtent(ptrs[k], n, ts, n * ts);
      var a, b := AllCells(ptrs[..k], n, ts), Cells(ptrs[k], n, ts);
      forall x | x in a ensures x !in b {
        var i := AllCellsFrom(ptrs[..k], n, ts, x);
        assert Apart(ptrs[i], ptrs[k], n, ts);
      }
      DistinctJoin(a, b);
    }
  }

  lemma {:induction false} DistinctJoin(a: seq<int>, b: seq<int>)
    requires Distinct(a) && Distinct(b) && forall x :: x in a ==> x !in b
    ensures Distinct(a + b)
  {
    var c := a + b;
    forall i, j | 0 <= i < j < |c| ensures c[i] != c[j] {
      if i < |a| && |a| <= j { assert c[i] in a && c[j] == b[j - |a|] && b[j - |a|] in b; }
    }
  }

  lemma {:induction false} ApartOf(ptrs: seq<int>, n: nat, ts: int, i: nat, j: nat)
    requires i < |ptrs| && j < |ptrs| && i != j && Distinct(AllCells(ptrs, n, ts))
    ensures Apart(ptrs[i], ptrs[j], n, ts)
  {
    forall a, b | 0 <= a < n && 0 <= b < n ensures Cells(ptrs[i], n, ts)[a] != Cells(ptrs[j], n, ts)[b] {
      if i < j { SegmentsApart(ptrs, n, ts, i, j, a, b); } else { SegmentsApart(ptrs, n, ts, j, i, b, a); }
    }
  }
}
