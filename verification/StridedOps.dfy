/** Packing, PARMCI_PutS and PARMCI_GetS (src/strided.c): the subarray and the I/O vector branch move
    the same bytes. */
module StridedOps {
  import opened Memory
  import opened Rma
  import opened Segments
  import opened Progress
  import Buffers
  import opened IoVector
  import opened VectorChecks
  import opened VectorOps
  import opened Strided
  import opened StridedLayout
  import opened StridedDatatype

  /** The addresses a strided description names, in order. */
  ghost function Addresses(base: int, strides: seq<int>, count: seq<int>): seq<int>
    requires |count| == |strides| + 1 && Positive(count)
  {
    Shift(Offsets(strides, count, |strides|), base)
  }

  lemma {:induction false} SegmentCells(ptrs: seq<int>, base: int, strides: seq<int>, c: seq<int>, bytes: nat)
    requires |strides| == |c| && Positive(c)
    requires forall k :: 0 <= k < |ptrs| ==> ptrs[k] == base + Displacement(strides, c, k)
    ensures AllCells(ptrs, bytes, 1) == Shift(SegmentBytes(strides, c, bytes, |ptrs|), base)
  {
    if ptrs != [] {
      var k := |ptrs| - 1;
      SegmentCells(ptrs[..k], base, strides, c, bytes);
      var d := Displacement(strides, c, k);
      ShiftConcat(SegmentBytes(strides, c, bytes, k), Shift(Range(bytes), d), base);
      ShiftTwice(Range(bytes), d, base);
      assert Cells(ptrs[k], bytes, 1) == Shift(Range(bytes), d + base);
    }
  }

  /** The I/O vector names the addresses of the strided description. */
  lemma {:induction false} VectorAddresses(ptrs: seq<int>, base: int, strides: seq<int>, count: seq<int>)
    requires |count| == |strides| + 1 && Positive(count) && |ptrs| == Product(count[1..])
    requires forall k :: 0 <= k < |ptrs| ==> ptrs[k] == base + Displacement(strides, count[1..], k)
    ensures AllCells(ptrs, count[0], 1) == Addresses(base, strides, count)
  {
    SegmentCells(ptrs, base, strides, count[1..], count[0]);
    SegmentsAreNestedLoops(strides, count);
  }

  /** Consecutive segments are one. */
  lemma {:induction false} ConsecutiveCells(ptrs: seq<int>, base: int, n: nat, total: nat)
    requires total == |ptrs| * n && forall i :: 0 <= i < |ptrs| ==> ptrs[i] == base + i * n
    ensures AllCells(ptrs, n, 1) == Cells(base, total, 1)
  {
    if ptrs != [] {
      var k := |ptrs| - 1;
      var before := k * n;
      assert before >= 0 && total == before + n;
      ConsecutiveCells(ptrs[..k], base, n, before);
      assert Cells(base, total, 1) == Cells(base, before, 1) + Cells(base + before, n, 1);
    }
  }

  ghost predicate Separate(a: seq<int>, b: seq<int>) { forall x :: x in a ==> x !in b }

  /** The copy loop of armci_write_strided and armci_read_strided. */
  method CopySegments(w: Window, src: seq<int>, dst: seq<int>, n: nat)
    requires Idle(w.s) && |src| == |dst| && AllInside(src, n, 1, w.s.local) && AllInside(dst, n, 1, w.s.local)
    requires Separate(AllCells(src, n, 1), AllCells(dst, n, 1))
    modifies w
    ensures Inside(AllCells(src, n, 1), old(w.s.local)) && Inside(AllCells(dst, n, 1), old(w.s.local))
    ensures |AllCells(src, n, 1)| == |AllCells(dst, n, 1)| && Buffers.OnlyLocal(old(w.s), w.s)
    ensures w.s.blocks == old(w.s.blocks)
    ensures w.s.local == Scatter(old(w.s.local), AllCells(dst, n, 1), Gather(old(w.s.local), AllCells(src, n, 1)))
  {
    ghost var m := w.s.local;
    AllCellsInside(src, n, 1, m);
    AllCellsInside(dst, n, 1, m);
    AllCellsLength(src, dst, n, 1);
    for i := 0 to |src|
      invariant CopiedSoFar(old(w.s), w.s, src, dst, n, i)
    {
      CopyNext(old(w.s), w.s, src, dst, n, i);
      w.Copy(src[i], dst[i], n, 1);
    }
    assert src[..|src|] == src && dst[..|dst|] == dst;
  }

  ghost predicate CopiedSoFar(s0: State, s: State, src: seq<int>, dst: seq<int>, n: nat, i: nat)
    requires i <= |src| == |dst| && Formed(s0)
  {
    var a, b := AllCells(src[..i], n, 1), AllCells(dst[..i], n, 1);
    && Inside(a, s0.local) && Inside(b, s0.local) && |a| == |b| && Buffers.OnlyLocal(s0, s) && s.blocks == s0.blocks
    && s.local == Scatter(s0.local, b, Gather(s0.local, a))
  }

  lemma {:induction false} CopyNext(s0: State, s: State, src: seq<int>, dst: seq<int>, n: nat, i: nat)
    requires i < |src| == |dst| && Idle(s0) && CopiedSoFar(s0, s, src, dst, n, i)
    requires AllInside(src, n, 1, s0.local) && AllInside(dst, n, 1, s0.local)
    requires Separate(AllCells(src, n, 1), AllCells(dst, n, 1))
    ensures Inside(Cells(src[i], n, 1), s.local) && Inside(Cells(dst[i], n, 1), s.local)
    ensures CopiedSoFar(s0, Copied(s, src[i], dst[i], n, 1), src, dst, n, i + 1)
  {
    var a, b := AllCells(src[..i], n, 1), AllCells(dst[..i], n, 1);
    var c, d := Cells(src[i], n, 1), Cells(dst[i], n, 1);
    assert Inside(c, s0.local) && Inside(d, s0.local);
    assert src[..i + 1][..i] == src[..i] && dst[..i + 1][..i] == dst[..i];
    assert AllCells(src[..i + 1], n, 1) == a + c && AllCells(dst[..i + 1], n, 1) == b + d;
    SourceKept(s0.local, src, dst, n, i, Gather(s0.local, a));
    GatherConcat(s0.local, a, c);
    ScatterConcat(s0.local, b, d, Gather(s0.local, a), Gather(s0.local, c));
    LocalChange(s, Copied(s, src[i], dst[i], n, 1).local, s.blocks);
  }

  lemma {:induction false} SourceKept(m: Mem, src: seq<int>, dst: seq<int>, n: nat, i: nat, v: seq<int>)
    requires i < |src| == |dst| && Inside(Cells(src[i], n, 1), m) && Separate(AllCells(src, n, 1), AllCells(dst, n, 1))
    requires Inside(AllCells(dst[..i], n, 1), m) && |v| == |AllCells(dst[..i], n, 1)|
    ensures Gather(Scatter(m, AllCells(dst[..i], n, 1), v), Cells(src[i], n, 1)) == Gather(m, Cells(src[i], n, 1))
  {
    var b, c := AllCells(dst[..i], n, 1), Cells(src[i], n, 1);
    PrefixCells(dst, n, 1, i, |dst|);
    forall j | 0 <= j < n ensures Scatter(m, b, v)[c[j]] == m[c[j]] {
      AllCellsHas(src, n, 1, i, j);
      assert c[j] !in AllCells(dst, n, 1);
      ScatterElsewhere(m, b, v, c[j]);
    }
  }

  ghost predicate Sized(strides: seq<int>, count: seq<int>, levels: nat, total: int) {
    |strides| == levels && |count| == levels + 1 && Positive(count) && total == Product(count[1..]) * count[0]
  }

  /** armci_write_strided: the bytes of the strided buffer, in order, end up in a row at dst. */
  method WriteStrided(w: Window, src: int, levels: nat, strides: seq<int>, count: seq<int>, dst: int, ghost total: nat)
    requires Idle(w.s) && Sized(strides, count, levels, total)
    requires Inside(Addresses(src, strides, count), w.s.local) && Inside(Cells(dst, total, 1), w.s.local)
    requires Separate(Addresses(src, strides, count), Cells(dst, total, 1))
    modifies w
    ensures |Addresses(src, strides, count)| == total && Buffers.OnlyLocal(old(w.s), w.s)
    ensures w.s.blocks == old(w.s.blocks)
    ensures w.s.local == Scatter(old(w.s.local), Cells(dst, total, 1),
                                 Gather(old(w.s.local), Addresses(src, strides, count)))
  {
    var bytes, srcPtrs, dstPtrs := StridedToIov(src, strides, src, strides, count, levels);
    var from, to := srcPtrs[..], seq(srcPtrs.Length, i => dst + i * bytes);
    VectorAddresses(from, src, strides, count);
    ConsecutiveCells(to, dst, bytes, total);
    InsideSegments(from, bytes, w.s.local);
    InsideSegments(to, bytes, w.s.local);
    CopySegments(w, from, to, bytes);
  }

  lemma {:induction false} InsideSegments(ptrs: seq<int>, n: nat, m: Mem)
    requires Inside(AllCells(ptrs, n, 1), m)
    ensures AllInside(ptrs, n, 1, m)
  {
    forall i, j | 0 <= i < |ptrs| && 0 <= j < n ensures Cells(ptrs[i], n, 1)[j] in m {
      AllCellsHas(ptrs, n, 1, i, j);
    }
  }

  /** armci_read_strided: the bytes in a row at src end up in the strided buffer, in order. */
  method ReadStrided(w: Window, dst: int, levels: nat, strides: seq<int>, count: seq<int>, src: int, ghost total: nat)
    requires Idle(w.s) && Sized(strides, count, levels, total)
    requires Inside(Addresses(dst, strides, count), w.s.local) && Inside(Cells(src, total, 1), w.s.local)
    requires Separate(Cells(src, total, 1), Addresses(dst, strides, count))
    modifies w
    ensures |Addresses(dst, strides, count)| == total && Buffers.OnlyLocal(old(w.s), w.s)
    ensures w.s.blocks == old(w.s.blocks)
    ensures w.s.local == Scatter(old(w.s.local), Addresses(dst, strides, count),
                                 Gather(old(w.s.local), Cells(src, total, 1)))
  {
    var bytes, srcPtrs, dstPtrs := StridedToIov(dst, strides, dst, strides, count, levels);
    var from, to := seq(dstPtrs.Length, i => src + i * bytes), dstPtrs[..];
    VectorAddresses(to, dst, strides, count);
    ConsecutiveCells(from, src, bytes, total);
    InsideSegments(from, bytes, w.s.local);
    InsideSegments(to, bytes, w.s.local);
    CopySegments(w, from, to, bytes);
  }

  // ----- Packing and unpacking undo each other

  /** The description names no byte twice when each loop stays within one step of the next. */
  lemma {:induction false} AddressesDistinct(base: int, strides: seq<int>, count: seq<int>)
    requires |count| == |strides| + 1 && Positive(count)
    requires var l := Trimmed(count, |strides|); Nested(strides, count, l) && forall i :: 0 <= i < l ==> strides[i] > 0
    ensures Distinct(Addresses(base, strides, count))
  {
    var l := Trimmed(count, |strides|);
    OffsetsRise(strides, count, l, l, if l == 0 then count[0] else count[l] * strides[l - 1]);
    TrimmedOffsets(strides, count, |strides|);
  }

  /** Pack from m, let memory change to m2 as it may except for the packed copy at `buf`, and unpack:
      the strided bytes are those of m again and no other byte changes. */
  lemma {:induction false} PackThenUnpack(m: Mem, m2: Mem, base: int, strides: seq<int>, count: seq<int>, buf: int,
                                          total: nat, x: int)
    requires Sized(strides, count, |strides|, total) && |Addresses(base, strides, count)| == total
    requires Inside(Addresses(base, strides, count), m) && Inside(Cells(buf, total, 1), m)
    requires Inside(Addresses(base, strides, count), m2) && Inside(Cells(buf, total, 1), m2) && x in m2 && x in m
    requires var a, c := Addresses(base, strides, count), Cells(buf, total, 1);
             Gather(m2, c) == Gather(Scatter(m, c, Gather(m, a)), c)
    ensures var a, c := Addresses(base, strides, count), Cells(buf, total, 1);
            Scatter(m2, a, Gather(m2, c))[x] == if x in a then m[x] else m2[x]
  {
    var a, c := Addresses(base, strides, count), Cells(buf, total, 1);
    CellsExtent(buf, total, 1, total);
    GatherScattered(m, c, Gather(m, a));
    ScatterGathered(m, m2, a, x);
  }

  /** A buffer unpacked to the addresses a and packed again is the same buffer. */
  ghost predicate ComesBack(m: Mem, a: seq<int>, bytes: seq<int>)
    requires Inside(a, m) && |bytes| == |a|
  {
    Gather(Scatter(m, a, bytes), a) == bytes
  }

  /** Every buffer that is unpacked comes back when it is packed again if and only if no byte of the
      layout is named twice. */
  lemma {:induction false} UnpackThenPack(m: Mem, base: int, strides: seq<int>, count: seq<int>)
    requires |count| == |strides| + 1 && Positive(count) && Inside(Addresses(base, strides, count), m)
    ensures var a := Addresses(base, strides, count);
            (forall bytes :: |bytes| == |a| ==> ComesBack(m, a, bytes)) <==> Distinct(a)
  {
    var a := Addresses(base, strides, count);
    if Distinct(a) {
      forall bytes | |bytes| == |a| ensures ComesBack(m, a, bytes) { GatherScattered(m, a, bytes); }
    } else {
      var i, j :| 0 <= i < j < |a| && a[i] == a[j];
      var bytes := seq(|a|, k => if k == i then 0 else 1);
      var back := Gather(Scatter(m, a, bytes), a);
      assert back[i] == back[j] && bytes[i] != bytes[j];
      assert !ComesBack(m, a, bytes);
    }
  }

  /** In particular when each loop stays within one step of the next. */
  lemma {:induction false} UnpackThenPackNested(m: Mem, base: int, strides: seq<int>, count: seq<int>, bytes: seq<int>)
    requires |count| == |strides| + 1 && Positive(count) && Inside(Addresses(base, strides, count), m)
    requires |bytes| == |Addresses(base, strides, count)|
    requires var l := Trimmed(count, |strides|); Nested(strides, count, l) && forall i :: 0 <= i < l ==> strides[i] > 0
    ensures ComesBack(m, Addresses(base, strides, count), bytes)
  {
    AddressesDistinct(base, strides, count);
    UnpackThenPack(m, base, strides, count);
  }

  // ----- Strided put and get

  /** What a subarray needs to describe the transfer: the source's assertions, MPI's rule on
      subsizes, and strides that divide. */
  ghost predicate Typable(strides: seq<int>, count: seq<int>)
    requires |count| == |strides| + 1
  {
    var l := Trimmed(count, |strides|);
    Usable(strides, count, 1, l) && Nested(strides, count, l) && Dividing(strides, l)
  }

  /** ARMCII_Strided_to_dtype of bytes, applied at a base address. */
  method TypedAddresses(base: int, strides: seq<int>, count: seq<int>, levels: nat) returns (a: seq<int>)
    requires |strides| == levels && |count| == levels + 1 && Positive(count) && Typable(strides, count)
    ensures a == Addresses(base, strides, count)
  {
    var t := StridedToDtype(strides, count, levels, 1);
    assert Legal(t);
    SameBytesIffDividing(strides, count, 1);
    BytesOfOne(TypeMap(t));
    a := Shift(TypeMap(t), base);
  }

  /** One typed operation and the flush after it. */
  method Transfer(w: Window, op: Op, ls: seq<int>, rs: seq<int>, endToEnd: bool)
    requires Idle(w.s) && |ls| == |rs| && Inside(ls, w.s.local) && Inside(rs, w.s.target)
    requires Clear(op, Pending(w.s), ls, rs) && op != ACC
    modifies w
    ensures Idle(w.s) && Moved(old(w.s), w.s, op, ls, rs) && (op == GET || endToEnd ==> w.s.sent == [])
  {
    MovedStart(w.s, op);
    assert [] + ls == ls && [] + rs == rs;
    MovedIssue(w.s, w.s, op, [], [], ls, rs);
    w.Issue(op, ls, rs);
    FlushMoved(w, old(w.s), op, ls, rs, op != GET, endToEnd);
  }

  /** The effect of a strided put; with end_to_end_flush it is complete at the target. */
  ghost predicate PutDone(s0: State, s: State, from: seq<int>, to: seq<int>, endToEnd: bool)
    requires Formed(s0)
  {
    && Idle(s) && |from| == |to| && Inside(from, s0.local) && Inside(to, s0.target)
    && s.local == s0.local && s.blocks == s0.blocks
    && View(s) == Scatter(View(s0), to, Gather(s0.local, from))
    && (endToEnd ==> Pending(s) == [] && s.target == Scatter(View(s0), to, Gather(s0.local, from)))
  }

  /** The effect of a strided get, which also completes whatever was under way. */
  ghost predicate GetDone(s0: State, s: State, from: seq<int>, to: seq<int>)
    requires Formed(s0)
  {
    && Idle(s) && |from| == |to| && Inside(from, s0.target) && Inside(to, s0.local)
    && Pending(s) == [] && s.target == View(s0) && s.blocks == s0.blocks
    && s.local == Scatter(s0.local, to, Gather(View(s0), from))
  }

  /** The origin cells that the typed operation names: a fresh block where the user's buffer is guarded and
      shared, the user's buffer itself otherwise. */
  ghost predicate Named(cells: seq<int>, user: seq<int>, guarded: bool, m: Mem) {
    if guarded then forall i :: 0 <= i < |cells| ==> cells[i] !in m else cells == user
  }

  lemma {:induction false} PutMoved(s0: State, s: State, from: seq<int>, to: seq<int>, endToEnd: bool)
    requires Idle(s) && Moved(s0, s, PUT, from, to) && (endToEnd ==> s.sent == [])
    ensures PutDone(s0, s, from, to, endToEnd)
  {
    PutsAreStores(View(s0), to, Gather(s0.local, from));
  }

  lemma {:induction false} GetMoved(s0: State, s: State, from: seq<int>, to: seq<int>)
    requires Idle(s0) && Idle(s) && Moved(s0, s, GET, to, from) && s.sent == []
    ensures GetDone(s0, s, from, to)
  {
  }

  /** The DIRECT branch of PARMCI_PutS with the source buffer used as it is. */
  method PutDirect(w: Window, src: int, srcStrides: seq<int>, dst: int, dstStrides: seq<int>, count: seq<int>,
                   levels: nat, endToEnd: bool) returns (ghost cells: seq<int>)
    requires Idle(w.s) && |srcStrides| == |dstStrides| == levels && |count| == levels + 1 && Positive(count)
    requires Typable(srcStrides, count) && Typable(dstStrides, count)
    requires Inside(Addresses(src, srcStrides, count), w.s.local)
    requires Inside(Addresses(dst, dstStrides, count), w.s.target)
    requires Clear(PUT, Pending(w.s), [], Addresses(dst, dstStrides, count))
    modifies w
    ensures Named(cells, Addresses(src, srcStrides, count), false, old(w.s.local))
    ensures PutDone(old(w.s), w.s, Addresses(src, srcStrides, count), Addresses(dst, dstStrides, count), endToEnd)
  {
    var from := TypedAddresses(src, srcStrides, count, levels);
    var to := TypedAddresses(dst, dstStrides, count, levels);
    cells := from;
    SameNumber(srcStrides, dstStrides, count, levels);
    Transfer(w, PUT, from, to, endToEnd);
    PutMoved(old(w.s), w.s, from, to, endToEnd);
  }

  lemma {:induction false} SameNumber(a: seq<int>, b: seq<int>, count: seq<int>, level: nat)
    requires level <= |a| && level <= |b| && level < |count| && Positive(count)
    ensures |Offsets(a, count, level)| == |Offsets(b, count, level)|
  {
    if level > 0 {
      SameNumber(a, b, count, level - 1);
      RepeatLength(Offsets(a, count, level - 1), Offsets(b, count, level - 1),
                   a[level - 1], b[level - 1], count[level]);
    }
  }

  /** The size loop of the COPY case. */
  method TotalBytes(count: seq<int>, levels: nat) returns (total: int)
    requires |count| == levels + 1 && Positive(count)
    ensures total == Product(count[1..]) * count[0] && total > 0
  {
    total := count[0];
    assert count[1..1] == [];
    for i := 1 to levels + 1
      invariant total == Product(count[1..i]) * count[0]
    {
      ProductSnoc(count[1..i], count[i]);
      assert count[1..i + 1] == count[1..i] + [count[i]];
      Associate(Product(count[1..i]), count[i], count[0]);
      Associate(Product(count[1..i]), count[0], count[i]);
      total := total * count[i];
    }
    assert count[1..levels + 1] == count[1..];
    ProductPositive(count[1..]);
    MultiplyPositive(Product(count[1..]), count[0]);
  }

  lemma {:induction false} MultiplyPositive(a: int, b: int)
    requires a > 0 && b > 0
    ensures a * b > 0
  {
  }

  lemma {:induction false} FreshIsSeparate(m: Mem, a: seq<int>, base: int, total: nat)
    requires Inside(a, m) && Extent(base, total) !! m.Keys
    ensures Separate(a, Cells(base, total, 1)) && Separate(Cells(base, total, 1), a)
  {
    CellsExtent(base, total, 1, total);
  }

  /** The source gathered into a fresh block. */
  method PackFresh(w: Window, src: int, strides: seq<int>, count: seq<int>, levels: nat, total: nat) returns (buf: int)
    requires Idle(w.s) && Sized(strides, count, levels, total) && total > 0
    requires Inside(Addresses(src, strides, count), w.s.local)
    modifies w
    ensures |Addresses(src, strides, count)| == total && Buffers.OnlyLocal(old(w.s), w.s)
    ensures Extends(old(w.s.local), w.s.local, Extent(buf, total)) && Extends(old(w.s.blocks), w.s.blocks, {buf})
    ensures w.s.blocks[buf] == total
    ensures Inside(Cells(buf, total, 1), w.s.local)
    ensures Gather(w.s.local, Cells(buf, total, 1)) == Gather(old(w.s.local), Addresses(src, strides, count))
  {
    ghost var m0, a := w.s.local, Addresses(src, strides, count);
    buf := w.Alloc(total);
    ghost var m1 := w.s.local;
    FreshIsSeparate(m0, a, buf, total);
    ExtendsGather(m0, m1, Extent(buf, total), a);
    CellsExtent(buf, total, 1, total);
    WriteStrided(w, src, levels, strides, count, buf, total);
    Buffers.FilledBlock(m0, m1, buf, total, 1, total, Gather(m0, a));
  }

  /** The DIRECT branch of PARMCI_PutS with a guarded source buffer. */
  method PutCopied(w: Window, src: int, srcStrides: seq<int>, dst: int, dstStrides: seq<int>, count: seq<int>,
                   levels: nat, endToEnd: bool) returns (ghost cells: seq<int>)
    requires Idle(w.s) && |srcStrides| == |dstStrides| == levels && |count| == levels + 1 && Positive(count)
    requires Typable(dstStrides, count)
    requires Inside(Addresses(src, srcStrides, count), w.s.local)
    requires Inside(Addresses(dst, dstStrides, count), w.s.target)
    requires Clear(PUT, Pending(w.s), [], Addresses(dst, dstStrides, count))
    modifies w
    ensures Named(cells, Addresses(src, srcStrides, count), true, old(w.s.local))
    ensures PutDone(old(w.s), w.s, Addresses(src, srcStrides, count), Addresses(dst, dstStrides, count), endToEnd)
  {
    var total := TotalBytes(count, levels);
    ghost var s0 := w.s;
    var buf := PackFresh(w, src, srcStrides, count, levels, total);
    ghost var s1 := w.s;
    cells := Cells(buf, total, 1);
    CellsExtent(buf, total, 1, total);
    var to := TypedAddresses(dst, dstStrides, count, levels);
    SameNumber(srcStrides, dstStrides, count, levels);
    Transfer(w, PUT, Cells(buf, total, 1), to, endToEnd);
    PutMoved(s1, w.s, Cells(buf, total, 1), to, endToEnd);
    ghost var s2 := w.s;
    w.Free(buf);
    ExtendsRemove(s0.local, s1.local, Extent(buf, total));
    ExtendsRemove(s0.blocks, s1.blocks, {buf});
  }

  /** The DIRECT branch of PARMCI_GetS with the destination buffer used as it is. */
  method GetDirect(w: Window, src: int, srcStrides: seq<int>, dst: int, dstStrides: seq<int>, count: seq<int>,
                   levels: nat, endToEnd: bool) returns (ghost cells: seq<int>)
    requires Idle(w.s) && |srcStrides| == |dstStrides| == levels && |count| == levels + 1 && Positive(count)
    requires Typable(srcStrides, count) && Typable(dstStrides, count)
    requires Inside(Addresses(src, srcStrides, count), w.s.target)
    requires Inside(Addresses(dst, dstStrides, count), w.s.local)
    requires Clear(GET, Pending(w.s), [], Addresses(src, srcStrides, count))
    modifies w
    ensures Named(cells, Addresses(dst, dstStrides, count), false, old(w.s.local))
    ensures GetDone(old(w.s), w.s, Addresses(src, srcStrides, count), Addresses(dst, dstStrides, count))
  {
    var from := TypedAddresses(src, srcStrides, count, levels);
    var to := TypedAddresses(dst, dstStrides, count, levels);
    cells := to;
    SameNumber(srcStrides, dstStrides, count, levels);
    AddressesDistinct(dst, dstStrides, count);
    Transfer(w, GET, to, from, endToEnd);
    GetMoved(old(w.s), w.s, from, to);
  }

  /** The DIRECT branch of PARMCI_GetS with a guarded destination buffer. */
  method GetCopied(w: Window, src: int, srcStrides: seq<int>, dst: int, dstStrides: seq<int>, count: seq<int>,
                   levels: nat, endToEnd: bool) returns (ghost cells: seq<int>)
    requires Idle(w.s) && |srcStrides| == |dstStrides| == levels && |count| == levels + 1 && Positive(count)
    requires Typable(srcStrides, count)
    requires Inside(Addresses(src, srcStrides, count), w.s.target)
    requires Inside(Addresses(dst, dstStrides, count), w.s.local)
    requires Clear(GET, Pending(w.s), [], Addresses(src, srcStrides, count))
    modifies w
    ensures Named(cells, Addresses(dst, dstStrides, count), true, old(w.s.local))
    ensures GetDone(old(w.s), w.s, Addresses(src, srcStrides, count), Addresses(dst, dstStrides, count))
  {
    var total := TotalBytes(count, levels);
    ghost var s0, a := w.s, Addresses(dst, dstStrides, count);
    var buf := w.Alloc(total);
    ghost var s1, e := w.s, Extent(buf, total);
    CellsExtent(buf, total, 1, total);
    cells := Cells(buf, total, 1);
    var from := TypedAddresses(src, srcStrides, count, levels);
    AddressNumber(src, srcStrides, count, levels, total);
    Transfer(w, GET, Cells(buf, total, 1), from, endToEnd);
    ghost var s2, v := w.s, Gather(View(s0), from);
    Buffers.FilledBlock(s0.local, s1.local, buf, total, 1, total, v);
    assert s2.local == Scatter(s1.local, Cells(buf, total, 1), v);
    FreshIsSeparate(s0.local, a, buf, total);
    ExtendsGather(s0.local, s2.local, e, a);
    ReadStrided(w, dst, levels, dstStrides, count, buf, total);
    ExtendsScatter(s0.local, s2.local, e, a, v);
    ExtendsRemove(Scatter(s0.local, a, v), w.s.local, e);
    ExtendsRemove(s0.blocks, w.s.blocks, {buf});
    w.Free(buf);
  }

  /** A description names as many bytes as it has segments times their length. */
  lemma {:induction false} AddressNumber(base: int, strides: seq<int>, count: seq<int>, levels: nat, total: nat)
    requires Sized(strides, count, levels, total)
    ensures |Addresses(base, strides, count)| == total
  {
    SegmentsAreNestedLoops(strides, count);
    SegmentBytesLength(strides, count[1..], count[0], Product(count[1..]), total);
  }

  lemma {:induction false} SegmentBytesLength(strides: seq<int>, c: seq<int>, bytes: nat, k: nat, total: nat)
    requires |strides| == |c| && Positive(c) && total == k * bytes
    ensures |SegmentBytes(strides, c, bytes, k)| == total
  {
    if k > 0 {
      assert total == (k - 1) * bytes + bytes && (k - 1) * bytes >= 0;
      SegmentBytesLength(strides, c, bytes, k - 1, (k - 1) * bytes);
    }
  }

  // ----- The I/O vector branch

  lemma {:induction false} SingleVector(iov: Giov)
    ensures SrcCells([iov], 1) == AllCells(iov.src, iov.bytes, 1)
    ensures DstCells([iov], 1) == AllCells(iov.dst, iov.bytes, 1)
  {
    assert [iov][..0] == [];
    assert SrcCells([iov], 1) == SrcCells([], 1) + AllCells(iov.src, iov.bytes, 1);
    assert DstCells([iov], 1) == DstCells([], 1) + AllCells(iov.dst, iov.bytes, 1);
  }

  /** Every address is in the target's slice. */
  ghost predicate AllInSlice(a: seq<int>, window: int, size: int) {
    forall i :: 0 <= i < |a| ==> window <= a[i] < window + size
  }

  lemma {:induction false} SegmentsInSlice(ptrs: seq<int>, n: nat, window: int, size: int)
    requires n > 0 && AllInSlice(AllCells(ptrs, n, 1), window, size)
    ensures InSlice(ptrs, n, window, size)
  {
    forall i | 0 <= i < |ptrs| ensures window <= ptrs[i] && ptrs[i] + n <= window + size {
      AllCellsHas(ptrs, n, 1, i, 0);
      AllCellsHas(ptrs, n, 1, i, n - 1);
    }
  }

  /** The vector names the bytes of both strided descriptions in order. */
  ghost predicate Describes(iov: Giov, src: int, srcStrides: seq<int>, dst: int, dstStrides: seq<int>,
                            count: seq<int>) {
    && |count| == |srcStrides| + 1 && |count| == |dstStrides| + 1 && Positive(count)
    && iov.bytes == count[0] && |iov.src| == |iov.dst| == Product(count[1..]) && !Empty(iov)
    && AllCells(iov.src, iov.bytes, 1) == Addresses(src, srcStrides, count)
    && AllCells(iov.dst, iov.bytes, 1) == Addresses(dst, dstStrides, count)
  }

  method ToVector(src: int, srcStrides: seq<int>, dst: int, dstStrides: seq<int>, count: seq<int>, levels: nat)
      returns (iov: Giov)
    requires |srcStrides| == |dstStrides| == levels && |count| == levels + 1 && Positive(count)
    ensures Describes(iov, src, srcStrides, dst, dstStrides, count)
  {
    var bytes, srcPtrs, dstPtrs := StridedToIov(src, srcStrides, dst, dstStrides, count, levels);
    iov := Giov(srcPtrs[..], dstPtrs[..], bytes);
    ProductPositive(count[1..]);
    VectorAddresses(iov.src, src, srcStrides, count);
    VectorAddresses(iov.dst, dst, dstStrides, count);
  }

  /** When the vector branch goes through: the one assertion that can fail is on the span of the buffers. */
  ghost predicate GoesThrough(cfg: Config, iov: Giov, loc: seq<int>) {
    UsesDatatype(cfg, Overlapping(cfg, iov), true) ==> SpanWithin(loc)
  }

  lemma {:induction false} SinglePass(cfg: Config, shared: int -> bool, op: Op, iov: Giov, locs: seq<seq<int>>,
                                      window: int, ok: bool)
    requires !Empty(iov) && AllPrepared(cfg, shared, op, 1, [iov], locs, 1)
    requires (ok <==> AllPass(cfg, op, [iov], locs, 1, window)) && (ok ==> |locs| == 1)
    ensures |locs| == 1 && Prepared(cfg, shared, op, 1, iov, locs[0], 1) && (ok <==> GoesThrough(cfg, iov, locs[0]))
  {
    assert [iov][0] == iov;
    if |locs| == 1 {
      assert Prepared(cfg, shared, op, 1, [iov][0], locs[0], 1);
      BytesAddressable(locs[0], Remote(op, iov), window);
    }
  }

  lemma {:induction false} VectorCanPut(s: State, cfg: Config, iov: Giov, window: int, size: int)
    requires Idle(s) && size <= INT_MAX && !Empty(iov) && |iov.src| == |iov.dst|
    requires Inside(AllCells(iov.src, iov.bytes, 1), s.local) && Inside(AllCells(iov.dst, iov.bytes, 1), s.target)
    requires Clear(PUT, Pending(s), [], AllCells(iov.dst, iov.bytes, 1))
    requires AllInSlice(AllCells(iov.dst, iov.bytes, 1), window, size)
    ensures CanSendAll(s, cfg, PUT, [iov], 1, window, size)
  {
    SingleVector(iov);
    InsideSegments(iov.src, iov.bytes, s.local);
    InsideSegments(iov.dst, iov.bytes, s.target);
    SegmentsInSlice(iov.dst, iov.bytes, window, size);
    assert Fine(iov, s.local, s.target, 1, window, size);
  }

  lemma {:induction false} VectorCanGet(s: State, iov: Giov, window: int, size: int)
    requires Idle(s) && size <= INT_MAX && !Empty(iov) && |iov.src| == |iov.dst|
    requires Inside(AllCells(iov.dst, iov.bytes, 1), s.local) && Inside(AllCells(iov.src, iov.bytes, 1), s.target)
    requires Clear(GET, Pending(s), AllCells(iov.dst, iov.bytes, 1), AllCells(iov.src, iov.bytes, 1))
    requires AllInSlice(AllCells(iov.src, iov.bytes, 1), window, size)
    ensures CanGetAll(s, [iov], window, size)
  {
    SingleVector(iov);
    InsideSegments(iov.dst, iov.bytes, s.local);
    InsideSegments(iov.src, iov.bytes, s.target);
    SegmentsInSlice(iov.src, iov.bytes, window, size);
    assert GetFine(iov, s.local, s.target, window, size);
  }

  /** The I/O vector branch of PARMCI_PutS. */
  method PutVector(w: Window, cfg: Config, shared: int -> bool, src: int, srcStrides: seq<int>, dst: int,
                   dstStrides: seq<int>, count: seq<int>, levels: nat, window: int, size: int)
      returns (ok: bool, ghost iov: Giov, ghost loc: seq<int>, ghost at: State)
    requires Idle(w.s) && |srcStrides| == |dstStrides| == levels && |count| == levels + 1 && Positive(count)
    requires Inside(Addresses(src, srcStrides, count), w.s.local)
    requires Inside(Addresses(dst, dstStrides, count), w.s.target)
    requires Clear(PUT, Pending(w.s), [], Addresses(dst, dstStrides, count))
    requires AllInSlice(Addresses(dst, dstStrides, count), window, size) && size <= INT_MAX
    modifies w
    ensures Describes(iov, src, srcStrides, dst, dstStrides, count) && Prepared(cfg, shared, PUT, 1, iov, loc, 1)
    ensures ok <==> GoesThrough(cfg, iov, loc)
    ensures ok ==> PutDone(old(w.s), w.s, Addresses(src, srcStrides, count), Addresses(dst, dstStrides, count),
                           cfg.endToEnd)
    ensures !ok ==> Stopped(old(w.s), at, w.s, cfg, shared, PUT, 1, [iov], [loc], 1, window)
  {
    var vec := ToVector(src, srcStrides, dst, dstStrides, count, levels);
    iov := vec;
    ok, loc, at := PutSingle(w, cfg, shared, vec, window, size);
  }

  lemma {:induction false} PutSingleDone(s0: State, s: State, iov: Giov, endToEnd: bool)
    requires Formed(s0) && Idle(s) && !Empty(iov) && |iov.src| == |iov.dst|
    requires s.local == s0.local && s.blocks == s0.blocks
    requires Inside(SrcCells([iov], 1), s0.local) && Inside(DstCells([iov], 1), s0.target)
    requires |SrcCells([iov], 1)| == |DstCells([iov], 1)|
    requires View(s) == Scatter(View(s0), DstCells([iov], 1), Gather(s0.local, SrcCells([iov], 1)))
    requires endToEnd && DstCells([iov], 1) != [] ==> Pending(s) == []
    ensures PutDone(s0, s, AllCells(iov.src, iov.bytes, 1), AllCells(iov.dst, iov.bytes, 1), endToEnd)
  {
    SingleVector(iov);
    AllCellsHas(iov.dst, iov.bytes, 1, 0, 0);
  }

  method PutSingle(w: Window, cfg: Config, shared: int -> bool, iov: Giov, window: int, size: int)
      returns (ok: bool, ghost loc: seq<int>, ghost at: State)
    requires Idle(w.s) && size <= INT_MAX && !Empty(iov) && |iov.src| == |iov.dst|
    requires Inside(AllCells(iov.src, iov.bytes, 1), w.s.local) && Inside(AllCells(iov.dst, iov.bytes, 1), w.s.target)
    requires Clear(PUT, Pending(w.s), [], AllCells(iov.dst, iov.bytes, 1))
    requires AllInSlice(AllCells(iov.dst, iov.bytes, 1), window, size)
    modifies w
    ensures Prepared(cfg, shared, PUT, 1, iov, loc, 1) && (ok <==> GoesThrough(cfg, iov, loc))
    ensures ok ==> PutDone(old(w.s), w.s, AllCells(iov.src, iov.bytes, 1), AllCells(iov.dst, iov.bytes, 1),
                           cfg.endToEnd)
    ensures !ok ==> Stopped(old(w.s), at, w.s, cfg, shared, PUT, 1, [iov], [loc], 1, window)
  {
    VectorCanPut(w.s, cfg, iov, window, size);
    ghost var locs;
    ok, locs, at := PutV(w, cfg, shared, [iov], window, size);
    if ok { PutSingleDone(old(w.s), w.s, iov, cfg.endToEnd); }
    SinglePass(cfg, shared, PUT, iov, locs, window, ok);
    loc := locs[0];
    assert locs == [loc];
  }

  /** The I/O vector branch of PARMCI_GetS. */
  method GetVector(w: Window, cfg: Config, shared: int -> bool, src: int, srcStrides: seq<int>, dst: int,
                   dstStrides: seq<int>, count: seq<int>, levels: nat, window: int, size: int)
      returns (ok: bool, ghost iov: Giov, ghost loc: seq<int>, ghost at: State)
    requires Idle(w.s) && |srcStrides| == |dstStrides| == levels && |count| == levels + 1 && Positive(count)
    requires Inside(Addresses(src, srcStrides, count), w.s.target)
    requires Inside(Addresses(dst, dstStrides, count), w.s.local)
    requires Clear(GET, Pending(w.s), Addresses(dst, dstStrides, count), Addresses(src, srcStrides, count))
    requires AllInSlice(Addresses(src, srcStrides, count), window, size) && size <= INT_MAX
    modifies w
    ensures Describes(iov, src, srcStrides, dst, dstStrides, count) && Prepared(cfg, shared, GET, 1, iov, loc, 1)
    ensures ok <==> GoesThrough(cfg, iov, loc)
    ensures ok ==> GetDone(old(w.s), w.s, Addresses(src, srcStrides, count), Addresses(dst, dstStrides, count))
    ensures !ok ==> StoppedGetting(old(w.s), at, w.s, cfg, shared, [iov], [loc], window)
  {
    var vec := ToVector(src, srcStrides, dst, dstStrides, count, levels);
    iov := vec;
    ok, loc, at := GetSingle(w, cfg, shared, vec, window, size);
  }

  method GetSingle(w: Window, cfg: Config, shared: int -> bool, iov: Giov, window: int, size: int)
      returns (ok: bool, ghost loc: seq<int>, ghost at: State)
    requires Idle(w.s) && size <= INT_MAX && !Empty(iov) && |iov.src| == |iov.dst|
    requires Inside(AllCells(iov.dst, iov.bytes, 1), w.s.local) && Inside(AllCells(iov.src, iov.bytes, 1), w.s.target)
    requires Clear(GET, Pending(w.s), AllCells(iov.dst, iov.bytes, 1), AllCells(iov.src, iov.bytes, 1))
    requires AllInSlice(AllCells(iov.src, iov.bytes, 1), window, size)
    modifies w
    ensures Prepared(cfg, shared, GET, 1, iov, loc, 1) && (ok <==> GoesThrough(cfg, iov, loc))
    ensures ok ==> GetDone(old(w.s), w.s, AllCells(iov.src, iov.bytes, 1), AllCells(iov.dst, iov.bytes, 1))
    ensures !ok ==> StoppedGetting(old(w.s), at, w.s, cfg, shared, [iov], [loc], window)
  {
    SingleVector(iov);
    VectorCanGet(w.s, iov, window, size);
    ghost var locs;
    ok, locs, at := GetV(w, cfg, shared, [iov], window, size);
    SinglePass(cfg, shared, GET, iov, locs, window, ok);
    AllCellsHas(iov.dst, iov.bytes, 1, 0, 0);
    loc := locs[0];
    assert locs == [loc];
  }

  /** PARMCI_PutS: one effect for both branches and every setting, where the subarray branch has strides
      that it can describe. The vector branch stops exactly when the local buffers that were prepared for
      the datatype form span more than INT_MAX bytes. */
  method PutS(w: Window, cfg: Config, direct: bool, shared: int -> bool, src: int, srcStrides: seq<int>, dst: int,
              dstStrides: seq<int>, count: seq<int>, levels: nat, window: int, size: int)
      returns (ok: bool, ghost iov: Giov, ghost loc: seq<int>, ghost at: State)
    requires Idle(w.s) && |srcStrides| == |dstStrides| == levels && |count| == levels + 1 && Positive(count)
    requires Inside(Addresses(src, srcStrides, count), w.s.local)
    requires Inside(Addresses(dst, dstStrides, count), w.s.target)
    requires Clear(PUT, Pending(w.s), [], Addresses(dst, dstStrides, count))
    requires AllInSlice(Addresses(dst, dstStrides, count), window, size) && size <= INT_MAX
    requires direct ==> Typable(dstStrides, count) && ((cfg.guard && shared(src)) || Typable(srcStrides, count))
    modifies w
    ensures direct || cfg.how == Conservative || cfg.how == Batched ==> ok
    ensures direct ==> Named(loc, Addresses(src, srcStrides, count), cfg.guard && shared(src), old(w.s.local))
    ensures !direct ==> Describes(iov, src, srcStrides, dst, dstStrides, count)
    ensures !direct ==> Prepared(cfg, shared, PUT, 1, iov, loc, 1)
    ensures !direct ==> (ok <==> GoesThrough(cfg, iov, loc))
    ensures ok ==> PutDone(old(w.s), w.s, Addresses(src, srcStrides, count), Addresses(dst, dstStrides, count),
                           cfg.endToEnd)
    ensures !ok ==> Stopped(old(w.s), at, w.s, cfg, shared, PUT, 1, [iov], [loc], 1, window)
  {
    iov, loc, at := Giov([], [], 0), [], w.s;
    if direct {
      if cfg.guard && shared(src) {
        loc := PutCopied(w, src, srcStrides, dst, dstStrides, count, levels, cfg.endToEnd);
      } else {
        loc := PutDirect(w, src, srcStrides, dst, dstStrides, count, levels, cfg.endToEnd);
      }
      ok := true;
    } else {
      ok, iov, loc, at := PutVector(w, cfg, shared, src, srcStrides, dst, dstStrides, count, levels, window, size);
    }
  }

  /** PARMCI_GetS, likewise. */
  method GetS(w: Window, cfg: Config, direct: bool, shared: int -> bool, src: int, srcStrides: seq<int>, dst: int,
              dstStrides: seq<int>, count: seq<int>, levels: nat, window: int, size: int)
      returns (ok: bool, ghost iov: Giov, ghost loc: seq<int>, ghost at: State)
    requires Idle(w.s) && |srcStrides| == |dstStrides| == levels && |count| == levels + 1 && Positive(count)
    requires Inside(Addresses(src, srcStrides, count), w.s.target)
    requires Inside(Addresses(dst, dstStrides, count), w.s.local)
    requires Clear(GET, Pending(w.s), Addresses(dst, dstStrides, count), Addresses(src, srcStrides, count))
    requires AllInSlice(Addresses(src, srcStrides, count), window, size) && size <= INT_MAX
    requires direct ==> Typable(srcStrides, count) && ((cfg.guard && shared(dst)) || Typable(dstStrides, count))
    modifies w
    ensures direct || cfg.how == Conservative || cfg.how == Batched ==> ok
    ensures direct ==> Named(loc, Addresses(dst, dstStrides, count), cfg.guard && shared(dst), old(w.s.local))
    ensures !direct ==> Describes(iov, src, srcStrides, dst, dstStrides, count)
    ensures !direct ==> Prepared(cfg, shared, GET, 1, iov, loc, 1)
    ensures !direct ==> (ok <==> GoesThrough(cfg, iov, loc))
    ensures ok ==> GetDone(old(w.s), w.s, Addresses(src, srcStrides, count), Addresses(dst, dstStrides, count))
    ensures !ok ==> StoppedGetting(old(w.s), at, w.s, cfg, shared, [iov], [loc], window)
  {
    iov, loc, at := Giov([], [], 0), [], w.s;
    if direct {
      if cfg.guard && shared(dst) {
        loc := GetCopied(w, src, srcStrides, dst, dstStrides, count, levels, cfg.endToEnd);
      } else {
        loc := GetDirect(w, src, srcStrides, dst, dstStrides, count, levels, cfg.endToEnd);
      }
      ok := true;
    } else {
      ok, iov, loc, at := GetVector(w, cfg, shared, src, srcStrides, dst, dstStrides, count, levels, window, size);
    }
  }

  // ----- A strided put followed by a strided get

  lemma {:induction false} PutCanGet(s0: State, s: State, src: seq<int>, rem: seq<int>, dst: seq<int>)
    requires Formed(s0) && PutDone(s0, s, src, rem, true) && Distinct(rem) && Distinct(dst)
    ensures Inside(rem, s.target) && Clear(GET, Pending(s), dst, rem)
    ensures Gather(View(s), rem) == Gather(s0.local, src)
  {
    GatherScattered(View(s0), rem, Gather(s0.local, src));
  }

  /** With end_to_end_flush a strided get of what a strided put wrote brings back what was put, in whatever
      branch and layout each of the two takes place. It stops only where the put stops, or where the get does
      from the state `mid` that the put leaves. */
  method PutSThenGetS(w: Window, cfg: Config, direct: bool, shared: int -> bool, src: int, srcStrides: seq<int>,
                      rem: int, remStrides: seq<int>, dst: int, dstStrides: seq<int>, count: seq<int>, levels: nat,
                      window: int, size: int)
      returns (ok: bool, ghost mid: State, ghost iov: Giov, ghost loc: seq<int>, ghost at: State)
    requires Idle(w.s) && |srcStrides| == |remStrides| == |dstStrides| == levels
    requires |count| == levels + 1 && Positive(count) && cfg.endToEnd
    requires Inside(Addresses(src, srcStrides, count), w.s.local)
    requires Inside(Addresses(dst, dstStrides, count), w.s.local) && Distinct(Addresses(dst, dstStrides, count))
    requires Inside(Addresses(rem, remStrides, count), w.s.target)
    requires Clear(PUT, Pending(w.s), [], Addresses(rem, remStrides, count))
    requires AllInSlice(Addresses(rem, remStrides, count), window, size) && size <= INT_MAX
    requires direct ==> Typable(remStrides, count)
    requires direct ==> (cfg.guard && shared(src)) || Typable(srcStrides, count)
    requires direct ==> (cfg.guard && shared(dst)) || Typable(dstStrides, count)
    modifies w
    ensures direct || cfg.how == Conservative || cfg.how == Batched ==> ok
    ensures !ok ==> Stopped(old(w.s), at, w.s, cfg, shared, PUT, 1, [iov], [loc], 1, window) ||
                    (Idle(mid) && mid.local == old(w.s.local) && Pending(mid) == []
                     && StoppedGetting(mid, at, w.s, cfg, shared, [iov], [loc], window))
    ensures ok ==> |Addresses(dst, dstStrides, count)| == |Addresses(src, srcStrides, count)|
    ensures ok ==> w.s.local == Scatter(old(w.s.local), Addresses(dst, dstStrides, count),
                                        Gather(old(w.s.local), Addresses(src, srcStrides, count)))
  {
    ghost var s0 := w.s;
    ok, iov, loc, at := PutS(w, cfg, direct, shared, src, srcStrides, rem, remStrides, count, levels, window, size);
    mid := w.s;
    if ok {
      PutCanGet(s0, w.s, Addresses(src, srcStrides, count), Addresses(rem, remStrides, count),
                Addresses(dst, dstStrides, count));
      ok, iov, loc, at := GetS(w, cfg, direct, shared, rem, remStrides, dst, dstStrides, count, levels, window, size);
    }
  }
}
