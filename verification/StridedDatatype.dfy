/** ARMCII_Strided_to_dtype (src/strided.c): a strided description as an MPI datatype, and when
    that datatype names the same bytes. */
module StridedDatatype {
  import opened Strided
  import opened StridedLayout

  /** MPI_Type_contiguous and MPI_Type_create_subarray (zero starts, C order) of some element type. */
  datatype Dtype = Contiguous(n: nat) | Subarray(sizes: seq<int>, subsizes: seq<int>)

  /** Element offsets of a subarray in type map order, section 4.1.3 of MPI 3.1: the first dimension
      is the slowest, and a step in it skips a whole array of the remaining dimensions. */
  function SubarrayMap(sizes: seq<int>, subsizes: seq<int>): seq<int>
    requires |sizes| == |subsizes| && Positive(subsizes)
  {
    if sizes == [] then [0]
    else Repeat(SubarrayMap(sizes[1..], subsizes[1..]), Product(sizes[1..]), subsizes[0])
  }

  ghost predicate ValidType(t: Dtype) { t.Subarray? ==> |t.sizes| == |t.subsizes| && Positive(t.subsizes) }

  function TypeMap(t: Dtype): seq<int>
    requires ValidType(t)
  {
    match t
    case Contiguous(n) => Range(n)
    case Subarray(sizes, subsizes) => SubarrayMap(sizes, subsizes)
  }

  /** The bytes of elements of es bytes at the given element offsets. */
  ghost function ElementBytes(offs: seq<int>, es: nat): seq<int> {
    if offs == [] then []
    else ElementBytes(offs[..|offs| - 1], es) + Shift(Range(es), offs[|offs| - 1] * es)
  }

  /** Levels left once trailing counts of one are dropped. */
  function Trimmed(count: seq<int>, level: nat): (l: nat)
    requires level < |count|
    ensures l <= level && (l > 0 ==> count[l] != 1) && forall i :: l < i <= level ==> count[i] == 1
  {
    if level > 0 && count[level] == 1 then Trimmed(count, level - 1) else level
  }

  /** What the source asserts of the strides that are left, and what its divisions need. */
  ghost predicate Usable(strides: seq<int>, count: seq<int>, es: int, l: nat)
    requires l <= |strides| && l < |count|
  {
    && es > 0 && count[0] % es == 0
    && (l > 0 ==> strides[0] % es == 0)
    && (forall i :: 0 <= i < l ==> strides[i] > 0)
    && (forall i :: 0 < i < l ==> strides[i] >= strides[i - 1])
  }

  /** How many elements a step at `level` skips in the datatype. */
  ghost function Weight(strides: seq<int>, es: int, level: nat): int
    requires 0 < level <= |strides| && es > 0 && forall i :: 0 <= i < level ==> strides[i] > 0
  {
    if level == 1 then strides[0] / es
    else Weight(strides, es, level - 1) * (strides[level - 1] / strides[level - 2])
  }

  /** The element offsets of the datatype as nested loops. */
  ghost function TypedOffsets(strides: seq<int>, count: seq<int>, es: int, level: nat): seq<int>
    requires level <= |strides| && level < |count| && Positive(count) && es > 0
    requires forall i :: 0 <= i < level ==> strides[i] > 0
  {
    if level == 0 then Range(count[0] / es)
    else Repeat(TypedOffsets(strides, count, es, level - 1), Weight(strides, es, level), count[level])
  }

  lemma {:induction false} RepeatUnit(n: nat)
    ensures Repeat([0], 1, n) == Range(n)
  {
    if n > 0 {
      RepeatUnit(n - 1);
      assert Range(n) == Range(n - 1) + [n - 1];
      assert Shift([0], (n - 1) * 1) == [n - 1];
    }
  }

  /** The arrays that the source fills. */
  ghost predicate Filled(sizes: seq<int>, subsizes: seq<int>, strides: seq<int>, count: seq<int>, es: int, l: nat)
    requires 0 < l <= |strides| && l < |count| && es > 0 && forall i :: 0 <= i < l ==> strides[i] > 0
  {
    && |sizes| == |subsizes| == l + 1
    && sizes[l] == strides[0] / es && subsizes[l] == count[0] / es
    && (forall i :: 0 < i < l ==> sizes[l - i] == strides[i] / strides[i - 1])
    && (forall i :: 0 < i < l ==> subsizes[l - i] == count[i])
    && sizes[0] == count[l] && subsizes[0] == count[l]
  }

  lemma {:induction false} FilledPositive(sizes: seq<int>, subsizes: seq<int>, strides: seq<int>, count: seq<int>,
                                          es: int, l: nat)
    requires 0 < l <= |strides| && l < |count| && Positive(count) && Usable(strides, count, es, l)
    requires Filled(sizes, subsizes, strides, count, es, l)
    ensures Positive(subsizes)
  {
    assert count[0] == es * (count[0] / es);
    forall j | 0 < j < l ensures subsizes[j] > 0 {
      var i := l - j;
      assert subsizes[l - i] == count[i];
    }
  }

  lemma {:induction false} FilledWeight(sizes: seq<int>, subsizes: seq<int>, strides: seq<int>, count: seq<int>,
                                        es: int, l: nat, level: nat)
    requires 0 < level <= l <= |strides| && l < |count| && Usable(strides, count, es, l)
    requires Filled(sizes, subsizes, strides, count, es, l)
    ensures Product(sizes[l - level + 1..]) == Weight(strides, es, level)
    decreases level
  {
    var w := sizes[l - level + 1..];
    if level == 1 {
      assert w == [sizes[l]] && w[1..] == [];
      assert Product(w) == w[0] * Product([]);
    } else {
      var i := level - 1;
      FilledWeight(sizes, subsizes, strides, count, es, l, i);
      assert w[0] == sizes[l - i] == strides[i] / strides[i - 1];
      assert w[1..] == sizes[l - i + 1..];
      assert Product(w) == w[0] * Product(w[1..]);
    }
  }

  lemma {:induction false} FilledMap(sizes: seq<int>, subsizes: seq<int>, strides: seq<int>, count: seq<int>, es: int,
                                     l: nat, level: nat)
    requires 0 < l <= |strides| && l < |count| && Positive(count) && Usable(strides, count, es, l) && level <= l
    requires Filled(sizes, subsizes, strides, count, es, l) && Positive(subsizes)
    ensures SubarrayMap(sizes[l - level..], subsizes[l - level..]) == TypedOffsets(strides, count, es, level)
    decreases level
  {
    var s, b := sizes[l - level..], subsizes[l - level..];
    if level == 0 {
      assert s == [sizes[l]] && b == [subsizes[l]];
      assert s[1..] == [] && b[1..] == [];
      assert SubarrayMap(s, b) == Repeat(SubarrayMap(s[1..], b[1..]), Product(s[1..]), b[0]);
      RepeatUnit(subsizes[l]);
    } else {
      FilledMap(sizes, subsizes, strides, count, es, l, level - 1);
      FilledWeight(sizes, subsizes, strides, count, es, l, level);
      assert s[1..] == sizes[l - (level - 1)..] && b[1..] == subsizes[l - (level - 1)..];
      assert b[0] == subsizes[l - level] == count[level];
    }
  }

  /** What MPI_Type_create_subarray accepts: each subsize between one and its size. */
  ghost predicate Legal(t: Dtype) {
    t.Subarray? ==> |t.sizes| == |t.subsizes| && forall i :: 0 <= i < |t.sizes| ==> 1 <= t.subsizes[i] <= t.sizes[i]
  }

  /** Each loop stays within one step of the loop around it. */
  ghost predicate Nested(strides: seq<int>, count: seq<int>, l: nat)
    requires l <= |strides| && l < |count|
  {
    (l > 0 ==> count[0] <= strides[0]) && forall i :: 0 < i < l ==> count[i] * strides[i - 1] <= strides[i]
  }

  lemma {:induction false} AtMostQuotient(c: int, p: int, s: int)
    requires p > 0
    ensures c <= s / p <==> c * p <= s
  {
    var q := s / p;
    assert s == q * p + s % p;
    if c <= q { Ordered(c, q, p); } else { Ordered(q + 1, c, p); }
    assert (q + 1) * p == q * p + p;
  }

  lemma {:induction false} Ordered(a: int, b: int, p: int)
    requires a <= b && p > 0
    ensures a * p <= b * p
  {
    assert (b - a) * p >= 0;
    assert (b - a) * p == b * p - a * p;
  }

  lemma {:induction false} FilledLegal(t: Dtype, strides: seq<int>, count: seq<int>, es: int, l: nat)
    requires t.Subarray? && 0 < l <= |strides| && l < |count| && Positive(count) && Usable(strides, count, es, l)
    requires Filled(t.sizes, t.subsizes, strides, count, es, l)
    ensures Legal(t) <==> Nested(strides, count, l)
  {
    FilledPositive(t.sizes, t.subsizes, strides, count, es, l);
    assert t.subsizes[l] <= t.sizes[l] <==> count[0] <= strides[0] by {
      AtMostQuotient(count[0] / es, es, strides[0]);
      assert count[0] == count[0] / es * es;
    }
    if Nested(strides, count, l) {
      forall j | 0 <= j < |t.sizes| ensures t.subsizes[j] <= t.sizes[j] {
        if 0 < j < l { DimensionFits(t, strides, count, es, l, l - j); }
      }
    }
    if Legal(t) {
      forall i | 0 < i < l ensures count[i] * strides[i - 1] <= strides[i] {
        DimensionFits(t, strides, count, es, l, i);
        assert t.subsizes[l - i] <= t.sizes[l - i];
      }
    }
  }

  lemma {:induction false} DimensionFits(t: Dtype, strides: seq<int>, count: seq<int>, es: int, l: nat, i: nat)
    requires t.Subarray? && 0 < i < l <= |strides| && l < |count| && es > 0 && forall i :: 0 <= i < l ==> strides[i] > 0
    requires Filled(t.sizes, t.subsizes, strides, count, es, l)
    ensures t.subsizes[l - i] <= t.sizes[l - i] <==> count[i] * strides[i - 1] <= strides[i]
  {
    assert t.sizes[l - i] == strides[i] / strides[i - 1] && t.subsizes[l - i] == count[i];
    AtMostQuotient(count[i], strides[i - 1], strides[i]);
  }

  method StridedToDtype(strides: seq<int>, count: seq<int>, levels: nat, es: int) returns (t: Dtype)
    requires |strides| == levels && |count| == levels + 1 && Positive(count)
    requires Usable(strides, count, es, Trimmed(count, levels))
    ensures ValidType(t) && TypeMap(t) == TypedOffsets(strides, count, es, Trimmed(count, levels))
    ensures Legal(t) <==> Nested(strides, count, Trimmed(count, levels))
  {
    var l := levels;
    while l > 0 && count[l] == 1
      invariant 0 <= l <= levels && Trimmed(count, l) == Trimmed(count, levels)
    {
      l := l - 1;
    }
    if l == 0 {
      t := Contiguous(count[0] / es);
    } else {
      var sizes, subsizes := new int[l + 1], new int[l + 1];
      sizes[l], subsizes[l] := strides[0] / es, count[0] / es;
      for i := 1 to l
        invariant sizes[l] == strides[0] / es && subsizes[l] == count[0] / es
        invariant forall j :: 0 < j < i ==> sizes[l - j] == strides[j] / strides[j - 1]
        invariant forall j :: 0 < j < i ==> subsizes[l - j] == count[j]
      {
        sizes[l - i] := strides[i] / strides[i - 1];
        subsizes[l - i] := count[i];
      }
      sizes[0], subsizes[0] := count[l], count[l];
      t := Subarray(sizes[..], subsizes[..]);
      FilledPositive(t.sizes, t.subsizes, strides, count, es, l);
      FilledMap(t.sizes, t.subsizes, strides, count, es, l, l);
      FilledLegal(t, strides, count, es, l);
      assert t.sizes[0..] == t.sizes && t.subsizes[0..] == t.subsizes;
    }
  }

  // ----- When the datatype names the bytes of the nested loops

  lemma {:induction false} BytesConcat(a: seq<int>, b: seq<int>, es: nat)
    ensures ElementBytes(a + b, es) == ElementBytes(a, es) + ElementBytes(b, es)
  {
    if b == [] {
      assert a + b == a;
    } else {
      var n := |b| - 1;
      BytesConcat(a, b[..n], es);
      assert (a + b)[..|a + b| - 1] == a + b[..n] && (a + b)[|a + b| - 1] == b[n];
      Reassociate(ElementBytes(a, es), ElementBytes(b[..n], es), Shift(Range(es), b[n] * es));
    }
  }

  lemma {:induction false} BytesShift(a: seq<int>, d: int, es: nat, at: int)
    requires at == d * es
    ensures ElementBytes(Shift(a, d), es) == Shift(ElementBytes(a, es), at)
  {
    if a != [] {
      var n := |a| - 1;
      BytesShift(a[..n], d, es, at);
      assert Shift(a, d)[..n] == Shift(a[..n], d) && Shift(a, d)[n] == a[n] + d;
      assert (a[n] + d) * es == a[n] * es + at;
      ShiftTwice(Range(es), a[n] * es, at);
      ShiftConcat(ElementBytes(a[..n], es), Shift(Range(es), a[n] * es), at);
    }
  }

  lemma {:induction false} RepeatStep(b: seq<int>, w: int, n: nat)
    requires n > 0
    ensures Repeat(b, w, n) == Repeat(b, w, n - 1) + Shift(b, (n - 1) * w)
  {
  }

  lemma {:induction false} BytesRepeat(b: seq<int>, w: int, n: nat, es: nat)
    ensures ElementBytes(Repeat(b, w, n), es) == Repeat(ElementBytes(b, es), w * es, n)
  {
    if n > 0 {
      BytesRepeat(b, w, n - 1, es);
      var before, last, d := Repeat(b, w, n - 1), Shift(b, (n - 1) * w), w * es;
      RepeatStep(b, w, n);
      BytesConcat(before, last, es);
      Associate(n - 1, w, es);
      BytesShift(b, (n - 1) * w, es, (n - 1) * d);
      RepeatStep(ElementBytes(b, es), d, n);
    }
  }

  lemma {:induction false} RangeSplit(n: nat, m: nat)
    ensures Range(n + m) == Range(n) + Shift(Range(m), n)
  {
  }

  lemma {:induction false} OneElement(d: int, es: nat, at: int)
    requires at == d * es
    ensures ElementBytes([d], es) == Shift(Range(es), at)
  {
    assert [d][..0] == [];
    assert ElementBytes([d], es) == ElementBytes([], es) + Shift(Range(es), at);
  }

  lemma {:induction false} BytesRange(n: nat, es: nat, bytes: nat)
    requires bytes == n * es
    ensures ElementBytes(Range(n), es) == Range(bytes)
  {
    if n == 0 {
      assert Range(n) == [] && Range(bytes) == [];
    } else {
      var before := (n - 1) * es;
      assert before >= 0 && bytes == before + es;
      BytesRange(n - 1, es, before);
      assert Range(n) == Range(n - 1) + [n - 1];
      BytesConcat(Range(n - 1), [n - 1], es);
      OneElement(n - 1, es, before);
      RangeSplit(before, es);
    }
  }

  /** Each stride, in elements below l, divides the next. */
  ghost predicate Dividing(strides: seq<int>, l: nat)
    requires l <= |strides| && forall i :: 0 <= i < l ==> strides[i] > 0
  {
    forall i :: 0 < i < l ==> strides[i] % strides[i - 1] == 0
  }

  lemma {:induction false} Scaled(w: int, p: int, q: int)
    requires 0 <= w <= p && 0 < p && 1 <= q
    ensures w * q <= p * q && (w < p ==> w * q < p * q)
  {
    assert (p - w) * q == p * q - w * q;
  }

  lemma {:induction false} QuotientProduct(w: int, p: int, s: int)
    requires 0 <= w <= p && 0 < p <= s
    ensures w * (s / p) <= s && (w * (s / p) == s <==> w == p && s % p == 0)
  {
    var q, r := s / p, s % p;
    assert s == p * q + r;
    assert q < 1 ==> p * q <= 0;
    Scaled(w, p, q);
  }

  /** A weight never exceeds its stride and meets it exactly when the strides up to it divide. */
  lemma {:induction false} WeightBound(strides: seq<int>, count: seq<int>, es: int, l: nat, level: nat)
    requires 0 < level <= l <= |strides| && l < |count| && Usable(strides, count, es, l)
    ensures 0 <= Weight(strides, es, level) * es <= strides[level - 1]
    ensures Weight(strides, es, level) * es == strides[level - 1] <==> Dividing(strides, level)
    decreases level
  {
    if level == 1 {
      assert strides[0] == es * (strides[0] / es);
    } else {
      WeightBound(strides, count, es, l, level - 1);
      var i := level - 1;
      assert strides[i] >= strides[i - 1];
      NextWeight(Weight(strides, es, i), es, strides[i - 1], strides[i]);
      DividingNext(strides, level);
    }
  }

  lemma {:induction false} NextWeight(v: int, es: int, p: int, s: int)
    requires 0 <= v * es <= p && 0 < p <= s
    ensures 0 <= v * (s / p) * es <= s && (v * (s / p) * es == s <==> v * es == p && s % p == 0)
  {
    var w, q := v * es, s / p;
    QuotientProduct(w, p, s);
    assert v * q * es == w * q;
    assert q >= 0 && w * q >= 0;
  }

  lemma {:induction false} DividingNext(strides: seq<int>, level: nat)
    requires 1 < level <= |strides| && forall i :: 0 <= i < level ==> strides[i] > 0
    ensures Dividing(strides, level) <==> Dividing(strides, level - 1) && strides[level - 1] % strides[level - 2] == 0
  {
    assert strides[level - 2] == strides[level - 1 - 1];
  }

  lemma {:induction false} RepeatStart(b: seq<int>, w: int, n: nat)
    requires b != [] && n >= 1
    ensures |b| <= |Repeat(b, w, n)| && Repeat(b, w, n)[0] == b[0]
    ensures n >= 2 ==> |b| < |Repeat(b, w, n)| && Repeat(b, w, n)[|b|] == b[0] + w
  {
    if n == 1 {
      assert Repeat(b, w, 1) == Repeat(b, w, 0) + Shift(b, 0);
    } else if n == 2 {
      RepeatStart(b, w, 1);
      assert Repeat(b, w, 2) == Repeat(b, w, 1) + Shift(b, w);
      assert Repeat(b, w, 1) == Repeat(b, w, 0) + Shift(b, 0);
    } else {
      RepeatStart(b, w, n - 1);
      assert Repeat(b, w, n) == Repeat(b, w, n - 1) + Shift(b, (n - 1) * w);
    }
  }

  lemma {:induction false} RepeatLength(a: seq<int>, b: seq<int>, v: int, w: int, n: nat)
    requires |a| == |b|
    ensures |Repeat(a, v, n)| == |Repeat(b, w, n)|
  {
    if n > 0 { RepeatLength(a, b, v, w, n - 1); }
  }

  lemma {:induction false} OffsetsStart(strides: seq<int>, count: seq<int>, level: nat)
    requires level <= |strides| && level < |count| && Positive(count)
    ensures |Offsets(strides, count, level)| > 0 && Offsets(strides, count, level)[0] == 0
  {
    if level > 0 {
      OffsetsStart(strides, count, level - 1);
      RepeatStart(Offsets(strides, count, level - 1), strides[level - 1], count[level]);
    }
  }

  lemma {:induction false} DividingSuffices(strides: seq<int>, count: seq<int>, es: int, l: nat, level: nat)
    requires level <= l <= |strides| && l < |count| && Positive(count) && Usable(strides, count, es, l)
    requires Dividing(strides, level)
    ensures ElementBytes(TypedOffsets(strides, count, es, level), es) == Offsets(strides, count, level)
    decreases level
  {
    if level == 0 {
      assert count[0] == count[0] / es * es;
      BytesRange(count[0] / es, es, count[0]);
    } else {
      DividingSuffices(strides, count, es, l, level - 1);
      WeightBound(strides, count, es, l, level);
      BytesRepeat(TypedOffsets(strides, count, es, level - 1), Weight(strides, es, level), count[level], es);
    }
  }

  /** The byte after the first pass of the outermost loop tells the two layouts apart. */
  lemma {:induction false} OuterStride(a: seq<int>, b: seq<int>, v: int, w: int, n: nat)
    requires n >= 2 && a != [] && b != [] && a[0] == b[0] && |a| == |b|
    requires Repeat(a, v, n) == Repeat(b, w, n)
    ensures v == w
  {
    RepeatStart(a, v, n);
    RepeatStart(b, w, n);
  }

  lemma {:induction false} TypedLength(strides: seq<int>, count: seq<int>, es: int, l: nat, level: nat)
    requires level <= l <= |strides| && l < |count| && Positive(count) && Usable(strides, count, es, l)
    ensures |ElementBytes(TypedOffsets(strides, count, es, level), es)| == |Offsets(strides, count, level)|
    ensures |Offsets(strides, count, level)| > 0 && ElementBytes(TypedOffsets(strides, count, es, level), es)[0] == 0
    decreases level
  {
    OffsetsStart(strides, count, level);
    if level == 0 {
      assert count[0] == count[0] / es * es;
      BytesRange(count[0] / es, es, count[0]);
    } else {
      TypedLength(strides, count, es, l, level - 1);
      var b, w := TypedOffsets(strides, count, es, level - 1), Weight(strides, es, level);
      BytesRepeat(b, w, count[level], es);
      RepeatStart(ElementBytes(b, es), w * es, count[level]);
      RepeatLength(ElementBytes(b, es), Offsets(strides, count, level - 1), w * es, strides[level - 1], count[level]);
    }
  }

  lemma {:induction false} DividingNeeded(strides: seq<int>, count: seq<int>, es: int, l: nat)
    requires 0 < l <= |strides| && l < |count| && Positive(count) && count[l] != 1 && Usable(strides, count, es, l)
    requires ElementBytes(TypedOffsets(strides, count, es, l), es) == Offsets(strides, count, l)
    ensures Dividing(strides, l)
  {
    var b, w := TypedOffsets(strides, count, es, l - 1), Weight(strides, es, l);
    var o, n := Offsets(strides, count, l - 1), count[l];
    var eb, ws := ElementBytes(b, es), w * es;
    BytesRepeat(b, w, n, es);
    assert Repeat(eb, ws, n) == Repeat(o, strides[l - 1], n);
    TypedLength(strides, count, es, l, l - 1);
    OffsetsStart(strides, count, l - 1);
    OuterStride(eb, o, ws, strides[l - 1], n);
    WeightBound(strides, count, es, l, l);
  }

  /** Loops that run once add nothing. */
  lemma {:induction false} TrimmedOffsets(strides: seq<int>, count: seq<int>, level: nat)
    requires level <= |strides| && level < |count| && Positive(count)
    ensures Offsets(strides, count, Trimmed(count, level)) == Offsets(strides, count, level)
  {
    if level > 0 && count[level] == 1 {
      TrimmedOffsets(strides, count, level - 1);
      var b := Offsets(strides, count, level - 1);
      assert Repeat(b, strides[level - 1], 1) == Repeat(b, strides[level - 1], 0) + Shift(b, 0);
      assert Shift(b, 0) == b;
    }
  }

  /** The datatype visits the bytes of the strided description, in the same order, exactly when each
      stride that is left after trimming divides the next. */
  lemma {:induction false} SameBytesIffDividing(strides: seq<int>, count: seq<int>, es: int)
    requires |count| == |strides| + 1 && Positive(count)
    requires Usable(strides, count, es, Trimmed(count, |strides|))
    ensures ElementBytes(TypedOffsets(strides, count, es, Trimmed(count, |strides|)), es) ==
            Offsets(strides, count, |strides|)
       <==> Dividing(strides, Trimmed(count, |strides|))
  {
    var l := Trimmed(count, |strides|);
    TrimmedOffsets(strides, count, |strides|);
    if Dividing(strides, l) {
      DividingSuffices(strides, count, es, l, l);
    } else if ElementBytes(TypedOffsets(strides, count, es, l), es) == Offsets(strides, count, l) {
      DividingNeeded(strides, count, es, l);
    }
  }

  /** Strides 4 and 6 pass every assertion that is left in the source, and MPI accepts the subarray. The
      second plane starts at byte 6; the datatype puts it at byte 4. */
  lemma {:induction false} StridesThatDoNotDivide(strides: seq<int>, count: seq<int>)
    requires strides == [4, 6] && count == [1, 1, 2]
    ensures Usable(strides, count, 1, Trimmed(count, 2)) && Nested(strides, count, Trimmed(count, 2))
    ensures Offsets(strides, count, 2) == [0, 6]
    ensures ElementBytes(TypedOffsets(strides, count, 1, 2), 1) == [0, 4]
  {
    PlanesUsable(strides, count);
    Planes(strides, count);
    TypedPlanes(strides, count);
    BytesOfOne([0, 4]);
  }

  lemma {:induction false} BytesOfOne(offs: seq<int>)
    ensures ElementBytes(offs, 1) == offs
  {
    if offs != [] {
      var k := |offs| - 1;
      BytesOfOne(offs[..k]);
      assert Shift(Range(1), offs[k]) == [offs[k]];
    }
  }

  lemma {:induction false} PlanesUsable(strides: seq<int>, count: seq<int>)
    requires strides == [4, 6] && count == [1, 1, 2]
    ensures Trimmed(count, 2) == 2 && Usable(strides, count, 1, 2) && Nested(strides, count, 2)
  {
    assert strides[0] == 4 && strides[1] == 6 && count[2] == 2;
  }

  lemma {:induction false} Planes(strides: seq<int>, count: seq<int>)
    requires strides == [4, 6] && count == [1, 1, 2]
    ensures Offsets(strides, count, 2) == [0, 6]
  {
    assert Range(1) == [0];
    Twice(4, 1);
    Twice(6, 2);
    assert Offsets(strides, count, 1) == [0];
  }

  lemma {:induction false} Weights(strides: seq<int>)
    requires strides == [4, 6]
    ensures Weight(strides, 1, 1) == 4 && Weight(strides, 1, 2) == 4
  {
    assert Weight(strides, 1, 1) == strides[0] / 1;
    assert strides[1] / strides[0] == 1;
    assert Weight(strides, 1, 2) == Weight(strides, 1, 1) * (strides[1] / strides[0]);
  }

  lemma {:induction false} TypedPlanes(strides: seq<int>, count: seq<int>)
    requires strides == [4, 6] && count == [1, 1, 2]
    ensures TypedOffsets(strides, count, 1, 2) == [0, 4]
  {
    Weights(strides);
    Twice(4, 1);
    Twice(4, 2);
    assert TypedOffsets(strides, count, 1, 0) == [0] by { assert count[0] / 1 == 1; assert Range(1) == [0]; }
    assert TypedOffsets(strides, count, 1, 1) == Repeat(TypedOffsets(strides, count, 1, 0), 4, 1);
    assert TypedOffsets(strides, count, 1, 2) == Repeat(TypedOffsets(strides, count, 1, 1), 4, 2);
  }

  lemma {:induction false} Twice(w: int, n: nat)
    requires n == 1 || n == 2
    ensures Repeat([0], w, n) == if n == 1 then [0] else [0, w]
  {
    RepeatStep([0], w, 1);
    assert Shift([0], 0) == [0] && Shift([0], w) == [w];
    if n == 2 { RepeatStep([0], w, 2); }
  }

  // ----- Layouts that do not meet themselves

  ghost predicate Rising(s: seq<int>, bound: int) {
    (forall i, j :: 0 <= i < j < |s| ==> s[i] < s[j]) && forall i :: 0 <= i < |s| ==> 0 <= s[i] < bound
  }

  lemma {:induction false} RisingRepeat(b: seq<int>, w: int, n: nat, bound: int)
    requires Rising(b, w) && w > 0 && bound == n * w
    ensures Rising(Repeat(b, w, n), bound)
  {
    if n > 0 {
      var before := (n - 1) * w;
      assert bound == before + w && before >= 0;
      RisingRepeat(b, w, n - 1, before);
      RisingJoin(Repeat(b, w, n - 1), b, before, w);
    }
  }

  lemma {:induction false} RisingJoin(a: seq<int>, b: seq<int>, p: int, w: int)
    requires Rising(a, p) && Rising(b, w) && p >= 0 && w > 0
    ensures Rising(a + Shift(b, p), p + w)
  {
    var c, d := a + Shift(b, p), Shift(b, p);
    forall i, j | 0 <= i < j < |c| ensures c[i] < c[j] {
      if i >= |a| { assert c[i] == d[i - |a|] && c[j] == d[j - |a|]; } else if j >= |a| { assert c[j] == d[j - |a|]; }
    }
  }

  /** When every loop stays within one step of the next, no byte is named twice. */
  lemma {:induction false} OffsetsRise(strides: seq<int>, count: seq<int>, l: nat, level: nat, bound: int)
    requires level <= l <= |strides| && l < |count| && Positive(count) && Nested(strides, count, l)
    requires forall i :: 0 <= i < l ==> strides[i] > 0
    requires bound == if level == 0 then count[0] else count[level] * strides[level - 1]
    ensures Rising(Offsets(strides, count, level), bound)
    decreases level
  {
    if level > 0 {
      var inner := if level == 1 then count[0] else count[level - 1] * strides[level - 2];
      OffsetsRise(strides, count, l, level - 1, inner);
      assert inner <= strides[level - 1] by {
        if level > 1 { var i := level - 1; assert count[i] * strides[i - 1] <= strides[i]; }
      }
      RisingRepeat(Offsets(strides, count, level - 1), strides[level - 1], count[level], bound);
    }
  }
}
