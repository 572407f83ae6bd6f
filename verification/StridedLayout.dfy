/** The byte offsets a strided description names, in order, said in three ways: as nested loops
    (the definition), as the segments of the I/O vector, and as the type map of the MPI datatype
    that ARMCII_Strided_to_dtype builds. */
module StridedLayout {
  import opened Strided

  function Shift(s: seq<int>, d: int): (r: seq<int>)
    ensures |r| == |s| && forall i :: 0 <= i < |s| ==> r[i] == s[i] + d
  {
    seq(|s|, i requires 0 <= i < |s| => s[i] + d)
  }

  function Range(n: nat): (r: seq<int>)
    ensures |r| == n && forall i :: 0 <= i < n ==> r[i] == i
  {
    seq(n, i => i)
  }

  /** base, then base shifted by stride, and so on, n times. */
  function Repeat(base: seq<int>, stride: int, n: nat): seq<int> {
    if n == 0 then [] else Repeat(base, stride, n - 1) + Shift(base, (n - 1) * stride)
  }

  /** The definition: `level` nested loops around a run of count[0] bytes, outermost loop last in
      the arrays. */
  ghost function Offsets(strides: seq<int>, count: seq<int>, level: nat): seq<int>
    requires level <= |strides| && level < |count| && Positive(count)
  {
    if level == 0 then Range(count[0])
    else Repeat(Offsets(strides, count, level - 1), strides[level - 1], count[level])
  }

  // ----- The I/O vector names the same bytes

  /** The bytes of the first k segments. */
  ghost function SegmentBytes(strides: seq<int>, c: seq<int>, bytes: nat, k: nat): seq<int>
    requires |strides| == |c| && Positive(c)
  {
    if k == 0 then []
    else SegmentBytes(strides, c, bytes, k - 1) + Shift(Range(bytes), Displacement(strides, c, k - 1))
  }

  lemma {:induction false} PrefixProduct(c: seq<int>)
    requires |c| > 1
    ensures Product(c[..|c| - 1]) == c[0] * Product(c[1..][..|c| - 2])
  {
    assert c[..|c| - 1][1..] == c[1..][..|c| - 2];
  }

  lemma {:induction false} SplitDivision(o: nat, p: int, c: int, r: nat)
    requires c > 0 && p > 0 && r < c * p
    ensures o * (c * p) + r >= 0 && (o * (c * p) + r) % c == r % c && (o * (c * p) + r) / c == o * p + r / c
    ensures r / c < p
  {
    var k := o * (c * p) + r;
    assert k == c * (o * p + r / c) + r % c by {
      assert r == c * (r / c) + r % c;
      assert o * (c * p) == c * (o * p);
      assert c * (o * p + r / c) == c * (o * p) + c * (r / c);
    }
    DivModUnique(k, c, o * p + r / c, r % c);
    DivideProduct(r, c, p);
  }

  /** The slowest digit of o * p + r is o, the others are those of r. */
  lemma {:induction false} DigitsSplit(c: seq<int>, n: nat, p: int, o: nat, r: nat, k: nat)
    requires |c| == n + 1 && n > 0 && Positive(c) && p == Product(c[..n]) && r < p && k == o * p + r
    ensures Digits(c, k) == Digits(c[..n], r) + [o]
    decreases |c|
  {
    var c' := c[1..];
    PrefixProduct(c);
    var p' := Product(c'[..n - 1]);
    ProductPositive(c'[..n - 1]);
    SplitDivision(o, p', c[0], r);
    if n == 1 {
      assert c'[..0] == [] && p' == 1;
      DivModUnique(r, c[0], 0, r);
      assert c[..1] == [c[0]];
    } else {
      assert c[..n][1..] == c'[..n - 1];
      DigitsSplit(c', n - 1, p', o, r / c[0], o * p' + r / c[0]);
    }
  }

  lemma {:induction false} DotSnoc(a: seq<int>, b: seq<int>, x: int, y: int)
    requires |a| == |b|
    ensures Dot(a + [x], b + [y]) == Dot(a, b) + x * y
  {
    if a == [] {
      assert Dot([x], [y]) == x * y + Dot([], []);
      assert a + [x] == [x] && b + [y] == [y];
    } else {
      DotSnoc(a[1..], b[1..], x, y);
      assert (a + [x])[1..] == a[1..] + [x] && (b + [y])[1..] == b[1..] + [y];
    }
  }

  /** Splitting off the outermost loop. */
  lemma {:induction false} OuterDigit(strides: seq<int>, c: seq<int>, n: nat, p: int, o: nat, r: nat, k: nat)
    requires |strides| == |c| == n + 1 && Positive(c) && p == Product(c[..n]) && r < p && k == o * p + r
    ensures Displacement(strides, c, k) == Displacement(strides[..n], c[..n], r) + o * strides[n]
  {
    if n == 0 {
      assert p == 1 && r == 0 && Digits(c, k) == [o];
      assert Dot(strides, [o]) == strides[0] * o + Dot(strides[1..], [o][1..]);
    } else {
      DigitsSplit(c, n, p, o, r, k);
      assert strides == strides[..n] + [strides[n]];
      DotSnoc(strides[..n], Digits(c[..n], r), strides[n], o);
    }
  }

  lemma {:induction false} ShiftConcat(a: seq<int>, b: seq<int>, d: int)
    ensures Shift(a + b, d) == Shift(a, d) + Shift(b, d)
  {
  }

  lemma {:induction false} ShiftTwice(a: seq<int>, d: int, e: int)
    ensures Shift(Shift(a, d), e) == Shift(a, d + e)
  {
  }

  /** Segment k + r - 1 of the whole is segment r - 1 of a block, shifted with the block. */
  lemma {:induction false} NextSegment(strides: seq<int>, c: seq<int>, bytes: nat, n: nat, p: int, o: nat, r: nat,
                                       k: nat)
    requires |strides| == |c| == n + 1 && Positive(c) && p == Product(c[..n]) && 0 < r <= p && k == o * p && k + r > 0
    ensures SegmentBytes(strides, c, bytes, k + r) == SegmentBytes(strides, c, bytes, k + r - 1)
              + Shift(Shift(Range(bytes), Displacement(strides[..n], c[..n], r - 1)), o * strides[n])
  {
    var e, d, at := Displacement(strides[..n], c[..n], r - 1), o * strides[n], Displacement(strides, c, k + r - 1);
    assert at == e + d by { OuterDigit(strides, c, n, p, o, r - 1, k + r - 1); }
    ShiftTwice(Range(bytes), e, d);
    assert Shift(Range(bytes), at) == Shift(Shift(Range(bytes), e), d);
    assert SegmentBytes(strides, c, bytes, k + r) ==
           SegmentBytes(strides, c, bytes, k + r - 1) + Shift(Range(bytes), at);
  }

  lemma {:induction false} ExtendBlock(whole: seq<int>, inner: seq<int>, last: seq<int>, d: int)
    ensures whole + Shift(inner, d) + Shift(last, d) == whole + Shift(inner + last, d)
  {
    ShiftConcat(inner, last, d);
    Reassociate(whole, Shift(inner, d), Shift(last, d));
  }

  lemma {:induction false} InnerBlock(strides: seq<int>, c: seq<int>, bytes: nat, n: nat, p: int, o: nat, r: nat,
                                      k: nat)
    requires |strides| == |c| == n + 1 && Positive(c) && p == Product(c[..n]) && r <= p && k == o * p && k + r >= 0
    ensures SegmentBytes(strides, c, bytes, k + r) ==
            SegmentBytes(strides, c, bytes, k) + Shift(SegmentBytes(strides[..n], c[..n], bytes, r), o * strides[n])
    decreases r
  {
    if r == 0 {
      Reassociate(SegmentBytes(strides, c, bytes, k), [], []);
      assert Shift([], o * strides[n]) == [];
    } else {
      InnerBlock(strides, c, bytes, n, p, o, r - 1, k);
      NextSegment(strides, c, bytes, n, p, o, r, k);
      var d, last := o * strides[n], Shift(Range(bytes), Displacement(strides[..n], c[..n], r - 1));
      var whole, inner := SegmentBytes(strides, c, bytes, k), SegmentBytes(strides[..n], c[..n], bytes, r - 1);
      ExtendBlock(whole, inner, last, d);
      assert SegmentBytes(strides, c, bytes, k + r) == whole + Shift(inner, d) + Shift(last, d);
      assert SegmentBytes(strides[..n], c[..n], bytes, r) == inner + last;
    }
  }

  lemma {:induction false} Reassociate(a: seq<int>, b: seq<int>, c: seq<int>)
    ensures (a + b) + c == a + (b + c)
  {
  }

  lemma {:induction false} OneFewer(o: nat, p: int)
    requires o > 0 && p > 0
    ensures (o - 1) * p == o * p - p >= 0
  {
  }

  lemma {:induction false} OuterLoop(strides: seq<int>, c: seq<int>, bytes: nat, n: nat, p: int, o: nat, k: nat)
    requires |strides| == |c| == n + 1 && Positive(c) && p == Product(c[..n]) > 0 && k == o * p
    ensures SegmentBytes(strides, c, bytes, k) == Repeat(SegmentBytes(strides[..n], c[..n], bytes, p), strides[n], o)
    decreases o
  {
    if o > 0 {
      var j := k - p;
      OneFewer(o, p);
      OuterLoop(strides, c, bytes, n, p, o - 1, j);
      InnerBlock(strides, c, bytes, n, p, o - 1, p, j);
    }
  }

  lemma {:induction false} SegmentsUpTo(strides: seq<int>, count: seq<int>, level: nat)
    requires level <= |strides| && level < |count| && Positive(count)
    ensures Product(count[1..level + 1]) >= 0
    ensures SegmentBytes(strides[..level], count[1..level + 1], count[0], Product(count[1..level + 1])) ==
            Offsets(strides, count, level)
  {
    var c := count[1..level + 1];
    ProductPositive(c);
    if level == 0 {
      assert c == [] && strides[..0] == [];
      assert SegmentBytes([], [], count[0], 1) == SegmentBytes([], [], count[0], 0) + Shift(Range(count[0]), 0);
    } else {
      var n, s := level - 1, strides[..level];
      SegmentsUpTo(strides, count, n);
      assert c[..n] == count[1..n + 1] && s[..n] == strides[..n] && c == c[..n] + [count[level]];
      ProductSnoc(c[..n], count[level]);
      ProductPositive(c[..n]);
      OuterLoop(s, c, count[0], n, Product(c[..n]), count[level], Product(c));
    }
  }

  /** The segments of the I/O vector, taken in order, are the nested loops. */
  lemma {:induction false} SegmentsAreNestedLoops(strides: seq<int>, count: seq<int>)
    requires |count| == |strides| + 1 && Positive(count)
    ensures Product(count[1..]) >= 0
    ensures SegmentBytes(strides, count[1..], count[0], Product(count[1..])) == Offsets(strides, count, |strides|)
  {
    SegmentsUpTo(strides, count, |strides|);
    assert strides[..|strides|] == strides && count[1..|strides| + 1] == count[1..];
  }
}
