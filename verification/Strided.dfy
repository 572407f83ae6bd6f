/** Strided transfers (src/strided.c): what bytes a strided description names, and the odometer
    that turns it into an I/O vector. */
module Strided {

  ghost predicate Positive(c: seq<int>) { forall i :: 0 <= i < |c| ==> c[i] > 0 }

  function Product(c: seq<int>): int { if c == [] then 1 else c[0] * Product(c[1..]) }

  lemma {:induction false} ProductPositive(c: seq<int>)
    requires Positive(c)
    ensures Product(c) > 0
  {
    if c != [] { ProductPositive(c[1..]); }
  }

  lemma {:induction false} ProductSnoc(c: seq<int>, x: int)
    ensures Product(c + [x]) == Product(c) * x
  {
    if c == [] {
      assert c + [x] == [x];
      assert Product([x]) == x * Product([]);
    } else {
      ProductSnoc(c[1..], x);
      assert (c + [x])[1..] == c[1..] + [x];
      calc {
        Product(c + [x]);
        c[0] * (Product(c[1..]) * x);
        { Associate(c[0], Product(c[1..]), x); }
        Product(c) * x;
      }
    }
  }

  lemma {:induction false} Associate(a: int, b: int, c: int)
    ensures a * (b * c) == (a * b) * c
  {
  }

  /** The mixed-radix digits of k, fastest first; the slowest digit is not reduced. */
  ghost function Digits(c: seq<int>, k: nat): (d: seq<int>)
    requires c != [] && Positive(c)
    ensures |d| == |c|
  {
    if |c| == 1 then [k] else [k % c[0]] + Digits(c[1..], k / c[0])
  }

  ghost function Dot(a: seq<int>, b: seq<int>): int
    requires |a| == |b|
  {
    if a == [] then 0 else a[0] * b[0] + Dot(a[1..], b[1..])
  }

  /** Displacement of segment number k. */
  ghost function Displacement(strides: seq<int>, c: seq<int>, k: nat): int
    requires |strides| == |c| && Positive(c)
  {
    if c == [] then 0 else Dot(strides, Digits(c, k))
  }

  lemma {:induction false} DivideProduct(k: nat, c: int, p: int)
    requires c > 0 && p > 0
    ensures k / c < p <==> k < c * p
  {
    var q := k / c;
    assert c * q <= k < c * (q + 1);
    if q < p { assert c * (q + 1) <= c * p; } else { assert c * p <= c * q; }
  }

  /** The slowest digit reaches its count exactly at the product of the counts. */
  lemma {:induction false} LastDigit(c: seq<int>, k: nat)
    requires c != [] && Positive(c)
    ensures Digits(c, k)[|c| - 1] < c[|c| - 1] <==> k < Product(c)
  {
    if |c| == 1 {
      assert Product(c) == c[0] * Product([]);
    } else {
      LastDigit(c[1..], k / c[0]);
      ProductPositive(c[1..]);
      DivideProduct(k, c[0], Product(c[1..]));
    }
  }

  lemma {:induction false} Successor(q: nat, c: int)
    requires c > 0
    ensures q % c + 1 < c ==> (q + 1) / c == q / c && (q + 1) % c == q % c + 1
    ensures q % c + 1 >= c ==> (q + 1) / c == q / c + 1 && (q + 1) % c == 0
  {
    var d, r := q / c, q % c;
    assert q == c * d + r;
    if r + 1 < c {
      DivModUnique(q + 1, c, d, r + 1);
    } else {
      assert q + 1 == c * (d + 1);
      DivModUnique(q + 1, c, d + 1, 0);
    }
  }

  lemma {:induction false} Monotone(c: int, a: int, b: int)
    requires c > 0 && a <= b
    ensures c * a <= c * b
  {
  }

  lemma {:induction false} DivModUnique(x: int, c: int, d: int, r: int)
    requires c > 0 && 0 <= r < c && x == c * d + r
    ensures x / c == d && x % c == r
  {
    var d' := x / c;
    assert c * d' <= x < c * d' + c;
    assert c * (d + 1) == c * d + c && c * (d' + 1) == c * d' + c;
    if d < d' { Monotone(c, d + 1, d'); }
    if d > d' { Monotone(c, d' + 1, d); }
  }

  ghost function Bump(s: seq<int>): seq<int>
    requires s != []
  {
    [s[0] + 1] + s[1..]
  }

  /** Overflowing indices are reset, carrying one outwards, from the fastest to the slowest. */
  ghost function Carried(s: seq<int>, c: seq<int>): (r: seq<int>)
    requires |s| == |c| && c != []
    ensures |r| == |c|
    decreases |c|
  {
    if |c| == 1 then s
    else if s[0] >= c[0] then [0] + Carried(Bump(s[1..]), c[1..])
    else [s[0]] + Carried(s[1..], c[1..])
  }

  lemma {:induction false} NothingToCarry(c: seq<int>, k: nat)
    requires c != [] && Positive(c)
    ensures Carried(Digits(c, k), c) == Digits(c, k)
  {
    if |c| > 1 { NothingToCarry(c[1..], k / c[0]); }
  }

  /** Bumping the fastest digit and carrying is adding one. */
  lemma {:induction false} CarriedIsSuccessor(c: seq<int>, k: nat)
    requires c != [] && Positive(c)
    ensures Carried(Bump(Digits(c, k)), c) == Digits(c, k + 1)
  {
    if |c| > 1 {
      var d := Digits(c, k);
      Successor(k, c[0]);
      assert Bump(d)[1..] == Digits(c[1..], k / c[0]);
      if d[0] + 1 >= c[0] {
        CarriedIsSuccessor(c[1..], k / c[0]);
      } else {
        NothingToCarry(c[1..], k / c[0]);
      }
    }
  }

  lemma {:induction false} CarryStep(done: seq<int>, s: seq<int>, c: seq<int>, x: int, t: seq<int>)
    requires |s| == |c| > 1 && |t| == |s| - 1
    requires if s[0] >= c[0] then x == 0 && t == Bump(s[1..]) else x == s[0] && t == s[1..]
    ensures done + Carried(s, c) == (done + [x]) + Carried(t, c[1..])
  {
    assert Carried(s, c) == [x] + Carried(t, c[1..]);
    assert done + ([x] + Carried(t, c[1..])) == (done + [x]) + Carried(t, c[1..]);
  }

  /** One tick of the odometer: add one to the fastest index and carry outwards. */
  method Advance(idx: array<int>, c: seq<int>)
    requires idx.Length == |c| && c != []
    modifies idx
    ensures idx[..] == Carried(Bump(old(idx[..])), c)
  {
    idx[0] := idx[0] + 1;
    ghost var goal := Carried(idx[..], c);
    for i := 0 to |c| - 1
      invariant goal == idx[..i] + Carried(idx[i..], c[i..])
    {
      ghost var s, done := idx[i..], idx[..i];
      assert s[0] == idx[i] && s[1] == idx[i + 1] && c[i..][1..] == c[i + 1..];
      if idx[i] >= c[i] {
        idx[i] := 0;
        idx[i + 1] := idx[i + 1] + 1;
        assert idx[i + 1..] == Bump(s[1..]);
      } else {
        assert idx[i + 1..] == s[1..];
      }
      assert idx[..i + 1] == done + [idx[i]];
      CarryStep(done, s, c[i..], idx[i], idx[i + 1..]);
    }
    assert Carried(idx[|c| - 1..], c[|c| - 1..]) == idx[|c| - 1..];
    assert goal == idx[..];
  }

  /** The displacement of the current index vector from both bases. */
  method Displace(idx: array<int>, a: seq<int>, b: seq<int>) returns (x: int, y: int)
    requires idx.Length == |a| == |b|
    ensures x == Dot(a, idx[..]) && y == Dot(b, idx[..])
  {
    x, y := 0, 0;
    ghost var d := idx[..];
    for i := 0 to |a|
      invariant x + Dot(a[i..], d[i..]) == Dot(a, d) && y + Dot(b[i..], d[i..]) == Dot(b, d)
    {
      assert a[i..][1..] == a[i + 1..] && b[i..][1..] == b[i + 1..] && d[i..][1..] == d[i + 1..];
      x, y := x + a[i] * idx[i], y + b[i] * idx[i];
    }
  }

  method Count(count: seq<int>) returns (len: int)
    requires count != []
    ensures len == Product(count[1..])
  {
    len := 1;
    for i := 0 to |count| - 1
      invariant len == Product(count[1..i + 1])
    {
      ProductSnoc(count[1..i + 1], count[i + 1]);
      assert count[1..i + 2] == count[1..i + 1] + [count[i + 1]];
      len := len * count[i + 1];
    }
    assert count[1..|count|] == count[1..];
  }

  lemma {:induction false} FirstDigits(c: seq<int>)
    requires c != [] && Positive(c)
    ensures Digits(c, 0) == seq(|c|, _ => 0)
  {
    if |c| > 1 { FirstDigits(c[1..]); }
  }

  method SetEntry(a: array<int>, k: nat, p: int)
    requires k < a.Length
    modifies a
    ensures a[..] == old(a[..])[k := p]
  {
    a[k] := p;
  }

  /** The first k entries are the base plus the stride-weighted digits of their position. */
  ghost predicate Entries(ptrs: seq<int>, base: int, strides: seq<int>, c: seq<int>, k: nat)
    requires |strides| == |c| && Positive(c)
  {
    k <= |ptrs| && forall i :: 0 <= i < k ==> ptrs[i] == base + Displacement(strides, c, i)
  }

  lemma {:induction false} NextEntry(ptrs: seq<int>, base: int, strides: seq<int>, c: seq<int>, k: nat, p: int)
    requires |strides| == |c| && Positive(c) && k < |ptrs| && Entries(ptrs, base, strides, c, k)
    requires p == base + Displacement(strides, c, k)
    ensures Entries(ptrs[k := p], base, strides, c, k + 1)
  {
  }

  /** One round of the loop: write the entry for the current index vector and advance it. */
  method TakeEntry(src: int, srcStrides: seq<int>, dst: int, dstStrides: seq<int>, c: seq<int>, xfer: nat,
                   idx: array<int>, srcPtrs: array<int>, dstPtrs: array<int>)
    requires |srcStrides| == |dstStrides| == |c| == idx.Length && c != [] && Positive(c)
    requires idx != srcPtrs && idx != dstPtrs && srcPtrs != dstPtrs && xfer < srcPtrs.Length == dstPtrs.Length
    requires idx[..] == Digits(c, xfer)
    requires Entries(srcPtrs[..], src, srcStrides, c, xfer) && Entries(dstPtrs[..], dst, dstStrides, c, xfer)
    modifies idx, srcPtrs, dstPtrs
    ensures idx[..] == Digits(c, xfer + 1)
    ensures Entries(srcPtrs[..], src, srcStrides, c, xfer + 1) && Entries(dstPtrs[..], dst, dstStrides, c, xfer + 1)
  {
    var dispSrc, dispDst := Displace(idx, srcStrides, dstStrides);
    NextEntry(srcPtrs[..], src, srcStrides, c, xfer, src + dispSrc);
    NextEntry(dstPtrs[..], dst, dstStrides, c, xfer, dst + dispDst);
    SetEntry(srcPtrs, xfer, src + dispSrc);
    SetEntry(dstPtrs, xfer, dst + dispDst);
    ghost var s, d := srcPtrs[..], dstPtrs[..];
    CarriedIsSuccessor(c, xfer);
    Advance(idx, c);
    assert srcPtrs[..] == s && dstPtrs[..] == d;
  }

  /** ARMCII_Strided_to_iov: entry k of both pointer arrays is the base plus the stride-weighted
      digits of k, the arrays are exactly filled, and both assertions of the source hold. */
  method StridedToIov(src: int, srcStrides: seq<int>, dst: int, dstStrides: seq<int>, count: seq<int>, levels: nat)
    returns (bytes: int, srcPtrs: array<int>, dstPtrs: array<int>)
    requires |srcStrides| == |dstStrides| == levels && |count| == levels + 1 && Positive(count)
    ensures bytes == count[0] && srcPtrs.Length == dstPtrs.Length == Product(count[1..])
    ensures forall k :: 0 <= k < srcPtrs.Length ==> srcPtrs[k] == src + Displacement(srcStrides, count[1..], k)
    ensures forall k :: 0 <= k < dstPtrs.Length ==> dstPtrs[k] == dst + Displacement(dstStrides, count[1..], k)
    ensures fresh(srcPtrs) && fresh(dstPtrs)
  {
    bytes := count[0];
    var len := Count(count);
    ghost var c := count[1..];
    ProductPositive(c);
    srcPtrs, dstPtrs := new int[len], new int[len];
    if levels == 0 {
      srcPtrs[0], dstPtrs[0] := src, dst;
      return;
    }
    var idx := new int[levels](_ => 0);
    FirstDigits(c);
    var xfer := 0;
    LastDigit(c, 0);
    while idx[levels - 1] < count[levels]
      invariant 0 <= xfer <= len && idx[..] == Digits(c, xfer)
      invariant idx[levels - 1] < count[levels] <==> xfer < len
      invariant Entries(srcPtrs[..], src, srcStrides, c, xfer) && Entries(dstPtrs[..], dst, dstStrides, c, xfer)
      decreases len - xfer
    {
      assert xfer < len;
      TakeEntry(src, srcStrides, dst, dstStrides, count[1..], xfer, idx, srcPtrs, dstPtrs);
      LastDigit(c, xfer + 1);
      assert idx[levels - 1] == idx[..][levels - 1];
      xfer := xfer + 1;
    }
    assert xfer == len;
  }
}
