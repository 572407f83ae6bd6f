/** The blocks of a group that doubles by merging neighbours (src/groups.c): arithmetic of the partner
    computation. */
module GroupBlocks {

  function Pow2(r: nat): (p: nat)
    ensures p >= 1
  {
    if r == 0 then 1 else 2 * Pow2(r - 1)
  }

  /** Where the block of i starts at merge size m. */
  function Start(i: nat, m: nat): (s: nat)
    requires m > 0
    ensures s <= i < s + m
  {
    i - i % m
  }

  function Interval(lo: nat, hi: nat): (s: seq<nat>)
    requires lo <= hi
    ensures |s| == hi - lo && forall k :: 0 <= k < |s| ==> s[k] == lo + k
  {
    seq(hi - lo, k requires 0 <= k => lo + k)
  }

  function Min(a: nat, b: nat): nat { if a < b then a else b }

  /** The members of the block of i, in order, in a group of n. */
  function Block(i: nat, m: nat, n: nat): (b: seq<nat>)
    requires m > 0 && i < n
    ensures |b| == Min(Start(i, m) + m, n) - Start(i, m) && forall k :: 0 <= k < |b| ==> b[k] == Start(i, m) + k
    ensures |b| > 0
  {
    Interval(Start(i, m), Min(Start(i, m) + m, n))
  }

  /** The source's gid, and what it computes from it. */
  predicate High(i: nat, m: nat)
    requires m > 0
  {
    i / m % 2 != 0
  }

  predicate Skips(i: nat, m: nat, n: nat)
    requires m > 0
  {
    i / m % 2 == 0 && (i / m + 1) * m >= n
  }

  function Partner(i: nat, m: nat): int
    requires m > 0
  {
    if i / m % 2 == 0 then (i / m + 1) * m else (i / m - 1) * m
  }

  lemma {:induction false} Divide(i: nat, m: nat)
    requires m > 0
    ensures Start(i, m) == i / m * m
  {
    assert i == m * (i / m) + i % m;
  }

  lemma {:induction false} Unique(i: nat, m: nat, q: nat, r: nat, p: nat)
    requires m > 0 && p == q * m && i == p + r && r < m
    ensures i / m == q && i % m == r
  {
    var d := i / m - q;
    assert i == m * (i / m) + i % m;
    assert d * m == i / m * m - q * m;
    assert d * m == r - i % m;
    assert d >= 1 ==> d * m >= m;
    assert d <= -1 ==> d * m + m <= 0;
  }

  lemma {:induction false} NextStart(i: nat, m: nat, g: nat)
    requires m > 0 && g == i / m
    ensures i / (2 * m) == g / 2 && Start(i, 2 * m) == if g % 2 == 0 then g * m else g * m - m
  {
    Divide(i, m);
    var h := g / 2;
    var p := h * (2 * m);
    assert g * m == p + (g % 2) * m by { assert g == 2 * h + g % 2; }
    Unique(i, 2 * m, h, i - p, p);
  }

  /** The partner computation in terms of block starts. */
  lemma {:induction false} PartnerStart(i: nat, m: nat, n: nat)
    requires m > 0
    ensures Partner(i, m) == if High(i, m) then Start(i, m) - m else Start(i, m) + m
    ensures Skips(i, m, n) <==> !High(i, m) && Start(i, m) + m >= n
    ensures Start(i, 2 * m) == if High(i, m) then Start(i, m) - m else Start(i, m)
    ensures High(i, m) ==> Start(i, m) >= m
  {
    var g := i / m;
    Divide(i, m);
    NextStart(i, m, g);
    assert (g + 1) * m == g * m + m && (g - 1) * m == g * m - m;
  }

  /** Everyone in a block computes the same. */
  lemma {:induction false} SameBlock(i: nat, j: nat, m: nat)
    requires m > 0 && Start(i, m) <= j < Start(i, m) + m
    ensures j / m == i / m && Start(j, m) == Start(i, m)
  {
    Divide(i, m);
    Unique(j, m, i / m, j - Start(i, m), i / m * m);
  }

  lemma {:induction false} StartOfStart(i: nat, m: nat)
    requires m > 0
    ensures Start(i, m) % m == 0
  {
    Divide(i, m);
    Unique(Start(i, m), m, i / m, 0, i / m * m);
  }

  lemma {:induction false} Pow2Monotone(q: nat, p: nat)
    requires q < p
    ensures 2 * Pow2(q) <= Pow2(p)
    decreases p
  {
    if q < p - 1 { Pow2Monotone(q, p - 1); }
  }

  /** A multiple of a larger power of two is an even multiple of a smaller one. */
  lemma {:induction false} EvenMultiple(s: nat, q: nat, p: nat)
    requires q < p && s % Pow2(p) == 0
    ensures s % (2 * Pow2(q)) == 0
    decreases p
  {
    if q < p - 1 {
      HalfDivides(s, Pow2(p - 1));
      EvenMultiple(s, q, p - 1);
    }
  }

  lemma {:induction false} HalfDivides(s: nat, m: nat)
    requires m > 0 && s % (2 * m) == 0
    ensures s % m == 0
  {
    var k := s / (2 * m);
    assert s == 2 * m * k;
    Unique(s, m, 2 * k, 0, 2 * k * m);
  }

  lemma {:induction false} OddMultiple(s: nat, m: nat)
    requires m > 0 && s >= m && s % (2 * m) == 0
    ensures (s - m) % (2 * m) == m
  {
    var k := s / (2 * m);
    assert s == 2 * m * k;
    assert k >= 1;
    Unique(s - m, 2 * m, k - 1, m, (k - 1) * (2 * m));
  }

  lemma {:induction false} EvenStart(i: nat, m: nat)
    requires m > 0 && Start(i, m) % (2 * m) == 0
    ensures !High(i, m)
  {
    PartnerStart(i, m, 0);
    StartOfStart(i, 2 * m);
    if Start(i, m) >= m { OddMultiple(Start(i, m), m); }
  }

  /** A merge takes place at this round for this member. */
  ghost predicate InRound(i: nat, r: nat, n: nat) { i < n && Pow2(r) < n && !Skips(i, Pow2(r), n) }

  /** A block takes part in a merge at one round only: a later round sees it at an even position with
      no right neighbour. */
  lemma {:induction false} RoundUnique(i: nat, q: nat, j: nat, p: nat, n: nat)
    requires InRound(i, q, n) && InRound(j, p, n) && Block(i, Pow2(q), n) == Block(j, Pow2(p), n)
    ensures q == p && Start(i, Pow2(q)) == Start(j, Pow2(p))
  {
    var b := Block(i, Pow2(q), n);
    assert b[0] == Start(i, Pow2(q)) && b[0] == Start(j, Pow2(p));
    if q < p { RoundOrder(i, q, j, p, n); }
    if p < q { RoundOrder(j, p, i, q, n); }
  }

  lemma {:induction false} RoundOrder(i: nat, q: nat, j: nat, p: nat, n: nat)
    requires i < n && j < n && q < p && Start(i, Pow2(q)) == Start(j, Pow2(p))
    requires |Block(i, Pow2(q), n)| == |Block(j, Pow2(p), n)|
    ensures Skips(i, Pow2(q), n)
  {
    Pow2Monotone(q, p);
    StartOfStart(j, Pow2(p));
    EvenMultiple(Start(j, Pow2(p)), q, p);
    EvenStart(i, Pow2(q));
    PartnerStart(i, Pow2(q), n);
  }

  /** Two leaders that name each other are in the same round. */
  lemma {:induction false} NamedInSameRound(a: nat, q: nat, b: nat, p: nat, n: nat)
    requires InRound(a, q, n) && InRound(b, p, n) && Start(a, Pow2(q)) == a && Start(b, Pow2(p)) == b
    requires Partner(a, Pow2(q)) == b && Partner(b, Pow2(p)) == a
    ensures q == p && High(a, Pow2(q)) != High(b, Pow2(p))
  {
    PartnerStart(a, Pow2(q), n);
    PartnerStart(b, Pow2(p), n);
    if q < p { Pow2Monotone(q, p); }
    if p < q { Pow2Monotone(p, q); }
  }

  /** The partner of a block exists, starts a block, and names this block's leader. */
  lemma {:induction false} PartnersNameEachOther(i: nat, r: nat, n: nat)
    requires InRound(i, r, n)
    ensures var m := Pow2(r); 0 <= Partner(i, m) < n && Start(Partner(i, m), m) == Partner(i, m)
    ensures var m := Pow2(r); InRound(Partner(i, m), r, n) && Partner(Partner(i, m), m) == Start(i, m)
    ensures var m := Pow2(r); High(Partner(i, m), m) != High(i, m)
  {
    var m := Pow2(r);
    PartnerStart(i, m, n);
    PartnerPlace(i, m);
    PartnerStart(Partner(i, m), m, n);
  }

  /** The partner is the first of the next block on one side. */
  lemma {:induction false} PartnerPlace(i: nat, m: nat)
    requires m > 0
    ensures Partner(i, m) >= 0 && Start(Partner(i, m), m) == Partner(i, m) && High(Partner(i, m), m) != High(i, m)
  {
    var g := i / m;
    var h := if g % 2 == 0 then g + 1 else g - 1;
    assert h * m >= 0;
    Unique(h * m, m, h, 0, h * m);
  }

  /** Low block first, the two blocks are the block of the next round. */
  lemma {:induction false} MergedBlock(i: nat, r: nat, n: nat)
    requires InRound(i, r, n)
    ensures var m := Pow2(r); 0 <= Partner(i, m) < n
    ensures var m := Pow2(r); var p := Partner(i, m);
            Block(i, Pow2(r + 1), n) ==
            if High(i, m) then Block(p, m, n) + Block(i, m, n)
            else Block(i, m, n) + Block(p, m, n)
  {
    var m := Pow2(r);
    PartnersNameEachOther(i, r, n);
    PartnerStart(i, m, n);
    var p := Partner(i, m);
    var low, end := Start(i, 2 * m), Min(Start(i, 2 * m) + 2 * m, n);
    assert Pow2(r + 1) == 2 * m;
    IntervalsJoin(low, low + m, end);
  }

  lemma {:induction false} IntervalsJoin(a: nat, b: nat, c: nat)
    requires a <= b <= c
    ensures Interval(a, c) == Interval(a, b) + Interval(b, c)
  {
  }

  /** A block without a right neighbour is the block of the next round. */
  lemma {:induction false} SkippedBlock(i: nat, r: nat, n: nat)
    requires i < n && Skips(i, Pow2(r), n)
    ensures Block(i, Pow2(r + 1), n) == Block(i, Pow2(r), n)
  {
    PartnerStart(i, Pow2(r), n);
  }

  /** When the merge size has reached the group size, the block is the group. */
  lemma {:induction false} LastBlock(i: nat, m: nat, n: nat)
    requires i < n && m >= n
    ensures Block(i, m, n) == Interval(0, n)
  {
    Unique(i, m, 0, i, 0);
  }
}
