/** ARMCII_Iov_check_overlap (src/vector.c): do any two of the equally long segments overlap?
    The check exists in two forms, an all-pairs comparison and one pass through a conflict tree. */
module OverlapCheck {
  import opened ConflictTreeShape
  import opened ConflictTree

  ghost predicate SegmentsOverlap(p: int, q: int, size: int) {
    Overlap(p, p + size - 1, q, q + size - 1)
  }

  /** No two of the first i segments overlap. */
  ghost predicate Disjoint(ptrs: seq<int>, i: nat, size: int)
    requires i <= |ptrs|
  {
    forall a, b :: 0 <= a < b < i ==> !SegmentsOverlap(ptrs[a], ptrs[b], size)
  }

  /** Two different segments share an address. */
  ghost predicate AnyOverlap(ptrs: seq<int>, size: int) {
    exists i, j :: 0 <= i < j < |ptrs| && SegmentsOverlap(ptrs[i], ptrs[j], size)
  }

  /** The form compiled with NO_USE_CTREE. */
  method CheckAllPairs(ptrs: seq<int>, size: int, iovChecks: bool) returns (overlap: bool)
    requires size >= 1
    ensures overlap <==> iovChecks && AnyOverlap(ptrs, size)
  {
    if !iovChecks { return false; }
    for i := 0 to |ptrs|
      invariant forall a, b :: 0 <= a < i && a < b < |ptrs| ==> !SegmentsOverlap(ptrs[a], ptrs[b], size)
    {
      for j := i + 1 to |ptrs|
        invariant forall b :: i < b < j ==> !SegmentsOverlap(ptrs[i], ptrs[b], size)
      {
        ConflictsIsOverlap(ptrs[i], ptrs[i] + size - 1, ptrs[j], ptrs[j] + size - 1);
        if Conflicts(ptrs[i], ptrs[i] + size - 1, ptrs[j], ptrs[j] + size - 1) {
          return true;
        }
      }
    }
    return false;
  }

  ghost function Starts(s: seq<Node>): set<int> { set n | n in s :: n.lo }

  /** The stored ranges are exactly those of the first i segments. */
  ghost predicate Holds(s: seq<Node>, ptrs: seq<int>, i: nat, size: int)
    requires i <= |ptrs|
  {
    && (forall n | n in s :: n.hi == n.lo + size - 1)
    && Starts(s) == set p | p in ptrs[..i]
  }

  lemma {:induction false} HoldsNext(s: seq<Node>, s': seq<Node>, ptrs: seq<int>, i: nat, size: int, k: nat)
    requires i < |ptrs| && Holds(s, ptrs, i, size) && InsertedAt(s, s', k, ptrs[i], ptrs[i] + size - 1)
    ensures Holds(s', ptrs, i + 1, size)
  {
    var n := s'[k];
    assert forall x | x in s' :: x == n || x in s;
    assert forall x | x in s :: x in s[..k] || x in s[k..];
    assert Starts(s') == Starts(s) + {n.lo};
    assert ptrs[..i + 1] == ptrs[..i] + [ptrs[i]];
  }

  /** Overlapping a stored range and overlapping an earlier segment are the same thing. */
  lemma {:induction false} HoldsOverlap(s: seq<Node>, ptrs: seq<int>, i: nat, size: int)
    requires i < |ptrs| && Holds(s, ptrs, i, size)
    ensures HasOverlap(s, ptrs[i], ptrs[i] + size - 1) <==>
            exists j :: 0 <= j < i && SegmentsOverlap(ptrs[j], ptrs[i], size)
  {
    var lo, hi := ptrs[i], ptrs[i] + size - 1;
    if HasOverlap(s, lo, hi) {
      var k :| 0 <= k < |s| && Overlap(lo, hi, s[k].lo, s[k].hi);
      assert s[k].lo in Starts(s);
      var j :| 0 <= j < i && ptrs[..i][j] == s[k].lo;
      OverlapSymmetric(lo, hi, ptrs[j], ptrs[j] + size - 1);
      assert SegmentsOverlap(ptrs[j], ptrs[i], size);
    }
    if j :| 0 <= j < i && SegmentsOverlap(ptrs[j], ptrs[i], size) {
      assert ptrs[..i][j] in Starts(s);
      var n :| n in s && n.lo == ptrs[j];
      var k :| 0 <= k < |s| && s[k] == n;
      OverlapSymmetric(ptrs[j], ptrs[j] + size - 1, lo, hi);
      assert Overlap(lo, hi, s[k].lo, s[k].hi);
    }
  }

  lemma {:induction false} OverlapSymmetric(lo: int, hi: int, lo': int, hi': int)
    requires Overlap(lo, hi, lo', hi')
    ensures Overlap(lo', hi', lo, hi)
  {
    var a :| InRange(lo, a, hi) && InRange(lo', a, hi');
    assert InRange(lo', a, hi');
  }

  lemma {:induction false} Stored(s: seq<Node>, s': seq<Node>, ptrs: seq<int>, i: nat, size: int)
    requires i < |ptrs| && Holds(s, ptrs, i, size) && Disjoint(ptrs, i, size)
    requires !HasOverlap(s, ptrs[i], ptrs[i] + size - 1)
    requires Inserted(s, s', ptrs[i], ptrs[i] + size - 1)
    ensures Holds(s', ptrs, i + 1, size) && Disjoint(ptrs, i + 1, size)
  {
    assert Disjoint(ptrs, i + 1, size) by {
      HoldsOverlap(s, ptrs, i, size);
    }
    var k: nat :| InsertedAt(s, s', k, ptrs[i], ptrs[i] + size - 1);
    HoldsNext(s, s', ptrs, i, size, k);
  }

  lemma {:induction false} Found(s: seq<Node>, ptrs: seq<int>, i: nat, size: int)
    requires i < |ptrs| && Holds(s, ptrs, i, size) && HasOverlap(s, ptrs[i], ptrs[i] + size - 1)
    ensures AnyOverlap(ptrs, size)
  {
    HoldsOverlap(s, ptrs, i, size);
  }

  /** The debug message about a conflict reads the node it names. */
  method Report(ctree: ConflictTree, lo: int, hi: int) returns (cnode: Node)
    requires ctree.Valid() && lo <= hi && HasOverlap(InOrder(ctree.tree), lo, hi)
    ensures cnode in InOrder(ctree.tree) && Overlap(lo, hi, cnode.lo, cnode.hi)
  {
    var found, _ := ctree.Locate(lo, hi);
    cnode := found;
  }

  method CheckWithTree(ptrs: seq<int>, size: int, iovChecks: bool) returns (overlap: bool)
    requires size >= 1
    ensures overlap <==> iovChecks && AnyOverlap(ptrs, size)
  {
    if !iovChecks { return false; }
    var ctree := new ConflictTree();
    for i := 0 to |ptrs|
      invariant fresh(ctree) && ctree.Valid() && fresh(Nodes(ctree.tree))
      invariant Holds(InOrder(ctree.tree), ptrs, i, size) && Disjoint(ptrs, i, size)
    {
      ghost var s := InOrder(ctree.tree);
      var hi := ptrs[i] + size - 1;
      var conflict := ctree.Insert(ptrs[i], hi);
      if conflict {
        var cnode := Report(ctree, ptrs[i], hi);
        Found(s, ptrs, i, size);
        return true;
      }
      Stored(s, InOrder(ctree.tree), ptrs, i, size);
    }
    return false;
  }
}
