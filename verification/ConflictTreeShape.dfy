/** The shape of the conflict tree of src/conflict_tree.c, as mathematics.

    A `Node` is the C record.  A `Tree` says which nodes hang where; a `Path` is a tree with
    one hole, which is what an upward walk along the parent pointers sees.  `Shaped` and
    `PathShaped` tie both to the pointer and height fields of the nodes. */
module ConflictTreeShape {

  class Node {
    const lo: int
    const hi: int
    var height: int
    var parent: Node?
    var left: Node?
    var right: Node?

    constructor (lo: int, hi: int)
      ensures this.lo == lo && this.hi == hi
      ensures height == 1 && parent == null && left == null && right == null
    {
      this.lo, this.hi := lo, hi;
      height, parent, left, right := 1, null, null, null;
    }
  }

  datatype Tree = Leaf | Bin(node: Node, left: Tree, right: Tree)

  datatype Path =
    | Top
    | InLeft(node: Node, up: Path, right: Tree)   // the hole is the left child of node
    | InRight(node: Node, left: Tree, up: Path)   // the hole is the right child of node

  function Max(a: int, b: int): int { if a > b then a else b }

  ghost function Height(t: Tree): nat {
    match t
    case Leaf => 0
    case Bin(_, l, r) => 1 + Max(Height(l), Height(r))
  }

  ghost function Size(t: Tree): nat {
    match t
    case Leaf => 0
    case Bin(_, l, r) => 1 + Size(l) + Size(r)
  }

  ghost function InOrder(t: Tree): seq<Node> {
    match t
    case Leaf => []
    case Bin(n, l, r) => InOrder(l) + [n] + InOrder(r)
  }

  ghost function Nodes(t: Tree): set<Node> {
    match t
    case Leaf => {}
    case Bin(n, l, r) => Nodes(l) + {n} + Nodes(r)
  }

  ghost function PathNodes(p: Path): set<Node> {
    match p
    case Top => {}
    case InLeft(n, up, r) => PathNodes(up) + {n} + Nodes(r)
    case InRight(n, l, up) => PathNodes(up) + {n} + Nodes(l)
  }

  ghost function Root(t: Tree): Node? { if t.Leaf? then null else t.node }

  ghost function Bottom(p: Path): Node? { if p.Top? then null else p.node }

  /** What comes before and after the hole in key order. */
  ghost function Before(p: Path): seq<Node> {
    match p
    case Top => []
    case InLeft(_, up, _) => Before(up)
    case InRight(n, l, up) => Before(up) + InOrder(l) + [n]
  }

  ghost function After(p: Path): seq<Node> {
    match p
    case Top => []
    case InLeft(n, up, r) => [n] + InOrder(r) + After(up)
    case InRight(_, _, up) => After(up)
  }

  /** AVL balance: the heights of siblings differ by at most one, everywhere. */
  ghost predicate Balanced(t: Tree) {
    match t
    case Leaf => true
    case Bin(_, l, r) => -1 <= Height(l) - Height(r) <= 1 && Balanced(l) && Balanced(r)
  }

  /** Every range is nonempty and lies strictly below the next ones. */
  ghost predicate Ascending(s: seq<Node>) {
    && (forall i :: 0 <= i < |s| ==> s[i].lo <= s[i].hi)
    && (forall i, j :: 0 <= i < j < |s| ==> s[i].hi < s[j].lo)
  }

  /** No node hangs in two places. */
  ghost predicate Distinct(t: Tree) {
    match t
    case Leaf => true
    case Bin(n, l, r) =>
      && n !in Nodes(l) && n !in Nodes(r) && Nodes(l) !! Nodes(r)
      && Distinct(l) && Distinct(r)
  }

  ghost predicate PathDistinct(p: Path) {
    match p
    case Top => true
    case InLeft(n, up, r) =>
      n !in Nodes(r) && n !in PathNodes(up) && Nodes(r) !! PathNodes(up) && Distinct(r) && PathDistinct(up)
    case InRight(n, l, up) =>
      n !in Nodes(l) && n !in PathNodes(up) && Nodes(l) !! PathNodes(up) && Distinct(l) && PathDistinct(up)
  }

  /** The mutable fields of one node, and of a set of nodes. */
  datatype Cell = Cell(height: int, parent: Node?, left: Node?, right: Node?)

  type Store = map<Node, Cell>

  ghost function Snapshot(s: set<Node>): (m: Store)
    reads s
    ensures m.Keys == s
  {
    map n | n in s :: Cell(n.height, n.parent, n.left, n.right)
  }

  /** The pointers from root downwards spell t, parent pointers mirror child pointers, and every
      stored height is exact. */
  ghost predicate Shaped(t: Tree, root: Node?, parent: Node?, m: Store) {
    match t
    case Leaf => root == null
    case Bin(n, l, r) =>
      && root == n && n in m
      && m[n].parent == parent && m[n].height == Height(t)
      && Shaped(l, m[n].left, n, m)
      && Shaped(r, m[n].right, n, m)
  }

  /** The pointers from the hole up to the root spell p.  The hole is filled by child, and the
      stored heights on the way up are those of a balanced tree whose hole has height h. */
  ghost predicate PathShaped(p: Path, child: Node?, h: nat, m: Store) {
    match p
    case Top => true
    case InLeft(n, up, r) =>
      && n in m && m[n].left == child && m[n].parent == Bottom(up)
      && Shaped(r, m[n].right, n, m) && Balanced(r)
      && -1 <= h - Height(r) <= 1 && m[n].height == 1 + Max(h, Height(r))
      && PathShaped(up, n, 1 + Max(h, Height(r)), m)
    case InRight(n, l, up) =>
      && n in m && m[n].right == child && m[n].parent == Bottom(up)
      && Shaped(l, m[n].left, n, m) && Balanced(l)
      && -1 <= h - Height(l) <= 1 && m[n].height == 1 + Max(h, Height(l))
      && PathShaped(up, n, 1 + Max(h, Height(l)), m)
  }

  ghost predicate Agree(m: Store, m': Store, s: set<Node>) {
    forall n | n in s && n in m :: n in m' && m'[n] == m[n]
  }

  lemma {:induction false} ShapedFrame(t: Tree, root: Node?, parent: Node?, m: Store, m': Store)
    requires Shaped(t, root, parent, m) && Agree(m, m', Nodes(t))
    ensures Shaped(t, root, parent, m')
  {
    if t.Bin? {
      ShapedFrame(t.left, m[t.node].left, t.node, m, m');
      ShapedFrame(t.right, m[t.node].right, t.node, m, m');
    }
  }

  lemma {:induction false} PathShapedFrame(p: Path, child: Node?, h: nat, m: Store, m': Store)
    requires PathShaped(p, child, h, m) && Agree(m, m', PathNodes(p))
    ensures PathShaped(p, child, h, m')
  {
    match p
    case Top =>
    case InLeft(n, up, r) =>
      ShapedFrame(r, m[n].right, n, m, m');
      PathShapedFrame(up, n, 1 + Max(h, Height(r)), m, m');
    case InRight(n, l, up) =>
      ShapedFrame(l, m[n].left, n, m, m');
      PathShapedFrame(up, n, 1 + Max(h, Height(l)), m, m');
  }

  /** The two views of the nodes of a tree agree; a function, so that the fact does not depend on
      which nodes are allocated. */
  ghost predicate NodesAgree(t: Tree)
    ensures NodesAgree(t)
    ensures forall n | n in Nodes(t) :: n in InOrder(t)
    ensures forall n | n in InOrder(t) :: n in Nodes(t)
  {
    t.Bin? ==> NodesAgree(t.left) && NodesAgree(t.right)
  }

  ghost predicate PathNodesAgree(p: Path)
    ensures PathNodesAgree(p)
    ensures forall n | n in PathNodes(p) :: n in Before(p) || n in After(p)
    ensures forall n | n in Before(p) :: n in PathNodes(p)
    ensures forall n | n in After(p) :: n in PathNodes(p)
  {
    match p
    case Top => true
    case InLeft(_, up, r) => PathNodesAgree(up) && NodesAgree(r)
    case InRight(_, l, up) => PathNodesAgree(up) && NodesAgree(l)
  }

  lemma {:induction false} AscendingPart(a: seq<Node>, b: seq<Node>, c: seq<Node>)
    requires Ascending(a + b + c)
    ensures Ascending(b)
    ensures forall x, y :: x in a && y in b ==> x != y
    ensures forall x, y :: x in a && y in c ==> x != y
    ensures forall x, y :: x in b && y in c ==> x != y
  {
    var s := a + b + c;
    forall i | 0 <= i < |b| ensures b[i] == s[|a| + i] {}
    forall i | 0 <= i < |a| ensures a[i] == s[i] {}
    forall i | 0 <= i < |c| ensures c[i] == s[|a| + |b| + i] {}
  }

  lemma {:induction false} AscendingSplit(a: seq<Node>, n: Node, b: seq<Node>)
    requires Ascending(a + [n] + b)
    ensures Ascending(a) && Ascending(b)
    ensures n !in a && n !in b && forall x :: x in a ==> x !in b
  {
    var s := a + [n] + b;
    assert s[|a|] == n;
    assert forall i :: 0 <= i < |a| ==> a[i] == s[i];
    assert forall i :: 0 <= i < |b| ==> b[i] == s[|a| + 1 + i];
  }

  /** All nodes of a tree with its hole filled, in key order. */
  ghost function Around(p: Path, t: Tree): seq<Node> { Before(p) + InOrder(t) + After(p) }

  /** The hole filled, one level up. */
  ghost function Step(p: Path, t: Tree): Tree
    requires !p.Top?
  {
    if p.InLeft? then Bin(p.node, t, p.right) else Bin(p.node, p.left, t)
  }

  lemma {:induction false} StepKeepsOrder(p: Path, t: Tree)
    requires !p.Top?
    ensures Around(p.up, Step(p, t)) == Around(p, t)
  {
  }

  /** Key order alone keeps nodes from being shared between subtrees. */
  lemma {:induction false} AscendingIsDistinct(t: Tree)
    requires Ascending(InOrder(t))
    ensures Distinct(t)
  {
    match t
    case Leaf =>
    case Bin(n, l, r) =>
      AscendingSplit(InOrder(l), n, InOrder(r));

      assert NodesAgree(l) && NodesAgree(r);
      AscendingIsDistinct(l); AscendingIsDistinct(r);
  }

  lemma {:induction false} AroundIsDistinct(p: Path, t: Tree)
    requires Ascending(Around(p, t))
    ensures Distinct(t) && PathDistinct(p) && Nodes(t) !! PathNodes(p)
    decreases p
  {
    AscendingPart(Before(p), InOrder(t), After(p));
    AscendingIsDistinct(t);

    if !p.Top? {
      StepKeepsOrder(p, t);
      AroundIsDistinct(p.up, Step(p, t));
    }
  }

  // ----- Height against size

  ghost function Fib(n: nat): nat { if n < 2 then n else Fib(n - 1) + Fib(n - 2) }

  lemma {:induction false} FibMonotone(m: nat, n: nat)
    requires m <= n
    ensures Fib(m) <= Fib(n)
    decreases n
  {
    if m < n {
      FibMonotone(m, n - 1);
      if n == 1 {
      } else {
        assert Fib(n - 1) <= Fib(n);
      }
    }
  }

  /** A balanced tree of height h has at least Fib(h + 2) - 1 nodes. */
  lemma {:induction false} BalancedIsDense(t: Tree)
    requires Balanced(t)
    ensures Size(t) + 1 >= Fib(Height(t) + 2)
    ensures Size(t) == |InOrder(t)|
  {
    match t
    case Leaf =>
    case Bin(n, l, r) =>
      BalancedIsDense(l); BalancedIsDense(r);
      var h := Height(t);
      if Height(l) < Height(r) { FibMonotone(h, Height(l) + 2); } else { FibMonotone(h, Height(r) + 2); }
  }

  ghost function Pow2(n: nat): nat { if n == 0 then 1 else 2 * Pow2(n - 1) }

  lemma {:induction false} FibDoubles(h: nat)
    ensures Fib(h + 2) >= Pow2(h / 2)
  {
    if h >= 2 {
      FibDoubles(h - 2);
      FibMonotone(h, h + 1);
      assert Fib(h + 2) >= 2 * Fib(h);
      assert (h - 2) / 2 == h / 2 - 1;
    }
  }

  /** A descent visits at most Height(t) nodes, and 2^(Height(t)/2) is at most one more than the
      number of ranges stored: the descent is logarithmic. */
  lemma {:induction false} HeightIsLogarithmic(t: Tree)
    requires Balanced(t)
    ensures Pow2(Height(t) / 2) <= |InOrder(t)| + 1
  {
    BalancedIsDense(t);
    FibDoubles(Height(t));
  }
}
