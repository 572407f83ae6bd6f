/** src/conflict_tree.c: an AVL tree of disjoint address ranges, rebalanced in place through
    parent pointers. */
module ConflictTree {
  import opened ConflictTreeShape

  /** The two closed ranges share an address. */
  ghost predicate Overlap(lo: int, hi: int, lo': int, hi': int) {
    exists a: int {:trigger InRange(lo, a, hi)} :: InRange(lo, a, hi) && InRange(lo', a, hi')
  }

  predicate InRange(lo: int, a: int, hi: int) { lo <= a <= hi }

  /** The three-way comparison made at every node of a descent. */
  predicate Conflicts(lo: int, hi: int, lo': int, hi': int) {
    || (lo' <= lo <= hi')
    || (lo' <= hi <= hi')
    || (lo < lo' && hi' < hi)
  }

  lemma {:induction false} ConflictsIsOverlap(lo: int, hi: int, lo': int, hi': int)
    requires lo <= hi && lo' <= hi'
    ensures Conflicts(lo, hi, lo', hi') <==> Overlap(lo, hi, lo', hi')
  {
    if Conflicts(lo, hi, lo', hi') {
      var a := if lo' <= lo then lo else lo';
      assert InRange(lo, a, hi) && InRange(lo', a, hi');
    }
  }

  function NodeHeight(node: Node?): int
    reads node
  {
    if node == null then 0 else node.height
  }

  ghost function HeightIn(m: Store, n: Node?): int
    requires n == null || n in m
  {
    if n == null then 0 else m[n].height
  }

  ghost predicate Known(m: Store, n: Node?) { n == null || n in m }

  /** The nodes a rotation touches are different nodes. */
  ghost predicate Different(node: Node, p: Node, inner: Node?, g: Node?, outer: Node?, sibling: Node?) {
    && node != p && inner != node && inner != p && g != node && g != p
    && outer != node && outer != p && sibling != node && sibling != p
    && (inner != null ==> inner != g && inner != outer && inner != sibling)
    && (g != null ==> g != outer && g != sibling)
  }

  ghost predicate Apart(m: Store, node: Node, p: Node, inner: Node?, g: Node?, outer: Node?, sibling: Node?) {
    && node in m && p in m && Known(m, inner) && Known(m, g) && Known(m, outer) && Known(m, sibling)
    && Different(node, p, inner, g, outer, sibling)
  }

  ghost function Optional(n: Node?): set<Node> { if n == null then {} else {n} }

  /** g's child pointer that led to `from` now leads to `to`, and the other one is unchanged. */
  twostate predicate Rehung(g: Node?, from: Node, to: Node)
    reads g
  {
    g != null ==>
      if old(g.left) == from then g.left == to && g.right == old(g.right)
                             else g.right == to && g.left == old(g.left)
  }

  ghost predicate CanRotate(m: Store, node: Node, leftward: bool) {
    && node in m && m[node].parent != null && m[node].parent in m
    && var p := m[node].parent;
       && (if leftward then m[p].right else m[p].left) == node
       && (if leftward then Apart(m, node, p, m[node].left, m[p].parent, m[node].right, m[p].left)
                       else Apart(m, node, p, m[node].right, m[p].parent, m[node].left, m[p].right))
  }

  /** The store with g's child pointer moved from p to node. */
  ghost function Rehang(m: Store, g: Node?, p: Node, node: Node): Store
    requires Known(m, g)
  {
    if g == null then m
    else if m[g].left == p then m[g := m[g].(left := node)] else m[g := m[g].(right := node)]
  }

  ghost function Adopt(m: Store, child: Node?, p: Node): Store
    requires Known(m, child)
  {
    if child == null then m else m[child := m[child].(parent := p)]
  }

  /** The store after pivot `node` was rotated over its parent. */
  ghost function RotatedLeft(m: Store, node: Node): Store
    requires CanRotate(m, node, true)
  {
    var p := m[node].parent;
    var hp := Max(HeightIn(m, m[p].left), HeightIn(m, m[node].left)) + 1;
    var hn := Max(hp, HeightIn(m, m[node].right)) + 1;
    Adopt(Rehang(m, m[p].parent, p, node), m[node].left, p)
      [p := Cell(hp, node, m[p].left, m[node].left)]
      [node := Cell(hn, m[p].parent, p, m[node].right)]
  }

  ghost function RotatedRight(m: Store, node: Node): Store
    requires CanRotate(m, node, false)
  {
    var p := m[node].parent;
    var hp := Max(HeightIn(m, m[node].right), HeightIn(m, m[p].right)) + 1;
    var hn := Max(HeightIn(m, m[node].left), hp) + 1;
    Adopt(Rehang(m, m[p].parent, p, node), m[node].right, p)
      [p := Cell(hp, node, m[node].right, m[p].right)]
      [node := Cell(hn, m[p].parent, m[node].left, p)]
  }

  method RotateLeft(node: Node)
    requires node.parent != null && node.parent.right == node
    requires Different(node, node.parent, node.left, node.parent.parent, node.right, node.parent.left)
    modifies node, node.parent, Optional(node.left)`parent
    modifies Optional(node.parent.parent)`left, Optional(node.parent.parent)`right
    ensures var p := old(node.parent);
      && node.left == p && node.right == old(node.right) && node.parent == old(node.parent.parent)
      && p.right == old(node.left) && p.left == old(node.parent.left) && p.parent == node
      && p.height == Max(old(NodeHeight(node.parent.left)), old(NodeHeight(node.left))) + 1
      && node.height == Max(p.height, old(NodeHeight(node.right))) + 1
      && (p.right != null ==> p.right.parent == p)
    ensures Rehung(old(node.parent.parent), old(node.parent), node)
  {
    var oldRoot := node.parent;
    node.parent := oldRoot.parent;
    if node.parent != null {
      if node.parent.left == oldRoot {
        node.parent.left := node;
      } else {
        node.parent.right := node;
      }
    }
    oldRoot.right := node.left;
    if oldRoot.right != null {
      oldRoot.right.parent := oldRoot;
    }
    node.left := oldRoot;
    node.left.parent := node;
    oldRoot.height := Max(NodeHeight(oldRoot.left), NodeHeight(oldRoot.right)) + 1;
    node.height := Max(NodeHeight(node.left), NodeHeight(node.right)) + 1;
  }

  method RotateLeftIn(node: Node, ghost s: set<Node>)
    requires node in s && CanRotate(Snapshot(s), node, true)
    modifies s
    ensures Snapshot(s) == RotatedLeft(old(Snapshot(s)), node)
  {
    RotateLeft(node);
  }

  method RotateRight(node: Node)
    requires node.parent != null && node.parent.left == node
    requires Different(node, node.parent, node.right, node.parent.parent, node.left, node.parent.right)
    modifies node, node.parent, Optional(node.right)`parent
    modifies Optional(node.parent.parent)`left, Optional(node.parent.parent)`right
    ensures var p := old(node.parent);
      && node.right == p && node.left == old(node.left) && node.parent == old(node.parent.parent)
      && p.left == old(node.right) && p.right == old(node.parent.right) && p.parent == node
      && p.height == Max(old(NodeHeight(node.parent.right)), old(NodeHeight(node.right))) + 1
      && node.height == Max(p.height, old(NodeHeight(node.left))) + 1
      && (p.left != null ==> p.left.parent == p)
    ensures Rehung(old(node.parent.parent), old(node.parent), node)
  {
    var oldRoot := node.parent;
    node.parent := oldRoot.parent;
    if node.parent != null {
      if node.parent.left == oldRoot {
        node.parent.left := node;
      } else {
        node.parent.right := node;
      }
    }
    oldRoot.left := node.right;
    if oldRoot.left != null {
      oldRoot.left.parent := oldRoot;
    }
    node.right := oldRoot;
    node.right.parent := node;
    oldRoot.height := Max(NodeHeight(oldRoot.left), NodeHeight(oldRoot.right)) + 1;
    node.height := Max(NodeHeight(node.left), NodeHeight(node.right)) + 1;
  }

  method RotateRightIn(node: Node, ghost s: set<Node>)
    requires node in s && CanRotate(Snapshot(s), node, false)
    modifies s
    ensures Snapshot(s) == RotatedRight(old(Snapshot(s)), node)
  {
    RotateRight(node);
  }

  // ----- What the rotations do to the shape

  /** The parts of a subtree about to be rotated share no node, nor do they hold its parent g. */
  ghost predicate Separate(p: Node, node: Node, a: Tree, b: Tree, c: Tree, g: Node?) {
    && p != node && {p, node} !! Nodes(a) && {p, node} !! Nodes(b) && {p, node} !! Nodes(c)
    && Nodes(a) !! Nodes(b) && Nodes(a) !! Nodes(c) && Nodes(b) !! Nodes(c) && Distinct(b)
    && g != p && g != node
    && (g != null ==> g !in Nodes(a) && g !in Nodes(b) && g !in Nodes(c))
  }

  lemma {:induction false} StoredHeight(t: Tree, root: Node?, parent: Node?, m: Store)
    requires Shaped(t, root, parent, m)
    ensures Known(m, root) && HeightIn(m, root) == Height(t) && root == Root(t)
    ensures root != null ==> root in Nodes(t)
  {
  }

  /** A new parent for a subtree, whose other nodes are untouched. */
  lemma {:induction false} Adopted(t: Tree, root: Node?, parent: Node?, parent': Node?, m: Store, m': Store)
    requires Shaped(t, root, parent, m) && Distinct(t)
    requires t.Bin? ==> t.node in m' && m'[t.node] == m[t.node].(parent := parent')
    requires Agree(m, m', Nodes(t) - Optional(Root(t)))
    ensures Shaped(t, root, parent', m')
  {
    if t.Bin? {
      ShapedFrame(t.left, m[t.node].left, t.node, m, m');
      ShapedFrame(t.right, m[t.node].right, t.node, m, m');
    }
  }

  lemma {:induction false} CanRotateLeft(m: Store, g: Node?, p: Node, node: Node, a: Tree, b: Tree, c: Tree)
    requires p in m && node in m && Known(m, g)
    requires m[p].parent == g && m[p].right == node && m[node].parent == p
    requires Shaped(a, m[p].left, p, m) && Shaped(b, m[node].left, node, m) && Shaped(c, m[node].right, node, m)
    requires Separate(p, node, a, b, c, g)
    ensures CanRotate(m, node, true)
  {
    StoredHeight(a, m[p].left, p, m); StoredHeight(b, m[node].left, node, m); StoredHeight(c, m[node].right, node, m);
  }

  lemma {:induction false} RotationKeepsOrder(p: Node, node: Node, a: Tree, b: Tree, c: Tree)
    ensures InOrder(Bin(node, Bin(p, a, b), c)) == InOrder(Bin(p, a, Bin(node, b, c)))
  {
    var x, y, z := InOrder(a), InOrder(b), InOrder(c);
    assert InOrder(Bin(p, a, b)) == x + [p] + y;
    assert InOrder(Bin(node, b, c)) == y + [node] + z;
    assert (x + [p] + y) + [node] + z == x + [p] + (y + [node] + z);
  }

  /** A left rotation turns ((a) p ((b) node (c))) into (((a) p (b)) node (c)), heights exact. */
  lemma {:induction false} RotateLeftShape(m: Store, g: Node?, p: Node, node: Node, a: Tree, b: Tree, c: Tree)
    requires p in m && node in m && Known(m, g)
    requires m[p].parent == g && m[p].right == node && m[node].parent == p
    requires Shaped(a, m[p].left, p, m) && Shaped(b, m[node].left, node, m) && Shaped(c, m[node].right, node, m)
    requires Separate(p, node, a, b, c, g)
    ensures CanRotate(m, node, true)
    ensures Shaped(Bin(node, Bin(p, a, b), c), node, g, RotatedLeft(m, node))
    ensures InOrder(Bin(node, Bin(p, a, b), c)) == InOrder(Bin(p, a, Bin(node, b, c)))
  {
    RotationKeepsOrder(p, node, a, b, c);
    StoredHeight(a, m[p].left, p, m); StoredHeight(b, m[node].left, node, m); StoredHeight(c, m[node].right, node, m);
    CanRotateLeft(m, g, p, node, a, b, c);
    var m' := RotatedLeft(m, node);
    ShapedFrame(a, m[p].left, p, m, m');
    ShapedFrame(c, m[node].right, node, m, m');
    Adopted(b, m[node].left, node, p, m, m');
  }

  lemma {:induction false} CanRotateRight(m: Store, g: Node?, p: Node, node: Node, a: Tree, b: Tree, c: Tree)
    requires p in m && node in m && Known(m, g)
    requires m[p].parent == g && m[p].left == node && m[node].parent == p
    requires Shaped(a, m[node].left, node, m) && Shaped(b, m[node].right, node, m) && Shaped(c, m[p].right, p, m)
    requires Separate(p, node, a, b, c, g)
    ensures CanRotate(m, node, false)
  {
    StoredHeight(a, m[node].left, node, m); StoredHeight(b, m[node].right, node, m); StoredHeight(c, m[p].right, p, m);
  }

  lemma {:induction false} RotateRightShape(m: Store, g: Node?, p: Node, node: Node, a: Tree, b: Tree, c: Tree)
    requires p in m && node in m && Known(m, g)
    requires m[p].parent == g && m[p].left == node && m[node].parent == p
    requires Shaped(a, m[node].left, node, m) && Shaped(b, m[node].right, node, m) && Shaped(c, m[p].right, p, m)
    requires Separate(p, node, a, b, c, g)
    ensures CanRotate(m, node, false)
    ensures Shaped(Bin(node, a, Bin(p, b, c)), node, g, RotatedRight(m, node))
    ensures InOrder(Bin(node, a, Bin(p, b, c))) == InOrder(Bin(p, Bin(node, a, b), c))
  {
    RotationKeepsOrder(node, p, a, b, c);
    StoredHeight(a, m[node].left, node, m); StoredHeight(b, m[node].right, node, m); StoredHeight(c, m[p].right, p, m);
    CanRotateRight(m, g, p, node, a, b, c);
    var m' := RotatedRight(m, node);
    ShapedFrame(c, m[p].right, p, m, m');
    ShapedFrame(a, m[node].left, node, m, m');
    Adopted(b, m[node].right, node, p, m, m');
  }

  /** Moving the one child pointer that leads into the hole fills the hole with another node. */
  lemma {:induction false} PathRehung(path: Path, p: Node, node: Node, h: nat, m: Store, m': Store)
    requires PathShaped(path, p, h, m) && PathDistinct(path) && p !in PathNodes(path)
    requires Known(m, Bottom(path))
    requires !path.Top? ==> path.node in m' && m'[path.node] == Rehang(m, path.node, p, node)[path.node]
    requires Agree(m, m', PathNodes(path) - Optional(Bottom(path)))
    ensures PathShaped(path, node, h, m')
  {
    match path
    case Top =>
    case InLeft(n, up, r) =>
      ShapedFrame(r, m[n].right, n, m, m');
      PathShapedFrame(up, n, 1 + Max(h, Height(r)), m, m');
    case InRight(n, l, up) =>
      StoredHeight(l, m[n].left, n, m);
      ShapedFrame(l, m[n].left, n, m, m');
      PathShapedFrame(up, n, 1 + Max(h, Height(l)), m, m');
  }

  /** path leads to p and holds no node of the subtree made of p, node, a, b and c. */
  ghost predicate Hangs(path: Path, p: Node, node: Node, a: Tree, b: Tree, c: Tree) {
    && PathDistinct(path) && p !in PathNodes(path) && node !in PathNodes(path)
    && PathNodes(path) !! Nodes(a) && PathNodes(path) !! Nodes(b) && PathNodes(path) !! Nodes(c)
    && Separate(p, node, a, b, c, Bottom(path))
  }

  lemma {:induction false} SingleLeft(m: Store, path: Path, h: nat, p: Node, node: Node, a: Tree, b: Tree, c: Tree)
    requires p in m && node in m && PathShaped(path, p, h, m) && Hangs(path, p, node, a, b, c)
    requires m[p].parent == Bottom(path) && m[p].right == node && m[node].parent == p
    requires Shaped(a, m[p].left, p, m) && Shaped(b, m[node].left, node, m) && Shaped(c, m[node].right, node, m)
    ensures CanRotate(m, node, true)
    ensures Shaped(Bin(node, Bin(p, a, b), c), node, Bottom(path), RotatedLeft(m, node))
    ensures PathShaped(path, node, h, RotatedLeft(m, node))
  {
    RotateLeftShape(m, Bottom(path), p, node, a, b, c);
    StoredHeight(b, m[node].left, node, m);
    PathRehung(path, p, node, h, m, RotatedLeft(m, node));
  }

  lemma {:induction false} SingleRight(m: Store, path: Path, h: nat, p: Node, node: Node, a: Tree, b: Tree, c: Tree)
    requires p in m && node in m && PathShaped(path, p, h, m) && Hangs(path, p, node, a, b, c)
    requires m[p].parent == Bottom(path) && m[p].left == node && m[node].parent == p
    requires Shaped(a, m[node].left, node, m) && Shaped(b, m[node].right, node, m) && Shaped(c, m[p].right, p, m)
    ensures CanRotate(m, node, false)
    ensures Shaped(Bin(node, a, Bin(p, b, c)), node, Bottom(path), RotatedRight(m, node))
    ensures PathShaped(path, node, h, RotatedRight(m, node))
  {
    RotateRightShape(m, Bottom(path), p, node, a, b, c);
    StoredHeight(b, m[node].right, node, m);
    PathRehung(path, p, node, h, m, RotatedRight(m, node));
  }

  /** ((a) p (((b) y (c)) x (d))): y is rotated over x, then over p. */
  lemma {:induction false} DoubleLeft(m: Store, path: Path, h: nat, p: Node, x: Node, y: Node, a: Tree, b: Tree,
                                      c: Tree, d: Tree)
    requires p in m && x in m && y in m && PathShaped(path, p, h, m)
    requires Hangs(path, p, y, a, b, Bin(x, c, d)) && Separate(x, y, b, c, d, p) && x !in Nodes(a)
    requires m[p].parent == Bottom(path) && m[p].right == x && m[x].parent == p && m[x].left == y && m[y].parent == x
    requires Shaped(a, m[p].left, p, m) && Shaped(b, m[y].left, y, m) && Shaped(c, m[y].right, y, m)
    requires Shaped(d, m[x].right, x, m)
    ensures CanRotate(m, y, false) && CanRotate(RotatedRight(m, y), y, true)
    ensures RotatedRight(m, y)[p].right == y
    ensures var m' := RotatedLeft(RotatedRight(m, y), y);
      Shaped(Bin(y, Bin(p, a, b), Bin(x, c, d)), y, Bottom(path), m') && PathShaped(path, y, h, m')
  {
    RotateRightShape(m, p, x, y, b, c, d);
    StoredHeight(a, m[p].left, p, m);
    StoredHeight(c, m[y].right, y, m);
    var m2 := RotatedRight(m, y);
    ShapedFrame(a, m[p].left, p, m, m2);
    PathShapedFrame(path, p, h, m, m2);
    SingleLeft(m2, path, h, p, y, a, b, Bin(x, c, d));
  }

  /** (((a) x ((b) y (c))) p (d)): y is rotated over x, then over p. */
  lemma {:induction false} DoubleRight(m: Store, path: Path, h: nat, p: Node, x: Node, y: Node, a: Tree, b: Tree,
                                       c: Tree, d: Tree)
    requires p in m && x in m && y in m && PathShaped(path, p, h, m)
    requires Hangs(path, p, y, Bin(x, a, b), c, d) && Separate(x, y, a, b, c, p) && x !in Nodes(d)
    requires m[p].parent == Bottom(path) && m[p].left == x && m[x].parent == p && m[x].right == y && m[y].parent == x
    requires Shaped(a, m[x].left, x, m) && Shaped(b, m[y].left, y, m) && Shaped(c, m[y].right, y, m)
    requires Shaped(d, m[p].right, p, m)
    ensures CanRotate(m, y, true) && CanRotate(RotatedLeft(m, y), y, false)
    ensures RotatedLeft(m, y)[p].left == y
    ensures var m' := RotatedRight(RotatedLeft(m, y), y);
      Shaped(Bin(y, Bin(x, a, b), Bin(p, c, d)), y, Bottom(path), m') && PathShaped(path, y, h, m')
  {
    RotateLeftShape(m, p, x, y, a, b, c);
    StoredHeight(d, m[p].right, p, m);
    StoredHeight(b, m[y].left, y, m);
    var m2 := RotatedLeft(m, y);
    ShapedFrame(d, m[p].right, p, m, m2);
    PathShapedFrame(path, p, h, m, m2);
    SingleRight(m2, path, h, p, y, Bin(x, a, b), c, d);
  }

  // ----- Rebalancing

  /** A subtree n with children l and r hangs at the end of path; the children and the path are in
      shape, n's own height need not be. */
  ghost predicate Focus(m: Store, path: Path, h: nat, n: Node, l: Tree, r: Tree) {
    && n in m && m[n].parent == Bottom(path) && PathShaped(path, n, h, m)
    && Shaped(l, m[n].left, n, m) && Shaped(r, m[n].right, n, m)
    && Balanced(l) && Balanced(r)
    && Clear(path, n, l, r)
  }

  /** t is a balanced rearrangement of the subtree n, l, r and hangs in its place. */
  ghost predicate Settled(m: Store, path: Path, h: nat, n: Node, l: Tree, r: Tree, t: Tree) {
    && t.Bin? && Balanced(t) && InOrder(t) == InOrder(Bin(n, l, r))
    && Shaped(t, t.node, Bottom(path), m) && PathShaped(path, t.node, h, m)
  }

  ghost predicate Clear(path: Path, n: Node, l: Tree, r: Tree) {
    Distinct(Bin(n, l, r)) && PathDistinct(path) && Nodes(Bin(n, l, r)) !! PathNodes(path)
  }

  lemma {:induction false} ClearRight(path: Path, n: Node, l: Tree, r: Tree)
    requires Clear(path, n, l, r) && r.Bin?
    ensures Hangs(path, n, r.node, l, r.left, r.right)
  {
    assert Distinct(r);
    assert Nodes(r) == Nodes(r.left) + {r.node} + Nodes(r.right);
    assert Bottom(path) != null ==> Bottom(path) in PathNodes(path);
  }

  lemma {:induction false} ClearRightLeft(path: Path, n: Node, l: Tree, r: Tree)
    requires Clear(path, n, l, r) && r.Bin? && r.left.Bin?
    ensures var y := r.left; var x := Bin(r.node, y.right, r.right);
      && Hangs(path, n, y.node, l, y.left, x) && Separate(r.node, y.node, y.left, y.right, r.right, n)
      && r.node !in Nodes(l)
  {
    ClearRight(path, n, l, r);
    assert Distinct(r.left);
    var y := r.left;
    assert Nodes(y) == Nodes(y.left) + {y.node} + Nodes(y.right);
    assert Nodes(Bin(r.node, y.right, r.right)) == Nodes(y.right) + {r.node} + Nodes(r.right);
    assert Distinct(y.left) && Distinct(y.right);
  }

  lemma {:induction false} ClearLeft(path: Path, n: Node, l: Tree, r: Tree)
    requires Clear(path, n, l, r) && l.Bin?
    ensures Hangs(path, n, l.node, l.left, l.right, r)
  {
    assert Distinct(l);
    assert Nodes(l) == Nodes(l.left) + {l.node} + Nodes(l.right);
    assert Bottom(path) != null ==> Bottom(path) in PathNodes(path);
  }

  lemma {:induction false} ClearLeftRight(path: Path, n: Node, l: Tree, r: Tree)
    requires Clear(path, n, l, r) && l.Bin? && l.right.Bin?
    ensures var y := l.right; var x := Bin(l.node, l.left, y.left);
      && Hangs(path, n, y.node, x, y.right, r) && Separate(l.node, y.node, l.left, y.left, y.right, n)
      && l.node !in Nodes(r)
  {
    ClearLeft(path, n, l, r);
    assert Distinct(l.right);
    var y := l.right;
    assert Nodes(y) == Nodes(y.left) + {y.node} + Nodes(y.right);
    assert Nodes(Bin(l.node, l.left, y.left)) == Nodes(l.left) + {l.node} + Nodes(y.left);
    assert Distinct(y.left) && Distinct(y.right);
  }

  lemma {:induction false} SettleRightRight(m: Store, path: Path, h: nat, n: Node, l: Tree, r: Tree) returns (t: Tree)
    requires Focus(m, path, h, n, l, r) && Height(r) == Height(l) + 2 && Height(r.left) <= Height(r.right)
    ensures CanRotate(m, r.node, true) && Settled(RotatedLeft(m, r.node), path, h, n, l, r, t) && t.node == r.node
    ensures Height(r) <= Height(t) <= Height(r) + 1
  {
    ClearRight(path, n, l, r);
    SingleLeft(m, path, h, n, r.node, l, r.left, r.right);
    t := Bin(r.node, Bin(n, l, r.left), r.right);
    assert InOrder(t) == InOrder(Bin(n, l, r)) by {
      assert InOrder(Bin(n, l, r.left)) == InOrder(l) + [n] + InOrder(r.left);
    }
  }

  lemma {:induction false} ReassociateRightLeft(p: Node, x: Node, y: Node, a: Tree, b: Tree, c: Tree, d: Tree)
    ensures InOrder(Bin(y, Bin(p, a, b), Bin(x, c, d))) == InOrder(Bin(p, a, Bin(x, Bin(y, b, c), d)))
  {
    var ia, ib, ic, id := InOrder(a), InOrder(b), InOrder(c), InOrder(d);
    calc {
      InOrder(Bin(y, Bin(p, a, b), Bin(x, c, d)));
      (ia + [p] + ib) + [y] + (ic + [x] + id);
      ia + [p] + ((ib + [y] + ic) + [x] + id);
      { assert InOrder(Bin(x, Bin(y, b, c), d)) == (ib + [y] + ic) + [x] + id; }
      InOrder(Bin(p, a, Bin(x, Bin(y, b, c), d)));
    }
  }

  lemma {:induction false} ReassociateLeftRight(p: Node, x: Node, y: Node, a: Tree, b: Tree, c: Tree, d: Tree)
    ensures InOrder(Bin(y, Bin(x, a, b), Bin(p, c, d))) == InOrder(Bin(p, Bin(x, a, Bin(y, b, c)), d))
  {
    var ia, ib, ic, id := InOrder(a), InOrder(b), InOrder(c), InOrder(d);
    calc {
      InOrder(Bin(y, Bin(x, a, b), Bin(p, c, d)));
      (ia + [x] + ib) + [y] + (ic + [p] + id);
      (ia + [x] + (ib + [y] + ic)) + [p] + id;
      { assert InOrder(Bin(x, a, Bin(y, b, c))) == ia + [x] + (ib + [y] + ic); }
      InOrder(Bin(p, Bin(x, a, Bin(y, b, c)), d));
    }
  }

  lemma {:induction false} RearrangeRightLeft(n: Node, l: Tree, r: Tree) returns (t: Tree)
    requires Balanced(l) && Balanced(r) && Height(r) == Height(l) + 2 && Height(r.left) > Height(r.right)
    ensures r.Bin? && r.left.Bin?
    ensures t == var y := r.left; Bin(y.node, Bin(n, l, y.left), Bin(r.node, y.right, r.right))
    ensures Balanced(t) && InOrder(t) == InOrder(Bin(n, l, r)) && Height(t) == Height(r)
  {
    var y := r.left;
    t := Bin(y.node, Bin(n, l, y.left), Bin(r.node, y.right, r.right));
    assert Balanced(y);
    ReassociateRightLeft(n, r.node, y.node, l, y.left, y.right, r.right);
  }

  lemma {:induction false} SettleRightLeft(m: Store, path: Path, h: nat, n: Node, l: Tree, r: Tree) returns (t: Tree)
    requires Focus(m, path, h, n, l, r) && Height(r) == Height(l) + 2 && Height(r.left) > Height(r.right)
    ensures r.Bin? && r.left.Bin? && var y := r.left.node;
      && CanRotate(m, y, false) && CanRotate(RotatedRight(m, y), y, true) && RotatedRight(m, y)[n].right == y
      && Settled(RotatedLeft(RotatedRight(m, y), y), path, h, n, l, r, t) && t.node == y
    ensures Height(t) == Height(r)
  {
    t := RearrangeRightLeft(n, l, r);
    ClearRightLeft(path, n, l, r);
    var y := r.left;
    assert Shaped(y, m[r.node].left, r.node, m);
    DoubleLeft(m, path, h, n, r.node, y.node, l, y.left, y.right, r.right);
  }

  lemma {:induction false} SettleLeftLeft(m: Store, path: Path, h: nat, n: Node, l: Tree, r: Tree) returns (t: Tree)
    requires Focus(m, path, h, n, l, r) && Height(l) == Height(r) + 2 && Height(l.left) >= Height(l.right)
    ensures CanRotate(m, l.node, false) && Settled(RotatedRight(m, l.node), path, h, n, l, r, t) && t.node == l.node
    ensures Height(l) <= Height(t) <= Height(l) + 1
  {
    ClearLeft(path, n, l, r);
    SingleRight(m, path, h, n, l.node, l.left, l.right, r);
    t := Bin(l.node, l.left, Bin(n, l.right, r));
    assert InOrder(t) == InOrder(Bin(n, l, r)) by {
      assert InOrder(Bin(n, l.right, r)) == InOrder(l.right) + [n] + InOrder(r);
    }
  }

  lemma {:induction false} RearrangeLeftRight(n: Node, l: Tree, r: Tree) returns (t: Tree)
    requires Balanced(l) && Balanced(r) && Height(l) == Height(r) + 2 && Height(l.left) < Height(l.right)
    ensures l.Bin? && l.right.Bin?
    ensures t == var y := l.right; Bin(y.node, Bin(l.node, l.left, y.left), Bin(n, y.right, r))
    ensures Balanced(t) && InOrder(t) == InOrder(Bin(n, l, r)) && Height(t) == Height(l)
  {
    var y := l.right;
    t := Bin(y.node, Bin(l.node, l.left, y.left), Bin(n, y.right, r));
    assert Balanced(y);
    ReassociateLeftRight(n, l.node, y.node, l.left, y.left, y.right, r);
  }

  lemma {:induction false} SettleLeftRight(m: Store, path: Path, h: nat, n: Node, l: Tree, r: Tree) returns (t: Tree)
    requires Focus(m, path, h, n, l, r) && Height(l) == Height(r) + 2 && Height(l.left) < Height(l.right)
    ensures l.Bin? && l.right.Bin? && var y := l.right.node;
      && CanRotate(m, y, true) && CanRotate(RotatedLeft(m, y), y, false) && RotatedLeft(m, y)[n].left == y
      && Settled(RotatedRight(RotatedLeft(m, y), y), path, h, n, l, r, t) && t.node == y
    ensures Height(t) == Height(l)
  {
    t := RearrangeLeftRight(n, l, r);
    ClearLeftRight(path, n, l, r);
    var y := l.right;
    assert Shaped(y, m[l.node].right, l.node, m);
    DoubleRight(m, path, h, n, l.node, y.node, l.left, y.left, y.right, r);
  }

  method FixRight(node: Node, ghost s: set<Node>, ghost path: Path, ghost h: nat, ghost l: Tree, ghost r: Tree)
    returns (top: Node, ghost t: Tree)
    requires node in s && Focus(Snapshot(s), path, h, node, l, r)
    requires Height(r) == Height(l) + 2
    modifies s
    ensures Settled(Snapshot(s), path, h, node, l, r, t) && top == t.node
    ensures Height(r) <= Height(t) <= Height(r) + 1
  {
    ghost var m := Snapshot(s);
    StoredHeight(r.left, m[r.node].left, r.node, m);
    StoredHeight(r.right, m[r.node].right, r.node, m);
    var heightRL := NodeHeight(node.right.left);
    var heightRR := NodeHeight(node.right.right);
    if heightRL - heightRR <= 0 {
      t := SettleRightRight(m, path, h, node, l, r);
      top := node.right;
      RotateLeftIn(top, s);
    } else {
      t := SettleRightLeft(m, path, h, node, l, r);
      RotateRightIn(node.right.left, s);
      top := node.right;
      RotateLeftIn(top, s);
    }
  }

  method FixLeft(node: Node, ghost s: set<Node>, ghost path: Path, ghost h: nat, ghost l: Tree, ghost r: Tree)
    returns (top: Node, ghost t: Tree)
    requires node in s && Focus(Snapshot(s), path, h, node, l, r)
    requires Height(l) == Height(r) + 2
    modifies s
    ensures Settled(Snapshot(s), path, h, node, l, r, t) && top == t.node
    ensures Height(l) <= Height(t) <= Height(l) + 1
  {
    ghost var m := Snapshot(s);
    StoredHeight(l.left, m[l.node].left, l.node, m);
    StoredHeight(l.right, m[l.node].right, l.node, m);
    var heightLL := NodeHeight(node.left.left);
    var heightLR := NodeHeight(node.left.right);
    if heightLL - heightLR >= 0 {
      t := SettleLeftLeft(m, path, h, node, l, r);
      top := node.left;
      RotateRightIn(top, s);
    } else {
      t := SettleLeftRight(m, path, h, node, l, r);
      RotateLeftIn(node.left.right, s);
      top := node.left;
      RotateRightIn(top, s);
    }
  }

  lemma {:induction false} FocusIgnoresHeight(m: Store, m': Store, path: Path, h: nat, n: Node, l: Tree, r: Tree,
                                              height: int)
    requires Focus(m, path, h, n, l, r) && m' == m[n := m[n].(height := height)]
    ensures Focus(m', path, h, n, l, r)
  {
    ShapedFrame(l, m[n].left, n, m, m');
    ShapedFrame(r, m[n].right, n, m, m');
    PathShapedFrame(path, n, h, m, m');
  }

  /** One turn of the climb: the height of node is recomputed, and a difference of two between its
      children is removed by one or two rotations.  A greater difference cannot occur here. */
  method Rebalance(node: Node, ghost s: set<Node>, ghost path: Path, ghost h: nat, ghost l: Tree, ghost r: Tree)
    returns (top: Node, ghost t: Tree)
    requires node in s && Focus(Snapshot(s), path, h, node, l, r)
    requires -2 <= Height(l) - Height(r) <= 2
    modifies s
    ensures Settled(Snapshot(s), path, h, node, l, r, t) && top == t.node
    ensures -1 <= Height(l) - Height(r) <= 1 ==> Height(t) == 1 + Max(Height(l), Height(r))
    ensures Max(Height(l), Height(r)) <= Height(t) <= 1 + Max(Height(l), Height(r))
  {
    ghost var m := Snapshot(s);
    StoredHeight(l, node.left, node, m);
    StoredHeight(r, node.right, node, m);
    var heightL := NodeHeight(node.left);
    var heightR := NodeHeight(node.right);
    node.height := Max(NodeHeight(node.left), NodeHeight(node.right)) + 1;
    assert Snapshot(s) == m[node := m[node].(height := node.height)];
    FocusIgnoresHeight(m, Snapshot(s), path, h, node, l, r, node.height);
    top, t := node, Bin(node, l, r);
    if heightL - heightR <= -2 || heightL - heightR >= 2 {
      if heightL - heightR == -2 {
        top, t := FixRight(node, s, path, h, l, r);
      } else if heightL - heightR == 2 {
        top, t := FixLeft(node, s, path, h, l, r);
      } else {
        assert false;  // "CTree invariant violated"
      }
    }
  }

  ghost function Sibling(path: Path): Tree
    requires !path.Top?
  {
    if path.InLeft? then path.right else path.left
  }

  /** A balanced subtree f hangs at the end of path; the path still carries the heights it had when
      the subtree was of height h, which is the height of f or one less. */
  ghost predicate Climbing(m: Store, path: Path, h: nat, f: Tree) {
    && f.Bin? && Shaped(f, f.node, Bottom(path), m) && Balanced(f)
    && PathShaped(path, f.node, h, m) && h <= Height(f) <= h + 1
  }

  lemma {:induction false} ClimbingFocus(m: Store, path: Path, h: nat, f: Tree)
    requires Climbing(m, path, h, f) && !path.Top? && Ascending(Around(path, f))
    ensures var t := Step(path, f);
      Focus(m, path.up, 1 + Max(h, Height(Sibling(path))), path.node, t.left, t.right)
    ensures Balanced(Sibling(path)) && -1 <= h - Height(Sibling(path)) <= 1
    ensures -2 <= Height(Step(path, f).left) - Height(Step(path, f).right) <= 2
  {
    StepKeepsOrder(path, f);
    AroundIsDistinct(path.up, Step(path, f));
  }

  lemma {:induction false} ClimbingStep(path: Path, h: nat, f: Tree, m: Store, t: Tree)
    requires !path.Top? && Balanced(f) && Balanced(Sibling(path))
    requires -1 <= h - Height(Sibling(path)) <= 1 && h <= Height(f) <= h + 1
    requires var u := Step(path, f); var h' := 1 + Max(h, Height(Sibling(path)));
      && Settled(m, path.up, h', path.node, u.left, u.right, t)
      && (-1 <= Height(u.left) - Height(u.right) <= 1 ==> Height(t) == 1 + Max(Height(u.left), Height(u.right)))
      && Max(Height(u.left), Height(u.right)) <= Height(t) <= 1 + Max(Height(u.left), Height(u.right))
    ensures Climbing(m, path.up, 1 + Max(h, Height(Sibling(path))), t)
    ensures Around(path.up, t) == Around(path, f)
  {
    StepKeepsOrder(path, f);
  }

  method ClimbOnce(node: Node, ghost s: set<Node>, ghost path: Path, ghost h: nat, ghost f: Tree)
    returns (top: Node, ghost h': nat, ghost t: Tree)
    requires node == Bottom(path) && Climbing(Snapshot(s), path, h, f) && Ascending(Around(path, f))
    modifies s
    ensures Climbing(Snapshot(s), path.up, h', t) && Around(path.up, t) == Around(path, f)
    ensures top == t.node && top in s
  {
    ClimbingFocus(Snapshot(s), path, h, f);
    ghost var step := Step(path, f);
    h' := 1 + Max(h, Height(Sibling(path)));
    top, t := Rebalance(node, s, path.up, h', step.left, step.right);
    ClimbingStep(path, h, f, Snapshot(s), t);
  }

  method Balance(start: Node, ghost s: set<Node>, ghost path0: Path, ghost h0: nat, ghost f0: Tree)
    returns (root: Node, ghost t: Tree)
    requires start == Bottom(path0) && Climbing(Snapshot(s), path0, h0, f0) && Ascending(Around(path0, f0))
    modifies s
    ensures Shaped(t, root, null, Snapshot(s)) && Balanced(t) && InOrder(t) == Around(path0, f0)
  {
    var node: Node? := start;
    root := start;
    ghost var path, h: nat := path0, h0;
    t := f0;
    while node != null
      invariant node == Bottom(path) && Climbing(Snapshot(s), path, h, t)
      invariant Around(path, t) == Around(path0, f0)
      invariant path.Top? ==> root == t.node
      decreases path
    {
      root, h, t := ClimbOnce(node, s, path, h, t);
      path := path.up;
      node := root.parent;
    }
  }

  // ----- Searching and inserting

  /** s' is s with one new node for the range [lo, hi]. */
  ghost predicate Inserted(s: seq<Node>, s': seq<Node>, lo: int, hi: int) {
    exists k: nat :: InsertedAt(s, s', k, lo, hi)
  }

  ghost predicate HasOverlap(s: seq<Node>, lo: int, hi: int) {
    exists i :: 0 <= i < |s| && Overlap(lo, hi, s[i].lo, s[i].hi)
  }

  /** s' is s with one new node for the range [lo, hi] at position k. */
  ghost predicate InsertedAt(s: seq<Node>, s': seq<Node>, k: nat, lo: int, hi: int) {
    && k <= |s| && |s'| == |s| + 1
    && s' == s[..k] + [s'[k]] + s[k..]
    && s'[k].lo == lo && s'[k].hi == hi
  }

  /** A descent for [lo, hi] through the tree with nodes `all` stands at the subtree f: what was
      passed on the left lies below lo, what was passed on the right lies above hi. */
  ghost predicate Descending(all: seq<Node>, path: Path, f: Tree, lo: int, hi: int) {
    && Around(path, f) == all
    && (forall i :: 0 <= i < |Before(path)| ==> Before(path)[i].hi < lo)
    && (forall i :: 0 <= i < |After(path)| ==> hi < After(path)[i].lo)
  }

  lemma {:induction false} DescendLeft(all: seq<Node>, path: Path, f: Tree, lo: int, hi: int)
    requires Descending(all, path, f, lo, hi) && Ascending(all) && f.Bin? && lo <= hi
    requires !Conflicts(lo, hi, f.node.lo, f.node.hi) && lo < f.node.lo
    ensures Descending(all, InLeft(f.node, path, f.right), f.left, lo, hi)
  {
    var p := InLeft(f.node, path, f.right);
    StepKeepsOrder(p, f.left);
    var base := |Before(path)| + |InOrder(f.left)|;
    forall i | 0 <= i < |After(p)| ensures hi < After(p)[i].lo {
      assert all[base] == f.node && all[base + i] == After(p)[i];
    }
  }

  lemma {:induction false} DescendRight(all: seq<Node>, path: Path, f: Tree, lo: int, hi: int)
    requires Descending(all, path, f, lo, hi) && Ascending(all) && f.Bin? && lo <= hi
    requires !Conflicts(lo, hi, f.node.lo, f.node.hi) && lo >= f.node.lo
    ensures Descending(all, InRight(f.node, f.left, path), f.right, lo, hi)
  {
    var p := InRight(f.node, f.left, path);
    StepKeepsOrder(p, f.right);
    var at := |Before(path)| + |InOrder(f.left)|;
    forall i | 0 <= i < |Before(p)| ensures Before(p)[i].hi < lo {
      assert all[at] == f.node && all[i] == Before(p)[i];
    }
  }

  /** A descent that falls off the tree has met every range, and none overlaps. */
  lemma {:induction false} DescentEnds(all: seq<Node>, path: Path, lo: int, hi: int)
    requires Descending(all, path, Leaf, lo, hi) && Ascending(all) && lo <= hi
    ensures !HasOverlap(all, lo, hi)
  {
    forall i | 0 <= i < |all| ensures !Overlap(lo, hi, all[i].lo, all[i].hi) {
      if i < |Before(path)| { assert all[i] == Before(path)[i]; }
      else { assert all[i] == After(path)[i - |Before(path)|]; }
    }
  }

  /** A descent that stops at a conflicting node has found an overlap. */
  lemma {:induction false} DescentStops(all: seq<Node>, path: Path, f: Tree, lo: int, hi: int)
    requires Descending(all, path, f, lo, hi) && Ascending(all) && lo <= hi && f.Bin?
    requires Conflicts(lo, hi, f.node.lo, f.node.hi)
    ensures f.node in all && HasOverlap(all, lo, hi) && Overlap(lo, hi, f.node.lo, f.node.hi)
  {
    var at := |Before(path)| + |InOrder(f.left)|;
    assert all[at] == f.node;
    ConflictsIsOverlap(lo, hi, f.node.lo, f.node.hi);
  }

  lemma {:induction false} AscendingInsert(b: seq<Node>, n: Node, a: seq<Node>)
    requires Ascending(b + a) && n.lo <= n.hi
    requires forall i :: 0 <= i < |b| ==> b[i].hi < n.lo
    requires forall i :: 0 <= i < |a| ==> n.hi < a[i].lo
    ensures Ascending(b + [n] + a)
  {
    var s, s' := b + a, b + [n] + a;
    assert forall i :: 0 <= i < |b| ==> s'[i] == s[i] == b[i];
    assert forall i :: |b| < i < |s'| ==> s'[i] == s[i - 1] == a[i - 1 - |b|];
    assert s'[|b|] == n;
  }

  /** The new range goes where the descent ended. */
  lemma {:induction false} InsertKeepsOrder(all: seq<Node>, path: Path, n: Node)
    requires Descending(all, path, Leaf, n.lo, n.hi) && Ascending(all) && n.lo <= n.hi
    ensures Ascending(Around(path, Bin(n, Leaf, Leaf)))
    ensures InsertedAt(all, Around(path, Bin(n, Leaf, Leaf)), |Before(path)|, n.lo, n.hi)
    ensures all == Before(path) + After(path)
    ensures Around(path, Bin(n, Leaf, Leaf)) == Before(path) + [n] + After(path)
  {
    assert all == Before(path) + After(path);
    AscendingInsert(Before(path), n, After(path));
    assert Around(path, Bin(n, Leaf, Leaf)) == Before(path) + [n] + After(path);
  }

  /** The store with a fresh leaf n in the hole at the end of path. */
  ghost function WithLeaf(m: Store, path: Path, n: Node): Store
    requires !path.Top? && path.node in m
  {
    var p := path.node;
    m[p := if path.InLeft? then m[p].(left := n) else m[p].(right := n)][n := Cell(1, p, null, null)]
  }

  lemma {:induction false} AttachShape(m: Store, path: Path, n: Node)
    requires !path.Top? && PathShaped(path, null, 0, m) && PathDistinct(path) && n !in PathNodes(path)
    ensures Climbing(WithLeaf(m, path, n), path, 0, Bin(n, Leaf, Leaf))
  {
    var m' := WithLeaf(m, path, n);
    var p, t := path.node, Sibling(path);
    assert Agree(m, m', Nodes(t)) && Agree(m, m', PathNodes(path.up));
    PathShapedFrame(path.up, p, 1 + Max(0, Height(t)), m, m');
    ShapedFrame(t, if path.InLeft? then m[p].right else m[p].left, p, m, m');
    assert Shaped(Bin(n, Leaf, Leaf), n, p, m');
  }

  lemma {:induction false} InsertedNodes(t: Tree, t': Tree, b: seq<Node>, n: Node, a: seq<Node>)
    requires InOrder(t) == b + a && InOrder(t') == b + [n] + a
    ensures Nodes(t') == Nodes(t) + {n}
  {
    assert NodesAgree(t) && NodesAgree(t');
    assert forall x | x in Nodes(t') :: x in b || x == n || x in a;
    assert forall x | x in b :: x in InOrder(t) && x in InOrder(t');
    assert forall x | x in a :: x in InOrder(t) && x in InOrder(t');
    assert n in InOrder(t');
  }

  /** The nodes below root are an AVL tree of disjoint ranges in address order. */
  ghost predicate WellFormed(t: Tree, root: Node?)
    reads Nodes(t)
  {
    && Shaped(t, root, null, Snapshot(Nodes(t)))
    && Balanced(t)
    && Ascending(InOrder(t))
  }

  /** The end of an insertion: n was made the child of cur that the descent found missing. */
  method BalanceAttached(cur: Node, n: Node, ghost t: Tree, ghost path: Path, ghost m: Store)
    returns (root: Node, ghost t': Tree)
    requires Ascending(InOrder(t)) && n.lo <= n.hi
    requires cur == Bottom(path) && cur in m && PathShaped(path, null, 0, m)
    requires Descending(InOrder(t), path, Leaf, n.lo, n.hi)
    requires Snapshot(Nodes(t) + {n}) == WithLeaf(m, path, n)
    modifies Nodes(t) + {n}
    ensures Nodes(t') == Nodes(t) + {n} && WellFormed(t', root)
    ensures Inserted(InOrder(t), InOrder(t'), n.lo, n.hi)
  {
    ghost var leaf := Bin(n, Leaf, Leaf);
    InsertKeepsOrder(InOrder(t), path, n);
    AroundIsDistinct(path, leaf);
    AttachShape(m, path, n);
    root, t' := Balance(cur, Nodes(t) + {n}, path, 0, leaf);
    InsertedNodes(t, t', Before(path), n, After(path));
    assert Snapshot(Nodes(t')) == Snapshot(Nodes(t) + {n});
    assert InsertedAt(InOrder(t), InOrder(t'), |Before(path)|, n.lo, n.hi);
  }

  lemma {:induction false} SingleNode(n: Node)
    requires n.height == 1 && n.parent == null && n.left == null && n.right == null && n.lo <= n.hi
    ensures var t := Bin(n, Leaf, Leaf);
      && WellFormed(t, n)
      && Inserted([], InOrder(t), n.lo, n.hi)
  {
    var t := Bin(n, Leaf, Leaf);
    assert InOrder(t) == [n];
    assert InsertedAt([], InOrder(t), 0, n.lo, n.hi);
    var m := Snapshot(Nodes(t));
    assert n in Nodes(t) && m[n] == Cell(1, null, null, null) && Height(t) == 1;
    assert Shaped(Leaf, null, n, m);
    assert Shaped(t, n, null, m);
  }

  /** An insertion of [lo, hi] into a tree with nodes `all` stands at cur, the root of f. */
  ghost predicate Standing(m: Store, all: seq<Node>, path: Path, f: Tree, cur: Node?, lo: int, hi: int) {
    && Shaped(f, cur, Bottom(path), m) && Balanced(f) && PathShaped(path, cur, Height(f), m)
    && Descending(all, path, f, lo, hi)
  }

  lemma {:induction false} GoLeft(m: Store, all: seq<Node>, path: Path, f: Tree, cur: Node, lo: int, hi: int)
    requires Standing(m, all, path, f, cur, lo, hi) && Ascending(all) && lo <= hi
    requires !Conflicts(lo, hi, cur.lo, cur.hi) && lo < cur.lo
    ensures f.Bin? && cur in m && Standing(m, all, InLeft(cur, path, f.right), f.left, m[cur].left, lo, hi)
    ensures m[cur].left == null ==> f.left == Leaf
  {
    DescendLeft(all, path, f, lo, hi);
    assert Shaped(f.left, m[cur].left, cur, m);
  }

  lemma {:induction false} GoRight(m: Store, all: seq<Node>, path: Path, f: Tree, cur: Node, lo: int, hi: int)
    requires Standing(m, all, path, f, cur, lo, hi) && Ascending(all) && lo <= hi
    requires !Conflicts(lo, hi, cur.lo, cur.hi) && lo >= cur.lo
    ensures f.Bin? && cur in m && Standing(m, all, InRight(cur, f.left, path), f.right, m[cur].right, lo, hi)
    ensures m[cur].right == null ==> f.right == Leaf
  {
    DescendRight(all, path, f, lo, hi);
    assert Shaped(f.right, m[cur].right, cur, m);
  }

  /** The descent of an insertion: it stops at a conflicting node, or at a node whose child on the
      side of the new range is missing. */
  method FindPlace(root: Node, lo: int, hi: int, ghost t: Tree)
      returns (conflict: bool, cur: Node, ghost path: Path, ghost turns: nat)
    requires WellFormed(t, root) && lo <= hi
    ensures conflict ==> cur in InOrder(t) && Overlap(lo, hi, cur.lo, cur.hi) && HasOverlap(InOrder(t), lo, hi)
    ensures !conflict ==> cur == Bottom(path) && cur in Nodes(t) && (path.InLeft? <==> lo < cur.lo)
    ensures !conflict ==> Standing(Snapshot(Nodes(t)), InOrder(t), path, Leaf, null, lo, hi)
    ensures turns <= Height(t)
  {
    cur, path, turns := root, Top, 0;
    ghost var m, f := Snapshot(Nodes(t)), t;
    while true
      invariant Standing(m, InOrder(t), path, f, cur, lo, hi)
      invariant turns + Height(f) <= Height(t)
      decreases f
    {
      if Conflicts(lo, hi, cur.lo, cur.hi) {
        DescentStops(InOrder(t), path, f, lo, hi);
        return true, cur, path, turns;
      } else if lo < cur.lo {
        GoLeft(m, InOrder(t), path, f, cur, lo, hi);
        path, f, turns := InLeft(cur, path, f.right), f.left, turns + 1;
        if cur.left == null {
          return false, cur, path, turns;
        } else {
          cur := cur.left;
        }
      } else {
        GoRight(m, InOrder(t), path, f, cur, lo, hi);
        path, f, turns := InRight(cur, f.left, path), f.right, turns + 1;
        if cur.right == null {
          return false, cur, path, turns;
        } else {
          cur := cur.right;
        }
      }
    }
  }

  method AttachLeaf(cur: Node, n: Node, ghost s: set<Node>, ghost path: Path)
    requires cur in s && n !in s && cur == Bottom(path) && (path.InLeft? <==> n.lo < cur.lo)
    requires n.height == 1 && n.left == null && n.right == null
    modifies cur, n
    ensures Snapshot(s + {n}) == WithLeaf(old(Snapshot(s)), path, n)
  {
    n.parent := cur;
    if n.lo < cur.lo {
      cur.left := n;
    } else {
      cur.right := n;
    }
  }

  class ConflictTree {
    var root: Node?
    ghost var tree: Tree

    ghost predicate Valid()
      reads this, Nodes(tree)
    {
      WellFormed(tree, root)
    }

    constructor ()
      ensures Valid() && InOrder(tree) == []
    {
      root := null;
      tree := Leaf;
    }

    /** The result overlaps [lo, hi] if anything stored does; the loop turns at most Height(tree) times. */
    method Locate(lo: int, hi: int) returns (cur: Node?, ghost turns: nat)
      requires Valid() && lo <= hi
      ensures cur == null <==> !HasOverlap(InOrder(tree), lo, hi)
      ensures cur != null ==> cur in InOrder(tree) && Overlap(lo, hi, cur.lo, cur.hi)
      ensures turns <= Height(tree)
    {
      cur := root;
      turns := 0;
      ghost var f, path := tree, Top;
      ghost var m := Snapshot(Nodes(tree));
      while cur != null
        invariant Shaped(f, cur, Bottom(path), m)
        invariant Descending(InOrder(tree), path, f, lo, hi)
        invariant turns + Height(f) <= Height(tree)
        decreases f
      {
        if Conflicts(lo, hi, cur.lo, cur.hi) {
          DescentStops(InOrder(tree), path, f, lo, hi);
          ConflictsIsOverlap(lo, hi, cur.lo, cur.hi);
          return;
        } else if lo < cur.lo {
          DescendLeft(InOrder(tree), path, f, lo, hi);
          path, f := InLeft(f.node, path, f.right), f.left;
          cur := cur.left;
        } else {
          DescendRight(InOrder(tree), path, f, lo, hi);
          path, f := InRight(f.node, f.left, path), f.right;
          cur := cur.right;
        }
        turns := turns + 1;
      }
      DescentEnds(InOrder(tree), path, lo, hi);
    }

    method SetRoot(r: Node, ghost t: Tree)
      requires WellFormed(t, r)
      modifies this
      ensures Valid() && root == r && tree == t
    {
      root, tree := r, t;
    }

    method Insert(lo: int, hi: int) returns (conflict: bool)
      requires Valid() && lo <= hi
      modifies this, Nodes(tree)
      ensures Valid()
      ensures conflict <==> HasOverlap(old(InOrder(tree)), lo, hi)
      ensures conflict ==> root == old(root) && tree == old(tree) && Snapshot(Nodes(tree)) == old(Snapshot(Nodes(tree)))
      ensures !conflict ==> Inserted(old(InOrder(tree)), InOrder(tree), lo, hi)
      ensures fresh(Nodes(tree) - old(Nodes(tree)))
    {
      ghost var t, m := tree, Snapshot(Nodes(tree));
      var newNode := new Node(lo, hi);
      assert allocated(Nodes(t)) && Snapshot(Nodes(t)) == m;
      if root == null {
        SingleNode(newNode);
        SetRoot(newNode, Bin(newNode, Leaf, Leaf));
        return false;
      }
      var cur: Node;
      ghost var path, turns;
      conflict, cur, path, turns := FindPlace(root, lo, hi, t);
      if !conflict {
        DescentEnds(InOrder(t), path, lo, hi);
        AttachLeaf(cur, newNode, Nodes(t), path);
        ghost var t';
        var r;
        r, t' := BalanceAttached(cur, newNode, t, path, m);
        SetRoot(r, t');
      }
    }
  }

  /** The height stored at the root is that of the tree, and a tree of that height is well filled: the
      descents above take a number of turns logarithmic in the number of ranges. */
  lemma {:induction false} RootHeight(c: ConflictTree)
    requires c.Valid()
    ensures NodeHeight(c.root) == Height(c.tree)
    ensures |InOrder(c.tree)| >= Fib(Height(c.tree) + 2) - 1
    ensures Pow2(Height(c.tree) / 2) <= |InOrder(c.tree)| + 1
  {
    BalancedIsDense(c.tree);
    HeightIsLogarithmic(c.tree);
    if c.tree.Bin? { assert c.root in Nodes(c.tree); }
  }
}
