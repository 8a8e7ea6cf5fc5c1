/**
  How a tree value lies in memory.

  A `Mem` is a snapshot of node fields.  `TreeIn` and `PathIn` say that a tree, or a
  tree with a hole, is what the fields in the snapshot describe.  The parent field of the
  topmost node is left open: deleting a root with at most one child leaves it pointing
  at the deleted node (src/core/shs_rbtree.cc:213-223), and every loop stops at the root before
  following it.
*/
module RbMem {
  import opened RbShape

  datatype Cell = Cell(left: RbNode?, right: RbNode?, parent: RbNode?, color: Color, key: int)
  type Mem = map<RbNode, Cell>

  ghost predicate Pictures(m: Mem, ns: set<RbNode>)
    reads ns
  {
    m.Keys == ns && forall n :: n in ns ==> m[n] == Cell(n.left, n.right, n.parent, n.color, n.key)
  }

  lemma PictureExists(ns: set<RbNode>)
    ensures exists m: Mem :: Pictures(m, ns)
  {
    var m: Mem := map n | n in ns :: Cell(n.left, n.right, n.parent, n.color, n.key);
    assert Pictures(m, ns);
  }

  /** The fields of the nodes in `ns`. */
  ghost function Snap(ns: set<RbNode>): (m: Mem)
    reads ns
    ensures m.Keys == ns && forall n :: n in ns ==> m[n] == Cell(n.left, n.right, n.parent, n.color, n.key)
  {
    PictureExists(ns);
    var m: Mem :| Pictures(m, ns);
    m
  }

  /** The node that a link to the subtree `t` refers to. */
  ghost function Ptr(t: Tree, s: RbNode): RbNode {
    if t.Leaf? then s else t.e.n
  }

  ghost predicate ParentIs(m: Mem, t: Tree, n: RbNode) {
    t.Node? ==> t.e.n in m && m[t.e.n].parent == n
  }

  /** `t` is laid out in `m` below its topmost node; empty places hold `s`. */
  ghost predicate TreeIn(m: Mem, t: Tree, s: RbNode) {
    t.Leaf? ||
    (&& t.e.n != s && t.e.n in m && m[t.e.n].key == t.e.key && m[t.e.n].color == t.color
     && m[t.e.n].left == Ptr(t.left, s) && m[t.e.n].right == Ptr(t.right, s)
     && ParentIs(m, t.left, t.e.n) && ParentIs(m, t.right, t.e.n)
     && TreeIn(m, t.left, s) && TreeIn(m, t.right, s))
  }

  /** `p` is laid out in `m` between the pointer `root` and a place that holds `hole`. */
  ghost predicate PathIn(m: Mem, p: Path, s: RbNode, root: RbNode, hole: RbNode) {
    if p.Top? then root == hole else
      && p.e.n != s && p.e.n in m && m[p.e.n].key == p.e.key && m[p.e.n].color == p.color
      && m[p.e.n].left == (if p.InLeft? then hole else Ptr(p.sib, s))
      && m[p.e.n].right == (if p.InLeft? then Ptr(p.sib, s) else hole)
      && ParentIs(m, p.sib, p.e.n) && (p.up.Top? || m[p.e.n].parent == p.up.e.n)
      && TreeIn(m, p.sib, s) && PathIn(m, p.up, s, root, p.e.n)
  }

  /** The whole tree below `root`, seen from the subtree `t` at the end of the path `p`. */
  ghost predicate At(m: Mem, p: Path, t: Tree, s: RbNode, root: RbNode) {
    && TreeIn(m, t, s) && PathIn(m, p, s, root, Ptr(t, s))
    && (p.Top? || ParentIs(m, t, p.e.n))
    && Distinct(t) && PathDistinct(p) && Nodes(t) !! PathNodes(p)
  }

  // ----- moving the point of view -----

  lemma Up(m: Mem, p: Path, t: Tree, s: RbNode, root: RbNode)
    requires At(m, p, t, s, root) && !p.Top?
    ensures At(m, p.up, One(p, t), s, root)
  {
  }

  lemma Down(m: Mem, p: Path, t: Tree, s: RbNode, root: RbNode)
    requires !p.Top? && At(m, p.up, One(p, t), s, root)
    ensures At(m, p, t, s, root)
  {
  }

  ghost function Child(t: Tree, left: bool): Tree
    requires t.Node?
  {
    if left then t.left else t.right
  }

  /** The path to a child of the node at the end of `p`. */
  ghost function Below(p: Path, t: Tree, left: bool): Path
    requires t.Node?
  {
    if left then InLeft(t.e, t.color, t.right, p) else InRight(t.e, t.color, t.left, p)
  }

  lemma Descend(m: Mem, p: Path, t: Tree, s: RbNode, root: RbNode, left: bool)
    requires At(m, p, t, s, root) && t.Node?
    ensures At(m, Below(p, t, left), Child(t, left), s, root)
    ensures Plug(Below(p, t, left), Child(t, left)) == Plug(p, t)
  {
    Down(m, Below(p, t, left), Child(t, left), s, root);
  }

  lemma {:induction false} UpToRoot(m: Mem, p: Path, t: Tree, s: RbNode, root: RbNode)
    requires At(m, p, t, s, root)
    ensures At(m, Top, Plug(p, t), s, root)
  {
    if !p.Top? {
      Up(m, p, t, s, root);
      UpToRoot(m, p.up, One(p, t), s, root);
    }
  }

  lemma {:induction false} DownFromRoot(m: Mem, p: Path, t: Tree, s: RbNode, root: RbNode)
    requires At(m, Top, Plug(p, t), s, root)
    ensures At(m, p, t, s, root)
  {
    if !p.Top? {
      DownFromRoot(m, p.up, One(p, t), s, root);
      Down(m, p, t, s, root);
    }
  }

  /** The place of a node in a tree, continued from the path `p`. */
  lemma {:induction false} Locate(p: Path, t: Tree, n: RbNode) returns (q: Path, u: Tree)
    requires n in Nodes(t)
    ensures u.Node? && u.e.n == n && Plug(q, u) == Plug(p, t)
    decreases t
  {
    if n == t.e.n {
      q, u := p, t;
    } else if n in Nodes(t.left) {
      q, u := Locate(Below(p, t, true), t.left, n);
    } else {
      q, u := Locate(Below(p, t, false), t.right, n);
    }
  }

  lemma {:induction false} NodesIn(m: Mem, t: Tree, s: RbNode)
    requires TreeIn(m, t, s)
    ensures s !in Nodes(t) && Nodes(t) <= m.Keys
  {
    if t.Node? {
      NodesIn(m, t.left, s);
      NodesIn(m, t.right, s);
    }
  }

  lemma {:induction false} EntryKeys(m: Mem, t: Tree, s: RbNode)
    requires TreeIn(m, t, s)
    ensures forall x :: x in Entries(t) ==> x.n in m && m[x.n].key == x.key
  {
    if t.Node? {
      EntryKeys(m, t.left, s);
      EntryKeys(m, t.right, s);
    }
  }

  lemma {:induction false} PathNodesIn(m: Mem, p: Path, s: RbNode, root: RbNode, hole: RbNode)
    requires PathIn(m, p, s, root, hole)
    ensures s !in PathNodes(p) && PathNodes(p) <= m.Keys
    ensures !p.Top? ==> root in PathNodes(p)
  {
    if !p.Top? {
      NodesIn(m, p.sib, s);
      PathNodesIn(m, p.up, s, root, p.e.n);
    }
  }

  /** What the layout says about a node and the link that leads to it. */
  lemma Ends(m: Mem, p: Path, t: Tree, s: RbNode, root: RbNode)
    requires At(m, p, t, s, root) && t.Node?
    ensures t.e.n != s && t.e.n in m && m[t.e.n].color == t.color && m[t.e.n].key == t.e.key
    ensures m[t.e.n].left == Ptr(t.left, s) && m[t.e.n].right == Ptr(t.right, s)
    ensures t.e.n == root <==> p.Top?
    ensures !p.Top? ==>
      && m[t.e.n].parent == p.e.n && p.e.n != s && p.e.n in m && p.e.n !in Nodes(t)
      && (m[p.e.n].left == t.e.n <==> p.InLeft?) && (m[p.e.n].right == t.e.n <==> p.InRight?)
  {
    PathNodesIn(m, p, s, root, t.e.n);
    if !p.Top? { NodesIn(m, p.sib, s); }
  }

  /** The topmost nodes of a tree are different, and none is the sentinel. */
  lemma Apart(m: Mem, t: Tree, s: RbNode)
    requires TreeIn(m, t, s) && Distinct(t) && t.Node?
    ensures t.e.n in m && t.e.n != s && t.e.n in Nodes(t)
    ensures m[t.e.n].left == Ptr(t.left, s) && m[t.e.n].right == Ptr(t.right, s)
    ensures Ptr(t.left, s) != t.e.n && Ptr(t.right, s) != t.e.n
    ensures TreeIn(m, t.left, s) && TreeIn(m, t.right, s) && Distinct(t.left) && Distinct(t.right)
    ensures Nodes(t.left) <= Nodes(t) && Nodes(t.right) <= Nodes(t)
    ensures t.e.n !in Nodes(t.left) && t.e.n !in Nodes(t.right) && Nodes(t.left) !! Nodes(t.right)
    ensures s !in Nodes(t)
  {
    NodesIn(m, t, s);
  }

  // ----- what a change of memory leaves alone -----

  ghost predicate SameBut(m: Mem, m': Mem, dirty: set<RbNode>) {
    forall n :: n in m && n !in dirty ==> n in m' && m'[n] == m[n]
  }

  lemma {:induction false} TreeKept(m: Mem, m': Mem, t: Tree, s: RbNode, dirty: set<RbNode>)
    requires TreeIn(m, t, s) && SameBut(m, m', dirty) && Nodes(t) !! dirty
    ensures TreeIn(m', t, s)
  {
    if t.Node? {
      TreeKept(m, m', t.left, s, dirty);
      TreeKept(m, m', t.right, s, dirty);
    }
  }

  /** The subtree `t` gets `n` as its parent; nothing else in it changes. */
  lemma TreeMoved(m: Mem, m': Mem, t: Tree, s: RbNode, dirty: set<RbNode>, n: RbNode)
    requires TreeIn(m, t, s) && Distinct(t) && SameBut(m, m', dirty) && Nodes(t) * dirty <= {Ptr(t, s)}
    requires t.Node? ==> t.e.n in m' && m'[t.e.n] == m[t.e.n].(parent := n)
    ensures TreeIn(m', t, s) && ParentIs(m', t, n)
  {
    if t.Node? {
      TreeKept(m, m', t.left, s, dirty);
      TreeKept(m, m', t.right, s, dirty);
    }
  }

  lemma {:induction false} PathKept(m: Mem, m': Mem, p: Path, s: RbNode, root: RbNode, hole: RbNode, dirty: set<RbNode>)
    requires PathIn(m, p, s, root, hole) && SameBut(m, m', dirty) && PathNodes(p) !! dirty
    ensures PathIn(m', p, s, root, hole)
  {
    if !p.Top? {
      TreeKept(m, m', p.sib, s, dirty);
      PathKept(m, m', p.up, s, root, p.e.n, dirty);
    }
  }

  /** The place at the end of `p` gets another occupant. */
  lemma PathRelinked(m: Mem, m': Mem, p: Path, s: RbNode, root: RbNode, root': RbNode, hole: RbNode, hole': RbNode,
                     dirty: set<RbNode>)
    requires PathIn(m, p, s, root, hole) && PathDistinct(p) && SameBut(m, m', dirty)
    requires Relinked(m, m', p, root, root', hole')
    requires PathNodes(p) * dirty <= if p.Top? then {} else {p.e.n}
    ensures PathIn(m', p, s, root', hole')
  {
    if !p.Top? {
      TreeKept(m, m', p.sib, s, dirty);
      PathKept(m, m', p.up, s, root, p.e.n, dirty);
    }
  }

  /** The link into the place at the end of `p` now leads to `hole'`. */
  ghost predicate Relinked(m: Mem, m': Mem, p: Path, root: RbNode, root': RbNode, hole': RbNode) {
    if p.Top? then root' == hole' else
      && root' == root && p.e.n in m && p.e.n in m'
      && m'[p.e.n] == if p.InLeft? then m[p.e.n].(left := hole') else m[p.e.n].(right := hole')
  }

  ghost function AboveNode(p: Path): set<RbNode> {
    if p.Top? then {} else {p.e.n}
  }

  ghost function TopSet(t: Tree): set<RbNode> {
    if t.Leaf? then {} else {t.e.n}
  }

  /** A new node in the empty place at the end of `p`. */
  lemma Attached(m: Mem, m': Mem, p: Path, e: Entry, s: RbNode, root: RbNode)
    requires At(m, p, Leaf, s, root) && !p.Top? && e.n != s && e.n !in PathNodes(p)
    requires SameBut(m, m', {p.e.n, e.n}) && Relinked(m, m', p, root, root, e.n)
    requires e.n in m' && m'[e.n] == Cell(s, s, p.e.n, Red, e.key)
    ensures At(m', p, Node(Leaf, e, Red, Leaf), s, root)
  {
    PathRelinked(m, m', p, s, root, root, s, e.n, {p.e.n, e.n});
  }

  // ----- rotations -----

  ghost function RotatedLeft(t: Tree): Tree
    requires t.Node? && t.right.Node?
  {
    Node(Node(t.left, t.e, t.color, t.right.left), t.right.e, t.right.color, t.right.right)
  }

  ghost function RotatedRight(t: Tree): Tree
    requires t.Node? && t.left.Node?
  {
    Node(t.left.left, t.left.e, t.left.color, Node(t.left.right, t.e, t.color, t.right))
  }

  ghost function Unless(n: RbNode, x: RbNode): set<RbNode> {
    if n == x then {} else {n}
  }

  /** The place that held `x` now holds `y`. */
  ghost predicate Replaced(m: Mem, m': Mem, x: RbNode, y: RbNode, root: RbNode, root': RbNode) {
    x in m &&
    if x == root then root' == y else
      var q := m[x].parent;
      && root' == root && q != null && q in m && q in m'
      && m'[q] == if m[q].left == x then m[q].(left := y) else m[q].(right := y)
  }

  ghost function Place(m: Mem, x: RbNode, root: RbNode): set<RbNode?>
    requires x in m
  {
    if x == root then {} else {m[x].parent}
  }

  /** The changes of memory that rotate `x` to the left, field by field. */
  ghost predicate SwungLeft(m: Mem, m': Mem, x: RbNode, s: RbNode, root: RbNode, root': RbNode) {
    && x in m && m[x].right != null && m[x].right in m && m[m[x].right].left != null
    && (var y: RbNode, b: RbNode := m[x].right, m[m[x].right].left;
        && x in m' && m'[x] == m[x].(right := b, parent := y)
        && y in m' && m'[y] == m[y].(left := x, parent := m[x].parent)
        && (b != s ==> b in m && b in m' && m'[b] == m[b].(parent := x))
        && Replaced(m, m', x, y, root, root')
        && forall n :: n in m && n !in {x, y} && n !in Unless(b, s) && n !in Place(m, x, root) ==>
             n in m' && m'[n] == m[n])
  }

  ghost predicate SwungRight(m: Mem, m': Mem, x: RbNode, s: RbNode, root: RbNode, root': RbNode) {
    && x in m && m[x].left != null && m[x].left in m && m[m[x].left].right != null
    && (var y: RbNode, b: RbNode := m[x].left, m[m[x].left].right;
        && x in m' && m'[x] == m[x].(left := b, parent := y)
        && y in m' && m'[y] == m[y].(right := x, parent := m[x].parent)
        && (b != s ==> b in m && b in m' && m'[b] == m[b].(parent := x))
        && Replaced(m, m', x, y, root, root')
        && forall n :: n in m && n !in {x, y} && n !in Unless(b, s) && n !in Place(m, x, root) ==>
             n in m' && m'[n] == m[n])
  }

  /** The nodes written by a rotation of `t` to the left. */
  ghost function LeftDirty(p: Path, t: Tree): set<RbNode>
    requires t.Node? && t.right.Node?
  {
    {t.e.n, t.right.e.n} + TopSet(t.right.left) + AboveNode(p)
  }

  lemma SwungLeftDirty(m: Mem, m': Mem, p: Path, t: Tree, s: RbNode, root: RbNode, root': RbNode)
    requires At(m, p, t, s, root) && t.Node? && t.right.Node?
    requires SwungLeft(m, m', t.e.n, s, root, root')
    ensures SameBut(m, m', LeftDirty(p, t)) && Relinked(m, m', p, root, root', t.right.e.n)
  {
    Ends(m, p, t, s, root);
    Apart(m, t.right, s);
  }

  lemma LeftRotatedTree(m: Mem, m': Mem, p: Path, t: Tree, s: RbNode, root: RbNode, root': RbNode)
    requires At(m, p, t, s, root) && t.Node? && t.right.Node?
    requires SwungLeft(m, m', t.e.n, s, root, root') && SameBut(m, m', LeftDirty(p, t))
    ensures TreeIn(m', RotatedLeft(t), s)
  {
    Apart(m, t, s);
    Apart(m, t.right, s);
    var dirty := LeftDirty(p, t);
    TreeKept(m, m', t.left, s, dirty);
    TreeKept(m, m', t.right.right, s, dirty);
    TreeMoved(m, m', t.right.left, s, dirty, t.e.n);
  }

  lemma LeftRotated(m: Mem, m': Mem, p: Path, t: Tree, s: RbNode, root: RbNode, root': RbNode)
    requires At(m, p, t, s, root) && t.Node? && t.right.Node?
    requires SwungLeft(m, m', t.e.n, s, root, root')
    ensures At(m', p, RotatedLeft(t), s, root')
  {
    SwungLeftDirty(m, m', p, t, s, root, root');
    LeftRotatedTree(m, m', p, t, s, root, root');
    assert Distinct(t.right);
    PathRelinked(m, m', p, s, root, root', t.e.n, t.right.e.n, LeftDirty(p, t));
  }

  /** The nodes written by a rotation of `t` to the right. */
  ghost function RightDirty(p: Path, t: Tree): set<RbNode>
    requires t.Node? && t.left.Node?
  {
    {t.e.n, t.left.e.n} + TopSet(t.left.right) + AboveNode(p)
  }

  lemma SwungRightDirty(m: Mem, m': Mem, p: Path, t: Tree, s: RbNode, root: RbNode, root': RbNode)
    requires At(m, p, t, s, root) && t.Node? && t.left.Node?
    requires SwungRight(m, m', t.e.n, s, root, root')
    ensures SameBut(m, m', RightDirty(p, t)) && Relinked(m, m', p, root, root', t.left.e.n)
  {
    Ends(m, p, t, s, root);
    Apart(m, t.left, s);
  }

  lemma RightRotatedTree(m: Mem, m': Mem, p: Path, t: Tree, s: RbNode, root: RbNode, root': RbNode)
    requires At(m, p, t, s, root) && t.Node? && t.left.Node?
    requires SwungRight(m, m', t.e.n, s, root, root') && SameBut(m, m', RightDirty(p, t))
    ensures TreeIn(m', RotatedRight(t), s)
  {
    Apart(m, t, s);
    Apart(m, t.left, s);
    var dirty := RightDirty(p, t);
    TreeKept(m, m', t.right, s, dirty);
    TreeKept(m, m', t.left.left, s, dirty);
    TreeMoved(m, m', t.left.right, s, dirty, t.e.n);
  }

  lemma RightRotated(m: Mem, m': Mem, p: Path, t: Tree, s: RbNode, root: RbNode, root': RbNode)
    requires At(m, p, t, s, root) && t.Node? && t.left.Node?
    requires SwungRight(m, m', t.e.n, s, root, root')
    ensures At(m', p, RotatedRight(t), s, root')
  {
    SwungRightDirty(m, m', p, t, s, root, root');
    RightRotatedTree(m, m', p, t, s, root, root');
    assert Distinct(t.left);
    PathRelinked(m, m', p, s, root, root', t.e.n, t.left.e.n, RightDirty(p, t));
  }

  lemma RotatedLeftContents(t: Tree)
    requires t.Node? && t.right.Node?
    ensures Entries(RotatedLeft(t)) == Entries(t)
  {
    var (a, b, d) := (Entries(t.left), Entries(t.right.left), Entries(t.right.right));
    calc {
      Entries(t);
      a + [t.e] + (b + [t.right.e] + d);
      (a + [t.e] + b) + [t.right.e] + d;
      { assert Entries(RotatedLeft(t).left) == a + [t.e] + b; }
      Entries(RotatedLeft(t));
    }
  }

  lemma RotatedRightContents(t: Tree)
    requires t.Node? && t.left.Node?
    ensures Entries(RotatedRight(t)) == Entries(t)
  {
    RotatedLeftContents(RotatedRight(t));
    assert RotatedLeft(RotatedRight(t)) == t;
  }

  // ----- colours -----

  /** Only the colour of `n` changed, to `c`. */
  ghost predicate Painted(m: Mem, m': Mem, n: RbNode, c: Color) {
    SameBut(m, m', {n}) && n in m && n in m' && m'[n] == m[n].(color := c)
  }

  lemma PaintTop(m: Mem, m': Mem, p: Path, t: Tree, s: RbNode, root: RbNode, c: Color)
    requires At(m, p, t, s, root) && t.Node? && Painted(m, m', t.e.n, c)
    ensures At(m', p, t.(color := c), s, root)
  {
    var d := {t.e.n};
    TreeKept(m, m', t.left, s, d);
    TreeKept(m, m', t.right, s, d);
    PathKept(m, m', p, s, root, t.e.n, d);
  }

  lemma PaintAbove(m: Mem, m': Mem, p: Path, t: Tree, s: RbNode, root: RbNode, c: Color)
    requires At(m, p, t, s, root) && !p.Top? && Painted(m, m', p.e.n, c)
    ensures At(m', p.(color := c), t, s, root)
  {
    Up(m, p, t, s, root);
    PaintTop(m, m', p.up, One(p, t), s, root, c);
    Down(m', p.(color := c), t, s, root);
  }

  lemma PaintSibling(m: Mem, m': Mem, p: Path, t: Tree, s: RbNode, root: RbNode, c: Color)
    requires At(m, p, t, s, root) && !p.Top? && p.sib.Node? && Painted(m, m', p.sib.e.n, c)
    ensures At(m', WithSib(p, p.sib.(color := c)), t, s, root)
  {
    StepAcross(m, p, t, s, root);
    PaintTop(m, m', Across(p, t), p.sib, s, root, c);
    StepBack(m', p, t, p.sib.(color := c), s, root);
  }

  lemma PaintPair(m: Mem, m1: Mem, m': Mem, p: Path, t: Tree, s: RbNode, root: RbNode, c: Color, d: Color)
    requires At(m, p, t, s, root) && !p.Top? && p.sib.Node?
    requires Painted(m, m1, p.sib.e.n, c) && Painted(m1, m', p.e.n, d)
    ensures At(m', Recast(p, c, d), t, s, root)
  {
    PaintSibling(m, m1, p, t, s, root, c);
    PaintAbove(m1, m', WithSib(p, p.sib.(color := c)), t, s, root, d);
  }

  lemma PaintGrand(m: Mem, m': Mem, p: Path, t: Tree, s: RbNode, root: RbNode, c: Color)
    requires At(m, p, t, s, root) && !p.Top? && !p.up.Top? && Painted(m, m', p.up.e.n, c)
    ensures At(m', p.(up := p.up.(color := c)), t, s, root)
  {
    Up(m, p, t, s, root);
    PaintAbove(m, m', p.up, One(p, t), s, root, c);
    Down(m', p.(up := p.up.(color := c)), t, s, root);
  }

  /** The same tree, seen from the sibling of the place at the end of `p`. */
  ghost function Across(p: Path, t: Tree): Path
    requires !p.Top?
  {
    if p.InLeft? then InRight(p.e, p.color, t, p.up) else InLeft(p.e, p.color, t, p.up)
  }

  lemma StepAcross(m: Mem, p: Path, t: Tree, s: RbNode, root: RbNode)
    requires At(m, p, t, s, root) && !p.Top?
    ensures At(m, Across(p, t), p.sib, s, root)
  {
    Up(m, p, t, s, root);
    Down(m, Across(p, t), p.sib, s, root);
  }

  lemma StepBack(m: Mem, p: Path, t: Tree, w: Tree, s: RbNode, root: RbNode)
    requires !p.Top? && At(m, Across(p, t), w, s, root)
    ensures At(m, WithSib(p, w), t, s, root)
  {
    Up(m, Across(p, t), w, s, root);
    Down(m, WithSib(p, w), t, s, root);
  }

  /** `w` with one child painted. */
  ghost function ChildPainted(w: Tree, left: bool, c: Color): (r: Tree)
    requires w.Node? && Child(w, left).Node?
    ensures r.Node?
  {
    if left then w.(left := w.left.(color := c)) else w.(right := w.right.(color := c))
  }

  /** `w` red, with one child black. */
  ghost function Turned(w: Tree, left: bool): Tree
    requires w.Node? && Child(w, left).Node?
  {
    if left then Node(w.left.(color := Black), w.e, Red, w.right) else Node(w.left, w.e, Red, w.right.(color := Black))
  }

  lemma PaintChild(m: Mem, m': Mem, p: Path, w: Tree, s: RbNode, root: RbNode, left: bool, c: Color)
    requires At(m, p, w, s, root) && w.Node? && Child(w, left).Node? && Painted(m, m', Child(w, left).e.n, c)
    ensures At(m', p, ChildPainted(w, left, c), s, root)
  {
    Descend(m, p, w, s, root, left);
    var n := Child(w, left);
    PaintTop(m, m', Below(p, w, left), n, s, root, c);
    Up(m', Below(p, w, left), n.(color := c), s, root);
  }
}
