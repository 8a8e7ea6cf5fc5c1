/**
  The first half of rbtree_delete (src/core/shs_rbtree.cc:186-286) as a change of memory:
  a node leaves the tree, and either its only child or its successor takes its place.
*/
module RbSplice {
  import opened RbShape
  import opened RbMem

  lemma AtKept(m: Mem, m': Mem, p: Path, t: Tree, s: RbNode, root: RbNode, dirty: set<RbNode>)
    requires At(m, p, t, s, root) && SameBut(m, m', dirty)
    requires Nodes(t) !! dirty && PathNodes(p) !! dirty
    ensures At(m', p, t, s, root)
  {
    TreeKept(m, m', t, s, dirty);
    PathKept(m, m', p, s, root, Ptr(t, s), dirty);
  }

  // ----- a node with an empty side -----

  /** `x` takes the place of the node at the end of `p`. */
  ghost predicate Dropped(m: Mem, m': Mem, p: Path, t: Tree, x: Tree, root: RbNode) {
    && !p.Top? && t.Node?
    && (x.Node? ==> x.e.n in m && x.e.n in m' && m'[x.e.n] == m[x.e.n].(parent := p.e.n))
    && SameBut(m, m', {t.e.n, p.e.n} + TopSet(x))
  }

  lemma DroppedAt(m: Mem, m': Mem, p: Path, t: Tree, x: Tree, s: RbNode, root: RbNode)
    requires At(m, p, t, s, root) && Dropped(m, m', p, t, x, root) && Relinked(m, m', p, root, root, Ptr(x, s))
    requires x == t.left || x == t.right
    ensures At(m', p, x, s, root) && t.e.n !in Nodes(x) && t.e.n !in PathNodes(p)
  {
    Apart(m, t, s);
    var dirty := {t.e.n, p.e.n} + TopSet(x);
    TreeMoved(m, m', x, s, dirty, p.e.n);
    PathRelinked(m, m', p, s, root, root, t.e.n, Ptr(x, s), dirty);
  }

  // ----- a node with two children -----

  lemma SiblingClean(p: Path, dirty: set<RbNode>)
    requires PathDistinct(p) && !p.Top? && PathNodes(p) * dirty <= {p.e.n, TopNode(p)}
    ensures Nodes(p.sib) !! dirty
    ensures !p.up.Top? ==> PathNodes(p.up) * dirty <= {TopNode(p.up)}
    ensures !p.up.Top? && PathNodes(p) * dirty <= {TopNode(p)} ==> p.e.n !in dirty
  {
    TopNodeOnPath(p);
    forall n | n in PathNodes(p) && n in dirty
      ensures n !in Nodes(p.sib) && (n in PathNodes(p.up) ==> n == TopNode(p.up))
    {
      assert n in PathNodes(p) * dirty;
    }
    assert p.e.n in dirty ==> p.e.n in PathNodes(p) * dirty;
  }

  /** The path keeps its layout when its far end gets another parent. */
  lemma {:induction false} FarEndMoved(m: Mem, m': Mem, p: Path, s: RbNode, top: RbNode, hole: RbNode, dirty: set<RbNode>, n: RbNode)
    requires PathIn(m, p, s, top, hole) && PathDistinct(p) && !p.Top? && SameBut(m, m', dirty)
    requires PathNodes(p) * dirty <= {TopNode(p)}
    requires TopNode(p) in m && TopNode(p) in m' && m'[TopNode(p)] == m[TopNode(p)].(parent := n)
    ensures PathIn(m', p, s, top, hole)
  {
    TopNodeOnPath(p);
    SiblingClean(p, dirty);
    TreeKept(m, m', p.sib, s, dirty);
    if !p.up.Top? {
      FarEndMoved(m, m', p.up, s, top, p.e.n, dirty, n);
    }
  }

  /** The near end of the all-left path `p` now leads to `hole'`, and its far end has the parent `n`. */
  ghost predicate EndsMoved(m: Mem, m': Mem, p: Path, hole': RbNode, n: RbNode) {
    p.Top? ||
    (var (near, far) := (p.e.n, TopNode(p));
     && near in m && near in m' && far in m && far in m'
     && if p.up.Top? then m'[near] == m[near].(left := hole', parent := n)
        else m'[near] == m[near].(left := hole') && m'[far] == m[far].(parent := n))
  }

  lemma SegmentMoved(m: Mem, m': Mem, p: Path, s: RbNode, top: RbNode, hole: RbNode, hole': RbNode, dirty: set<RbNode>, n: RbNode)
    requires PathIn(m, p, s, top, hole) && PathDistinct(p) && p.InLeft? && SameBut(m, m', dirty)
    requires PathNodes(p) * dirty <= {p.e.n, TopNode(p)} && EndsMoved(m, m', p, hole', n)
    ensures PathIn(m', p, s, top, hole') && TopNode(p) in m' && m'[TopNode(p)].parent == n
  {
    TopNodeOnPath(p);
    SiblingClean(p, dirty);
    TreeKept(m, m', p.sib, s, dirty);
    if !p.up.Top? {
      FarEndMoved(m, m', p.up, s, top, p.e.n, dirty, n);
    }
  }

  lemma {:induction false} AppendIn(m: Mem, inner: Path, outer: Path, s: RbNode, root: RbNode, top: RbNode, hole: RbNode)
    requires PathIn(m, inner, s, top, hole) && PathIn(m, outer, s, root, top)
    requires !inner.Top? && !outer.Top? ==> TopNode(inner) in m && m[TopNode(inner)].parent == outer.e.n
    ensures PathIn(m, Append(inner, outer), s, root, hole)
  {
    if !inner.Top? {
      AppendIn(m, inner.up, outer, s, root, top, inner.e.n);
    }
  }

  /** The successor takes over the place of the removed node. */
  ghost function Successor(seg: Path, se: Entry, t: Tree, p: Path): Path
    requires t.Node?
  {
    Append(seg, InRight(se, t.color, t.left, p))
  }

  lemma SuccessorEnd(seg: Path, se: Entry, t: Tree, p: Path)
    requires t.Node?
    ensures !Successor(seg, se, t, p).Top?
    ensures Successor(seg, se, t, p).e == if seg.Top? then se else seg.e
  {
  }

  /** The nodes written when the successor `u` at the end of `seg` replaces the top of `t`. */
  ghost function SubstDirty(p: Path, t: Tree, seg: Path, u: Tree): set<RbNode>
    requires t.Node? && u.Node?
  {
    {t.e.n, u.e.n} + TopSet(t.left) + TopSet(u.right) + AboveNode(p) + if seg.Top? then {} else {seg.e.n, TopNode(seg)}
  }

  ghost predicate Substituted(m: Mem, m': Mem, p: Path, t: Tree, seg: Path, u: Tree, s: RbNode, root: RbNode, root': RbNode)
    requires t.Node? && t.left.Node? && t.right.Node? && u.Node?
  {
    var (x, l, r, n) := (u.right, t.left.e.n, t.right.e.n, u.e.n);
    && t.e.n in m && l in m && l in m' && n in m'
    && m'[n] == Cell(l, if seg.Top? then Ptr(x, s) else r, m[t.e.n].parent, t.color, u.e.key)
    && m'[l] == m[l].(parent := n)
    && (x.Node? ==> x.e.n in m && x.e.n in m' && m'[x.e.n] == m[x.e.n].(parent := if seg.Top? then n else seg.e.n))
    && EndsMoved(m, m', seg, Ptr(x, s), n)
    && Relinked(m, m', p, root, root', n)
    && SameBut(m, m', SubstDirty(p, t, seg, u))
  }

  /** `u` is the leftmost node below the right child of `t`. */
  ghost predicate Leftmost(t: Tree, seg: Path, u: Tree) {
    && t.Node? && t.right.Node? && u.Node? && u.left.Leaf? && Plug(seg, u) == t.right
    && (seg.Top? || seg.InLeft?) && Before(seg) == []
  }

  /** Where everything lies before the successor moves. */
  lemma Around(m: Mem, p: Path, t: Tree, seg: Path, u: Tree, s: RbNode, root: RbNode)
    requires At(m, p, t, s, root) && Leftmost(t, seg, u)
    requires At(m, seg, u, s, t.right.e.n)
    ensures Nodes(t.right) == PathNodes(seg) + Nodes(u)
    ensures Nodes(t.left) !! PathNodes(seg) && Nodes(t.left) !! Nodes(u)
    ensures PathNodes(p) !! PathNodes(seg) && PathNodes(p) !! Nodes(u) && PathNodes(p) !! Nodes(t.left)
    ensures t.e.n !in Nodes(t.left) + PathNodes(seg) + Nodes(u) + PathNodes(p)
    ensures u.e.n !in Nodes(u.right) && Nodes(u.right) <= Nodes(u)
    ensures !seg.Top? ==> TopNode(seg) == t.right.e.n && TopNode(seg) in PathNodes(seg)
    ensures seg.Top? ==> u == t.right
    ensures PathDistinct(seg) && Distinct(u) && Distinct(u.right) && TreeIn(m, u.right, s)
  {
    PlugNodes(seg, u);
    Apart(m, t, s);
    if !seg.Top? {
      PlugTop(seg, u);
      TopNodeOnPath(seg);
    }
  }

  /** Which of the written nodes lie below the removed node. */
  lemma DirtyBelow(m: Mem, p: Path, t: Tree, seg: Path, u: Tree, s: RbNode, root: RbNode)
    requires At(m, p, t, s, root) && Leftmost(t, seg, u) && t.left.Node?
    requires At(m, seg, u, s, t.right.e.n)
    ensures Nodes(t.left) * SubstDirty(p, t, seg, u) <= {t.left.e.n}
    ensures Nodes(u.right) * SubstDirty(p, t, seg, u) <= TopSet(u.right)
  {
    DirtyLeft(m, p, t, seg, u, s, root);
    DirtyRight(m, p, t, seg, u, s, root);
  }

  lemma DirtyLeft(m: Mem, p: Path, t: Tree, seg: Path, u: Tree, s: RbNode, root: RbNode)
    requires At(m, p, t, s, root) && Leftmost(t, seg, u) && t.left.Node?
    requires At(m, seg, u, s, t.right.e.n)
    ensures Nodes(t.left) * SubstDirty(p, t, seg, u) <= {t.left.e.n}
  {
    Around(m, p, t, seg, u, s, root);
    assert u.right.Node? ==> u.right.e.n in Nodes(u.right);
    assert !seg.Top? ==> seg.e.n in PathNodes(seg);
  }

  lemma DirtyRight(m: Mem, p: Path, t: Tree, seg: Path, u: Tree, s: RbNode, root: RbNode)
    requires At(m, p, t, s, root) && Leftmost(t, seg, u) && t.left.Node?
    requires At(m, seg, u, s, t.right.e.n)
    ensures Nodes(u.right) * SubstDirty(p, t, seg, u) <= TopSet(u.right)
  {
    Around(m, p, t, seg, u, s, root);
    assert t.left.e.n in Nodes(t.left);
    assert !seg.Top? ==> seg.e.n in PathNodes(seg);
  }

  /** Which of them lie on the two paths. */
  lemma DirtyPaths(m: Mem, p: Path, t: Tree, seg: Path, u: Tree, s: RbNode, root: RbNode)
    requires At(m, p, t, s, root) && Leftmost(t, seg, u) && t.left.Node?
    requires At(m, seg, u, s, t.right.e.n)
    ensures PathNodes(p) * SubstDirty(p, t, seg, u) <= AboveNode(p)
    ensures !seg.Top? ==> PathNodes(seg) * SubstDirty(p, t, seg, u) <= {seg.e.n, TopNode(seg)}
  {
    Around(m, p, t, seg, u, s, root);
    assert t.left.e.n in Nodes(t.left);
    assert u.right.Node? ==> u.right.e.n in Nodes(u.right);
  }

  /** The place of the removed node and everything above it. */
  lemma OuterIn(m: Mem, m': Mem, p: Path, t: Tree, seg: Path, u: Tree, s: RbNode, root: RbNode, root': RbNode)
    requires At(m, p, t, s, root) && Leftmost(t, seg, u) && t.left.Node?
    requires At(m, seg, u, s, t.right.e.n)
    requires Substituted(m, m', p, t, seg, u, s, root, root')
    ensures PathIn(m', InRight(u.e, t.color, t.left, p), s, root', if seg.Top? then Ptr(u.right, s) else t.right.e.n)
  {
    DirtyBelow(m, p, t, seg, u, s, root);
    DirtyPaths(m, p, t, seg, u, s, root);
    Apart(m, t, s);
    if !seg.Top? { PlugTop(seg, u); }
    var dirty := SubstDirty(p, t, seg, u);
    TreeMoved(m, m', t.left, s, dirty, u.e.n);
    PathRelinked(m, m', p, s, root, root', t.e.n, u.e.n, dirty);
  }

  /** The path from the old right child down to the place the successor left. */
  lemma InnerIn(m: Mem, m': Mem, p: Path, t: Tree, seg: Path, u: Tree, s: RbNode, root: RbNode, root': RbNode)
    requires At(m, p, t, s, root) && Leftmost(t, seg, u) && t.left.Node?
    requires At(m, seg, u, s, t.right.e.n)
    requires Substituted(m, m', p, t, seg, u, s, root, root')
    ensures TreeIn(m', u.right, s) && ParentIs(m', u.right, if seg.Top? then u.e.n else seg.e.n)
    ensures PathIn(m', seg, s, if seg.Top? then Ptr(u.right, s) else t.right.e.n, Ptr(u.right, s))
    ensures !seg.Top? ==> TopNode(seg) in m' && m'[TopNode(seg)].parent == u.e.n
  {
    DirtyBelow(m, p, t, seg, u, s, root);
    DirtyPaths(m, p, t, seg, u, s, root);
    var dirty := SubstDirty(p, t, seg, u);
    TreeMoved(m, m', u.right, s, dirty, if seg.Top? then u.e.n else seg.e.n);
    if !seg.Top? {
      SegmentMoved(m, m', seg, s, t.right.e.n, u.e.n, Ptr(u.right, s), dirty, u.e.n);
    }
  }

  // The three steps of the code, lines 226-248, 250-270 and 272-280.

  ghost predicate Detached(m: Mem, m': Mem, node: RbNode, subst: RbNode, temp: RbNode, s: RbNode) {
    && subst in m && m[subst].parent != null && m[subst].parent in m
    && (var q: RbNode := m[subst].parent;
        && q in m' && m'[q] == (if m[q].left == subst then m[q].(left := temp) else m[q].(right := temp))
        && (temp != s ==> temp in m && temp in m' && m'[temp] == m[temp].(parent := if q == node then subst else q))
        && SameBut(m, m', {q} + Unless(temp, s)))
  }

  ghost predicate TookPlace(m: Mem, m': Mem, node: RbNode, subst: RbNode, root: RbNode, root': RbNode) {
    && subst in m && subst in m' && node in m
    && m'[subst] == Cell(m[node].left, m[node].right, m[node].parent, m[node].color, m[subst].key)
    && Replaced(m, m', node, subst, root, root')
    && forall n :: n in m && n != subst && n !in Place(m, node, root) ==> n in m' && m'[n] == m[n]
  }

  ghost predicate Adopted(m: Mem, m': Mem, subst: RbNode, s: RbNode) {
    && subst in m && m[subst].left != null && m[subst].right != null
    && (var l: RbNode, r: RbNode := m[subst].left, m[subst].right;
        && (l != s ==> l in m && l in m' && m'[l] == m[l].(parent := subst))
        && (r != s ==> r in m && r in m' && m'[r] == m[r].(parent := subst))
        && SameBut(m, m', Unless(l, s) + Unless(r, s)))
  }

  /** Who is who before the first step. */
  lemma SubstFacts(m: Mem, p: Path, t: Tree, seg: Path, u: Tree, s: RbNode, root: RbNode)
    requires At(m, p, t, s, root) && Leftmost(t, seg, u) && t.left.Node?
    requires At(m, seg, u, s, t.right.e.n)
    ensures var (node, subst, temp, q) := (t.e.n, u.e.n, Ptr(u.right, s), if seg.Top? then t.e.n else seg.e.n);
      && node in m && subst in m && node != subst && q in m && m[subst].parent == q && q != subst && (q == node <==> seg.Top?)
      && (temp == s || temp in m) && temp !in {node, subst, q}
      && (node != root ==> !p.Top? && m[node].parent == p.e.n && p.e.n in m && p.e.n !in {node, subst})
  {
    Around(m, p, t, seg, u, s, root);
    Ends(m, p, t, s, root);
    Apart(m, t, s);
    Ends(m, seg, u, s, t.right.e.n);
    NodesIn(m, u.right, s);
  }

  /** What the last step relies on. */
  lemma TakenFacts(m0: Mem, m1: Mem, m2: Mem, p: Path, t: Tree, seg: Path, u: Tree, s: RbNode, root: RbNode, root': RbNode)
    requires At(m0, p, t, s, root) && Leftmost(t, seg, u) && t.left.Node?
    requires At(m0, seg, u, s, t.right.e.n)
    requires Detached(m0, m1, t.e.n, u.e.n, Ptr(u.right, s), s)
    requires TookPlace(m1, m2, t.e.n, u.e.n, root, root')
    ensures var (subst, l, r) := (u.e.n, t.left.e.n, if seg.Top? then Ptr(u.right, s) else t.right.e.n);
      && m2[subst].left == l && m2[subst].right == r && l in m0 && (r == s || r in m0) && subst !in {l, r}
  {
    Around(m0, p, t, seg, u, s, root);
    Ends(m0, p, t, s, root);
    Apart(m0, t, s);
    Apart(m0, t.left, s);
    Ends(m0, seg, u, s, t.right.e.n);
    NodesIn(m0, t.right, s);
  }

  lemma ComposedPlace(m0: Mem, m1: Mem, m2: Mem, m3: Mem, m4: Mem, p: Path, t: Tree, seg: Path, u: Tree,
                 s: RbNode, root: RbNode, root': RbNode)
    requires At(m0, p, t, s, root) && Leftmost(t, seg, u) && t.left.Node?
    requires At(m0, seg, u, s, t.right.e.n)
    requires Detached(m0, m1, t.e.n, u.e.n, Ptr(u.right, s), s)
    requires TookPlace(m1, m2, t.e.n, u.e.n, root, root')
    requires Adopted(m2, m3, u.e.n, s)
    requires SameBut(m3, m4, {t.e.n})
    ensures Relinked(m0, m4, p, root, root', u.e.n) && u.e.n in m4
    ensures m4[u.e.n] == Cell(t.left.e.n, if seg.Top? then Ptr(u.right, s) else t.right.e.n, m0[t.e.n].parent, t.color, u.e.key)
    ensures t.left.e.n in m4 && m4[t.left.e.n] == m0[t.left.e.n].(parent := u.e.n)
  {
    Around(m0, p, t, seg, u, s, root);
    Ends(m0, p, t, s, root);
    Apart(m0, t, s);
    Ends(m0, seg, u, s, t.right.e.n);
  }

  lemma ComposedChild(m0: Mem, m1: Mem, m2: Mem, m3: Mem, m4: Mem, p: Path, t: Tree, seg: Path, u: Tree,
                 s: RbNode, root: RbNode, root': RbNode)
    requires At(m0, p, t, s, root) && Leftmost(t, seg, u) && t.left.Node?
    requires At(m0, seg, u, s, t.right.e.n)
    requires Detached(m0, m1, t.e.n, u.e.n, Ptr(u.right, s), s)
    requires TookPlace(m1, m2, t.e.n, u.e.n, root, root')
    requires Adopted(m2, m3, u.e.n, s)
    requires SameBut(m3, m4, {t.e.n})
    ensures u.right.Node? ==> u.right.e.n in m0 && u.right.e.n in m4
    ensures u.right.Node? ==> m4[u.right.e.n] == m0[u.right.e.n].(parent := if seg.Top? then u.e.n else seg.e.n)
  {
    Around(m0, p, t, seg, u, s, root);
    Ends(m0, p, t, s, root);
    Apart(m0, t, s);
    Ends(m0, seg, u, s, t.right.e.n);
  }

  lemma ComposedSegment(m0: Mem, m1: Mem, m2: Mem, m3: Mem, m4: Mem, p: Path, t: Tree, seg: Path, u: Tree,
                 s: RbNode, root: RbNode, root': RbNode)
    requires At(m0, p, t, s, root) && Leftmost(t, seg, u) && t.left.Node?
    requires At(m0, seg, u, s, t.right.e.n)
    requires Detached(m0, m1, t.e.n, u.e.n, Ptr(u.right, s), s)
    requires TookPlace(m1, m2, t.e.n, u.e.n, root, root')
    requires Adopted(m2, m3, u.e.n, s)
    requires SameBut(m3, m4, {t.e.n})
    ensures EndsMoved(m0, m4, seg, Ptr(u.right, s), u.e.n)
  {
    Around(m0, p, t, seg, u, s, root);
    Ends(m0, p, t, s, root);
    Apart(m0, t, s);
    Ends(m0, seg, u, s, t.right.e.n);
  }

  lemma ComposedRest(m0: Mem, m1: Mem, m2: Mem, m3: Mem, m4: Mem, p: Path, t: Tree, seg: Path, u: Tree,
                 s: RbNode, root: RbNode, root': RbNode)
    requires At(m0, p, t, s, root) && Leftmost(t, seg, u) && t.left.Node?
    requires At(m0, seg, u, s, t.right.e.n)
    requires Detached(m0, m1, t.e.n, u.e.n, Ptr(u.right, s), s)
    requires TookPlace(m1, m2, t.e.n, u.e.n, root, root')
    requires Adopted(m2, m3, u.e.n, s)
    requires SameBut(m3, m4, {t.e.n})
    ensures SameBut(m0, m4, SubstDirty(p, t, seg, u))
  {
    Around(m0, p, t, seg, u, s, root);
    Ends(m0, p, t, s, root);
    Apart(m0, t, s);
    Ends(m0, seg, u, s, t.right.e.n);
  }

  lemma Composed(m0: Mem, m1: Mem, m2: Mem, m3: Mem, m4: Mem, p: Path, t: Tree, seg: Path, u: Tree,
                 s: RbNode, root: RbNode, root': RbNode)
    requires At(m0, p, t, s, root) && Leftmost(t, seg, u) && t.left.Node?
    requires At(m0, seg, u, s, t.right.e.n)
    requires Detached(m0, m1, t.e.n, u.e.n, Ptr(u.right, s), s)
    requires TookPlace(m1, m2, t.e.n, u.e.n, root, root')
    requires Adopted(m2, m3, u.e.n, s)
    requires SameBut(m3, m4, {t.e.n})
    ensures Substituted(m0, m4, p, t, seg, u, s, root, root')
  {
    Ends(m0, p, t, s, root);
    Apart(m0, t, s);
    Apart(m0, t.left, s);
    ComposedPlace(m0, m1, m2, m3, m4, p, t, seg, u, s, root, root');
    ComposedChild(m0, m1, m2, m3, m4, p, t, seg, u, s, root, root');
    ComposedSegment(m0, m1, m2, m3, m4, p, t, seg, u, s, root, root');
    ComposedRest(m0, m1, m2, m3, m4, p, t, seg, u, s, root, root');
  }

  lemma SubstitutedAt(m: Mem, m': Mem, p: Path, t: Tree, seg: Path, u: Tree, s: RbNode, root: RbNode, root': RbNode)
    requires At(m, p, t, s, root) && Leftmost(t, seg, u) && t.left.Node?
    requires At(m, seg, u, s, t.right.e.n)
    requires Substituted(m, m', p, t, seg, u, s, root, root')
    ensures At(m', Successor(seg, u.e, t, p), u.right, s, root')
    ensures t.e.n !in Nodes(u.right) && t.e.n !in PathNodes(Successor(seg, u.e, t, p))
  {
    Around(m, p, t, seg, u, s, root);
    OuterIn(m, m', p, t, seg, u, s, root, root');
    InnerIn(m, m', p, t, seg, u, s, root, root');
    var outer := InRight(u.e, t.color, t.left, p);
    AppendIn(m', seg, outer, s, root', if seg.Top? then Ptr(u.right, s) else t.right.e.n, Ptr(u.right, s));
    AppendDistinct(seg, outer);
    AppendContents(seg, outer);
  }

  /** The whole replacement, from the memory before it to the memory without the removed node. */
  lemma AllSubstituted(m0: Mem, m1: Mem, m2: Mem, m3: Mem, m4: Mem, p: Path, t: Tree, seg: Path, u: Tree,
                       s: RbNode, root: RbNode, root': RbNode)
    requires At(m0, p, t, s, root) && Leftmost(t, seg, u) && t.left.Node?
    requires At(m0, seg, u, s, t.right.e.n)
    requires Detached(m0, m1, t.e.n, u.e.n, Ptr(u.right, s), s)
    requires TookPlace(m1, m2, t.e.n, u.e.n, root, root')
    requires Adopted(m2, m3, u.e.n, s)
    requires SameBut(m3, m4, {t.e.n})
    ensures At(m4, Successor(seg, u.e, t, p), u.right, s, root')
  {
    Composed(m0, m1, m2, m3, m3, p, t, seg, u, s, root, root');
    SubstitutedAt(m0, m3, p, t, seg, u, s, root, root');
    AtKept(m3, m4, Successor(seg, u.e, t, p), u.right, s, root', {t.e.n});
  }
}
