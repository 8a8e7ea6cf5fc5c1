/**
  The colour argument behind rbtree_insert (src/core/shs_rbtree.cc:56-107), on values.
*/
module RbInsert {
  import opened RbShape
  import opened RbMem

  /**
    The state of the re-balancing loop: `t` is the tree below the node being
    looked at.  All colour rules hold, except that `t` and the node above it
    may both be red, or `t` may be the whole tree and red.
  */
  ghost predicate RedHere(p: Path, t: Tree) {
    && IsRed(t) && NoRedRed(t) && Balanced(t)
    && PathBalanced(p, BlackHeight(t)) && PathNoRedRed(p)
  }

  ghost function FlippedUp(p: Path): Path
    requires !p.Top? && !p.up.Top? && p.up.sib.Node?
  {
    p.up.(color := Red, sib := p.up.sib.(color := Black))
  }

  /** Red uncle: parent and uncle become black, the grandparent red (lines 62-68 and 85-91). */
  lemma FlipColors(p: Path, t: Tree)
    requires RedHere(p, t) && !p.Top? && p.color == Red && IsRed(p.up.sib)
    ensures RedHere(p.up.up, One(FlippedUp(p), One(p.(color := Black), t)))
    ensures Contents(p.up.up, One(FlippedUp(p), One(p.(color := Black), t))) == Contents(p, t)
  {
    var t1, q := One(p.(color := Black), t), FlippedUp(p);
    assert PathBalanced(p.up, BlackHeight(t)) && PathNoRedRed(p.up);
    assert BlackHeight(t1) == BlackHeight(t) + 1;
    assert NoRedRed(q.sib) && BlackHeight(q.sib) == BlackHeight(p.up.sib) + 1;
    FlipContents(p, t);
  }

  lemma FlipContents(p: Path, t: Tree)
    requires !p.Top? && !p.up.Top? && p.up.sib.Node?
    ensures Contents(p.up.up, One(FlippedUp(p), One(p.(color := Black), t))) == Contents(p, t)
  {
    UpContents(p, t);
    UpContents(p.up, One(p, t));
    assert Entries(FlippedUp(p).sib) == Entries(p.up.sib);
    assert Entries(One(p.(color := Black), t)) == Entries(One(p, t));
  }

  /** An inner grandchild is first rotated to the outside (lines 71-75). */
  lemma InnerLeft(p: Path, t: Tree)
    requires RedHere(p, t) && p.InRight? && p.color == Red
    ensures var u := RotatedLeft(One(p, t)); var q := InLeft(u.e, u.color, u.right, p.up);
      RedHere(q, u.left) && q.color == Red && Contents(q, u.left) == Contents(p, t)
  {
    var u := RotatedLeft(One(p, t));
    RotatedLeftContents(One(p, t));
    UpContents(p, t);
    UpContents(InLeft(u.e, u.color, u.right, p.up), u.left);
  }

  lemma InnerRight(p: Path, t: Tree)
    requires RedHere(p, t) && p.InLeft? && p.color == Red
    ensures var u := RotatedRight(One(p, t)); var q := InRight(u.e, u.color, u.left, p.up);
      RedHere(q, u.right) && q.color == Red && Contents(q, u.right) == Contents(p, t)
  {
    var u := RotatedRight(One(p, t));
    RotatedRightContents(One(p, t));
    UpContents(p, t);
    UpContents(InRight(u.e, u.color, u.left, p.up), u.right);
  }

  ghost function Recolored(p: Path): Path
    requires !p.Top? && !p.up.Top?
  {
    p.(color := Black, up := p.up.(color := Red))
  }

  /** The tree at the grandparent, after recolouring. */
  ghost function Upper(p: Path, t: Tree): Tree
    requires !p.Top? && !p.up.Top?
  {
    One(Recolored(p).up, One(Recolored(p), t))
  }

  lemma UpperContents(p: Path, t: Tree)
    requires !p.Top? && !p.up.Top?
    ensures Contents(p.up.up, Upper(p, t)) == Contents(p, t)
  {
    UpContents(p, t);
    UpContents(p.up, One(p, t));
    assert Entries(One(Recolored(p), t)) == Entries(One(p, t));
  }

  /** Black uncle: the outside rotation ends the repair (lines 77-79). */
  lemma OuterLeft(p: Path, t: Tree)
    requires RedHere(p, t) && p.InLeft? && p.color == Red && p.up.InLeft? && !IsRed(p.up.sib)
    ensures var u := RotatedRight(Upper(p, t)); var q := InLeft(u.e, u.color, u.right, p.up.up);
      RedHere(q, t) && u.left == t && Contents(q, t) == Contents(p, t)
  {
    assert PathBalanced(p.up, BlackHeight(t)) && PathNoRedRed(p.up);
    var u := RotatedRight(Upper(p, t));
    RotatedRightContents(Upper(p, t));
    UpperContents(p, t);
    UpContents(InLeft(u.e, u.color, u.right, p.up.up), t);
  }

  lemma OuterRight(p: Path, t: Tree)
    requires RedHere(p, t) && p.InRight? && p.color == Red && p.up.InRight? && !IsRed(p.up.sib)
    ensures var u := RotatedLeft(Upper(p, t)); var q := InRight(u.e, u.color, u.left, p.up.up);
      RedHere(q, t) && u.right == t && Contents(q, t) == Contents(p, t)
  {
    assert PathBalanced(p.up, BlackHeight(t)) && PathNoRedRed(p.up);
    var u := RotatedLeft(Upper(p, t));
    RotatedLeftContents(Upper(p, t));
    UpperContents(p, t);
    UpContents(InRight(u.e, u.color, u.left, p.up.up), t);
  }

  /** When the loop ends, blackening the root restores every rule. */
  lemma Repaired(p: Path, t: Tree)
    requires RedHere(p, t) && BlackAbove(p)
    ensures var w := Plug(p, t); w.Node? && RedBlack(w.(color := Black)) && Entries(w) == Contents(p, t)
  {
    PlugBalanced(p, t);
    PlugEntries(p, t);
    if !p.Top? { PlugRedBlack(p, t); }
  }

  /** A red leaf in the place chosen for it is where the repair starts. */
  lemma InsertionPoint(p: Path, e: Entry)
    requires RedBlack(Plug(p, Leaf)) && Sorted(Entries(Plug(p, Leaf))) && Between(Before(p), e, After(p))
    ensures RedHere(p, Node(Leaf, e, Red, Leaf))
    ensures Contents(p, Node(Leaf, e, Red, Leaf)) == InsertSorted(Entries(Plug(p, Leaf)), e)
  {
    PlugBalanced(p, Leaf);
    UnplugRedBlack(p, Leaf);
    PlugEntries(p, Leaf);
    assert Contents(p, Leaf) == Before(p) + After(p);
    InsertSortedBetween(Before(p), After(p), e);
    assert Entries(Node(Leaf, e, Red, Leaf)) == [e];
  }
}
