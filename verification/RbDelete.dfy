/**
  The colour argument behind rbtree_delete (src/core/shs_rbtree.cc:288-364), on values.
*/
module RbDelete {
  import opened RbShape
  import opened RbMem
  import opened RbSplice

  /** No red-red pair, except perhaps between the topmost node and its children. */
  ghost predicate NoRedRedBelow(t: Tree) {
    t.Leaf? || (NoRedRed(t.left) && NoRedRed(t.right))
  }

  /**
    The state of the repair loop: below the hole of `p` one black node is missing.
    A red topmost node of `x` may sit next to another red one.
  */
  ghost predicate ShortHere(p: Path, x: Tree) {
    && Balanced(x) && NoRedRedBelow(x) && PathNoRedRed(p)
    && (p.Top? || PathBalanced(p, BlackHeight(x) + 1))
  }

  ghost function Steps(p: Path, x: Tree): nat {
    if p.Top? || IsRed(x) then 0 else Depth(p)
  }

  ghost function Blackened(x: Tree): Tree {
    if x.Leaf? then x else x.(color := Black)
  }

  /** When the loop ends, `rbtree_black(temp)` (line 364) restores every rule. */
  lemma Restored(p: Path, x: Tree)
    requires ShortHere(p, x) && (p.Top? || IsRed(x))
    ensures RedBlack(Plug(p, Blackened(x)))
    ensures Entries(Plug(p, Blackened(x))) == Contents(p, x)
  {
    PlugBalanced(p, Blackened(x));
    PlugRedBlack(p, Blackened(x));
    PlugEntries(p, Blackened(x));
    assert Entries(Blackened(x)) == Entries(x);
  }

  lemma SiblingExists(p: Path, x: Tree)
    requires ShortHere(p, x) && !p.Top?
    ensures p.sib.Node?
  {
  }

  ghost predicate BlackNephews(p: Path)
    requires !p.Top? && p.sib.Node?
  {
    !IsRed(p.sib.left) && !IsRed(p.sib.right)
  }

  lemma Joined(l: Tree, e: Entry, c: Color, r: Tree)
    requires Balanced(l) && Balanced(r) && BlackHeight(l) == BlackHeight(r) && NoRedRed(l) && NoRedRed(r)
    requires c == Red ==> !IsRed(l) && !IsRed(r)
    ensures var t := Node(l, e, c, r); Balanced(t) && NoRedRed(t) && BlackHeight(t) == BlackHeight(l) + Weight(c)
  {
  }

  /** The colour rules two levels below a sibling. */
  lemma NephewShape(w: Tree)
    requires Balanced(w) && NoRedRed(w) && w.Node?
    ensures Balanced(w.left) && NoRedRed(w.left) && Balanced(w.right) && NoRedRed(w.right)
    ensures BlackHeight(w.left) == BlackHeight(w.right) == BlackHeight(w) - Weight(w.color)
    ensures w.left.Node? ==> Balanced(w.left.left) && NoRedRed(w.left.left) && Balanced(w.left.right) && NoRedRed(w.left.right)
    ensures w.left.Node? ==> BlackHeight(w.left.left) == BlackHeight(w.left.right) == BlackHeight(w.left) - Weight(w.left.color)
    ensures w.right.Node? ==> Balanced(w.right.left) && NoRedRed(w.right.left) && Balanced(w.right.right) && NoRedRed(w.right.right)
    ensures w.right.Node? ==> BlackHeight(w.right.left) == BlackHeight(w.right.right) == BlackHeight(w.right) - Weight(w.right.color)
  {
    assert NoRedRed(w.left) && NoRedRed(w.right) && Balanced(w.left) && Balanced(w.right);
  }

  /** The sibling is painted red and the shortage moves up (lines 308-309 and 341-342). */
  ghost function Faded(p: Path): Path
    requires !p.Top? && p.sib.Node?
  {
    p.(sib := p.sib.(color := Red))
  }

  lemma MovedUp(p: Path, x: Tree)
    requires ShortHere(p, x) && !p.Top? && !IsRed(x) && p.sib.Node? && p.sib.color == Black && BlackNephews(p)
    ensures ShortHere(p.up, One(Faded(p), x)) && Steps(p.up, One(Faded(p), x)) < Steps(p, x)
    ensures Contents(p.up, One(Faded(p), x)) == Contents(p, x)
  {
    assert NoRedRed(x);
    UpContents(Faded(p), x);
    assert Entries(Faded(p).sib) == Entries(p.sib);
  }

  /** A red sibling is rotated above the parent (lines 298-304). */
  ghost function RedSiblingLeft(p: Path): Path
    requires p.InLeft? && p.sib.Node?
  {
    InLeft(p.e, Red, p.sib.left, InLeft(p.sib.e, Black, p.sib.right, p.up))
  }

  /** The parent and the red sibling after recolouring. */
  ghost function SwappedLeft(p: Path): Path
    requires p.InLeft? && p.sib.Node?
  {
    InLeft(p.e, Red, p.sib.(color := Black), p.up)
  }

  lemma RedSiblingRotatedLeft(p: Path, x: Tree)
    requires ShortHere(p, x) && !IsRed(x) && p.InLeft? && IsRed(p.sib)
    ensures var q := RedSiblingLeft(p);
      ShortHere(q, x) && q.sib.Node? && q.sib.color == Black && Contents(q, x) == Contents(p, x)
    ensures var u := RotatedLeft(One(SwappedLeft(p), x));
      RedSiblingLeft(p) == Below(Below(p.up, u, true), u.left, true) && u.left.Node? && u.left.left == x
  {
    var c, q := SwappedLeft(p), RedSiblingLeft(p);
    assert p.color == Black && PathBalanced(p.up, BlackHeight(x) + 2) && PathNoRedRed(p.up);
    assert NoRedRed(p.sib.left) && NoRedRed(p.sib.right) && Balanced(p.sib.left) && Balanced(p.sib.right);
    UpContents(p, x);
    RotatedLeftContents(One(c, x));
    assert Entries(c.sib) == Entries(p.sib);
    assert Entries(One(c, x)) == Entries(One(p, x));
    UpContents(q, x);
    UpContents(q.up, One(q, x));
  }

  /** A red inner nephew is rotated to the outside (lines 313-319). */
  ghost function InnerNephewLeft(p: Path): Path
    requires p.InLeft? && p.sib.Node? && p.sib.left.Node?
  {
    InLeft(p.e, p.color, RotatedRight(p.sib.(left := p.sib.left.(color := Black), color := Red)), p.up)
  }

  lemma NephewTurnedLeft(p: Path, x: Tree)
    requires ShortHere(p, x) && p.InLeft? && p.sib.Node? && p.sib.color == Black
    requires IsRed(p.sib.left) && !IsRed(p.sib.right)
    ensures var q := InnerNephewLeft(p);
      ShortHere(q, x) && q.sib.color == Black && IsRed(q.sib.right) && Contents(q, x) == Contents(p, x)
  {
    var w := p.sib.(left := p.sib.left.(color := Black), color := Red);
    NephewShape(p.sib);
    var n := p.sib.left;
    Joined(n.right, p.sib.e, Red, p.sib.right);
    Joined(n.left, n.e, Black, Node(n.right, p.sib.e, Red, p.sib.right));
    RotatedRightContents(w);
    assert Entries(w.left) == Entries(p.sib.left);
    assert Entries(w) == Entries(p.sib);
  }

  /** A red outer nephew lets the last rotation make up for the missing black node (lines 321-325). */
  ghost function OuterNephewLeft(p: Path): Path
    requires p.InLeft? && p.sib.Node? && p.sib.right.Node?
  {
    InLeft(p.e, Black, p.sib.(color := p.color, right := p.sib.right.(color := Black)), p.up)
  }

  /** The subtree that results at the old place of the parent. */
  ghost function SettledLeft(p: Path, x: Tree): Tree
    requires p.InLeft? && p.sib.Node? && p.sib.right.Node?
  {
    RotatedLeft(One(OuterNephewLeft(p), x))
  }

  lemma SettledLeftRules(p: Path, x: Tree)
    requires ShortHere(p, x) && !IsRed(x) && p.InLeft? && p.sib.Node? && p.sib.color == Black && IsRed(p.sib.right)
    ensures var u := SettledLeft(p, x);
      Balanced(u) && NoRedRed(u) && BlackHeight(u) == BlackHeight(x) + 1 + Weight(p.color) && u.color == p.color
  {
    NephewShape(p.sib);
    assert NoRedRed(x);
    var (w, n) := (p.sib, p.sib.right);
    Joined(n.left, n.e, Black, n.right);
    Joined(x, p.e, Black, w.left);
    Joined(Node(x, p.e, Black, w.left), w.e, p.color, n.(color := Black));
  }

  lemma SettledLeftContents(p: Path, x: Tree)
    requires p.InLeft? && p.sib.Node? && p.sib.right.Node?
    ensures Contents(p.up, SettledLeft(p, x)) == Contents(p, x)
  {
    var q := OuterNephewLeft(p);
    RotatedLeftContents(One(q, x));
    assert Entries(q.sib.right) == Entries(p.sib.right);
    assert Entries(q.sib) == Entries(p.sib);
    assert Entries(One(q, x)) == Entries(One(p, x));
    UpContents(p, x);
  }

  lemma AllSettledLeft(p: Path, x: Tree)
    requires ShortHere(p, x) && !IsRed(x) && p.InLeft? && p.sib.Node? && p.sib.color == Black && IsRed(p.sib.right)
    ensures var w := Plug(p.up, SettledLeft(p, x)); ShortHere(Top, w) && w.Node? && Contents(Top, w) == Contents(p, x)
  {
    var u := SettledLeft(p, x);
    SettledLeftRules(p, x);
    SettledLeftContents(p, x);
    PlugBalanced(p.up, u);
    PlugRedBlack(p.up, u);
    PlugEntries(p.up, u);
    if !p.up.Top? { PlugTop(p.up, u); }
  }

  /** A red sibling is rotated above the parent (lines 331-337). */
  ghost function RedSiblingRight(p: Path): Path
    requires p.InRight? && p.sib.Node?
  {
    InRight(p.e, Red, p.sib.right, InRight(p.sib.e, Black, p.sib.left, p.up))
  }

  /** The parent and the red sibling after recolouring. */
  ghost function SwappedRight(p: Path): Path
    requires p.InRight? && p.sib.Node?
  {
    InRight(p.e, Red, p.sib.(color := Black), p.up)
  }

  lemma RedSiblingRotatedRight(p: Path, x: Tree)
    requires ShortHere(p, x) && !IsRed(x) && p.InRight? && IsRed(p.sib)
    ensures var q := RedSiblingRight(p);
      ShortHere(q, x) && q.sib.Node? && q.sib.color == Black && Contents(q, x) == Contents(p, x)
    ensures var u := RotatedRight(One(SwappedRight(p), x));
      RedSiblingRight(p) == Below(Below(p.up, u, false), u.right, false) && u.right.Node? && u.right.right == x
  {
    var c, q := SwappedRight(p), RedSiblingRight(p);
    assert p.color == Black && PathBalanced(p.up, BlackHeight(x) + 2) && PathNoRedRed(p.up);
    assert NoRedRed(p.sib.left) && NoRedRed(p.sib.right) && Balanced(p.sib.left) && Balanced(p.sib.right);
    UpContents(p, x);
    RotatedRightContents(One(c, x));
    assert Entries(c.sib) == Entries(p.sib);
    assert Entries(One(c, x)) == Entries(One(p, x));
    UpContents(q, x);
    UpContents(q.up, One(q, x));
  }

  /** A red inner nephew is rotated to the outside (lines 346-352). */
  ghost function InnerNephewRight(p: Path): Path
    requires p.InRight? && p.sib.Node? && p.sib.right.Node?
  {
    InRight(p.e, p.color, RotatedLeft(p.sib.(right := p.sib.right.(color := Black), color := Red)), p.up)
  }

  lemma NephewTurnedRight(p: Path, x: Tree)
    requires ShortHere(p, x) && p.InRight? && p.sib.Node? && p.sib.color == Black
    requires IsRed(p.sib.right) && !IsRed(p.sib.left)
    ensures var q := InnerNephewRight(p);
      ShortHere(q, x) && q.sib.color == Black && IsRed(q.sib.left) && Contents(q, x) == Contents(p, x)
  {
    var w := p.sib.(right := p.sib.right.(color := Black), color := Red);
    NephewShape(p.sib);
    var n := p.sib.right;
    Joined(p.sib.left, p.sib.e, Red, n.left);
    Joined(Node(p.sib.left, p.sib.e, Red, n.left), n.e, Black, n.right);
    RotatedLeftContents(w);
    assert Entries(w.right) == Entries(p.sib.right);
    assert Entries(w) == Entries(p.sib);
  }

  /** A red outer nephew lets the last rotation make up for the missing black node (lines 354-359). */
  ghost function OuterNephewRight(p: Path): Path
    requires p.InRight? && p.sib.Node? && p.sib.left.Node?
  {
    InRight(p.e, Black, p.sib.(color := p.color, left := p.sib.left.(color := Black)), p.up)
  }

  /** The subtree that results at the old place of the parent. */
  ghost function SettledRight(p: Path, x: Tree): Tree
    requires p.InRight? && p.sib.Node? && p.sib.left.Node?
  {
    RotatedRight(One(OuterNephewRight(p), x))
  }

  lemma SettledRightRules(p: Path, x: Tree)
    requires ShortHere(p, x) && !IsRed(x) && p.InRight? && p.sib.Node? && p.sib.color == Black && IsRed(p.sib.left)
    ensures var u := SettledRight(p, x);
      Balanced(u) && NoRedRed(u) && BlackHeight(u) == BlackHeight(x) + 1 + Weight(p.color) && u.color == p.color
  {
    NephewShape(p.sib);
    assert NoRedRed(x);
    var (w, n) := (p.sib, p.sib.left);
    Joined(n.left, n.e, Black, n.right);
    Joined(w.right, p.e, Black, x);
    Joined(n.(color := Black), w.e, p.color, Node(w.right, p.e, Black, x));
  }

  lemma SettledRightContents(p: Path, x: Tree)
    requires p.InRight? && p.sib.Node? && p.sib.left.Node?
    ensures Contents(p.up, SettledRight(p, x)) == Contents(p, x)
  {
    var q := OuterNephewRight(p);
    RotatedRightContents(One(q, x));
    assert Entries(q.sib.left) == Entries(p.sib.left);
    assert Entries(q.sib) == Entries(p.sib);
    assert Entries(One(q, x)) == Entries(One(p, x));
    UpContents(p, x);
  }

  lemma AllSettledRight(p: Path, x: Tree)
    requires ShortHere(p, x) && !IsRed(x) && p.InRight? && p.sib.Node? && p.sib.color == Black && IsRed(p.sib.left)
    ensures var w := Plug(p.up, SettledRight(p, x)); ShortHere(Top, w) && w.Node? && Contents(Top, w) == Contents(p, x)
  {
    var u := SettledRight(p, x);
    SettledRightRules(p, x);
    SettledRightContents(p, x);
    PlugBalanced(p.up, u);
    PlugRedBlack(p.up, u);
    PlugEntries(p.up, u);
    if !p.up.Top? { PlugTop(p.up, u); }
  }

  // ----- where the repair starts -----

  lemma PathEntries(p: Path)
    ensures forall y :: y in Before(p) || y in After(p) ==> y.n in PathNodes(p)
  {
    if !p.Top? {
      PathEntries(p.up);
      NodesAreEntries(p.sib);
    }
  }

  /** The contents without the entry of the topmost node of `t`. */
  ghost function Rest(p: Path, t: Tree): seq<Entry>
    requires t.Node?
  {
    Before(p) + Entries(t.left) + (Entries(t.right) + After(p))
  }

  /** Taking that entry out of the contents. */
  lemma EntryRemoved(p: Path, t: Tree)
    requires t.Node? && Distinct(t) && PathDistinct(p) && Nodes(t) !! PathNodes(p)
    ensures Without(Contents(p, t), t.e.n) == Rest(p, t)
  {
    PathEntries(p);
    NodesAreEntries(t.left);
    NodesAreEntries(t.right);
    var a, b := Before(p) + Entries(t.left), Entries(t.right) + After(p);
    MiddleOut(Before(p), Entries(t.left), t.e, Entries(t.right), After(p));
    WithoutSplit(a, b, t.e);
  }

  /** A node with an empty side is replaced by its other child (lines 190-199). */
  lemma SimpleSplice(p: Path, t: Tree, x: Tree)
    requires RedBlack(Plug(p, t)) && t.Node?
    requires (t.left.Leaf? && x == t.right) || (t.right.Leaf? && x == t.left)
    ensures p.Top? ==> RedBlack(Blackened(x))
    ensures !p.Top? && t.color == Red ==> RedBlack(Plug(p, x))
    ensures !p.Top? && t.color == Black ==> ShortHere(p, x)
  {
    PlugBalanced(p, t);
    UnplugRedBlack(p, t);
    PlugBalanced(p, x);
    if !p.Top? && t.color == Red { PlugRedBlack(p, x); }
  }

  lemma SimpleSpliceContents(p: Path, t: Tree, x: Tree)
    requires t.Node?
    requires (t.left.Leaf? && x == t.right) || (t.right.Leaf? && x == t.left)
    ensures Contents(p, x) == Rest(p, t)
  {
    var b, s, a := Before(p), Entries(x), After(p);
    if t.left.Leaf? {
      assert b + [] + (s + a) == b + s + a;
    } else {
      assert b + s + ([] + a) == b + s + a;
    }
  }

  /** A root with an empty side gives way to its other side, painted black (lines 213-223). */
  lemma RootSplice(t: Tree, x: Tree)
    requires RedBlack(t) && t.Node?
    requires (t.left.Leaf? && x == t.right) || (t.right.Leaf? && x == t.left)
    ensures RedBlack(Blackened(x)) && Entries(Blackened(x)) == Rest(Top, t)
  {
    SimpleSplice(Top, t, x);
    SimpleSpliceContents(Top, t, x);
    assert Entries(Blackened(x)) == Entries(x);
    assert Contents(Top, x) == Entries(x);
  }

  /** Removing an entry keeps the order and gives up exactly its node. */
  lemma Removed(w: Tree, w': Tree, n: RbNode)
    requires Sorted(Entries(w)) && Entries(w') == Without(Entries(w), n)
    ensures Sorted(Entries(w')) && Nodes(w') == Nodes(w) - {n}
  {
    WithoutProps(Entries(w), n);
    WithoutNodes(Entries(w), n);
    NodesAreEntries(w);
    NodesAreEntries(w');
  }

  /** Colours along a path do not depend on the entries. */
  lemma {:induction false} Renamed(seg: Path, e: Entry, e': Entry, c: Color, l: Tree, p: Path, h: nat)
    ensures PathBalanced(Append(seg, InRight(e, c, l, p)), h) <==> PathBalanced(Append(seg, InRight(e', c, l, p)), h)
    ensures PathNoRedRed(Append(seg, InRight(e, c, l, p))) <==> PathNoRedRed(Append(seg, InRight(e', c, l, p)))
    ensures BlackAbove(Append(seg, InRight(e, c, l, p))) <==> BlackAbove(Append(seg, InRight(e', c, l, p)))
  {
    if !seg.Top? {
      Renamed(seg.up, e, e', c, l, p, h + Weight(seg.color));
    }
  }

  /** A node with two children is replaced by its successor (lines 200-210 and 239-281). */
  lemma SuccessorSplice(p: Path, t: Tree, seg: Path, u: Tree)
    requires RedBlack(Plug(p, t)) && Leftmost(t, seg, u)
    ensures u.color == Red ==> RedBlack(Plug(Successor(seg, u.e, t, p), u.right))
    ensures u.color == Black ==> ShortHere(Successor(seg, u.e, t, p), u.right)
  {
    var q0, q, x := Append(seg, InRight(t.e, t.color, t.left, p)), Successor(seg, u.e, t, p), u.right;
    AppendPlug(seg, InRight(t.e, t.color, t.left, p), u);
    PlugBalanced(q0, u);
    UnplugRedBlack(q0, u);
    Renamed(seg, t.e, u.e, t.color, t.left, p, BlackHeight(u));
    PlugBalanced(q, x);
    if u.color == Red { PlugRedBlack(q, x); }
  }

  lemma SuccessorSpliceContents(p: Path, t: Tree, seg: Path, u: Tree)
    requires Leftmost(t, seg, u)
    ensures Contents(Successor(seg, u.e, t, p), u.right) == Rest(p, t)
  {
    AppendContents(seg, InRight(u.e, t.color, t.left, p));
    PlugEntries(seg, u);
    var (a, l, x, b, c) := (Before(p), Entries(t.left), Entries(u.right), After(seg), After(p));
    assert Entries(u) == [u.e] + x;
    assert Entries(t.right) == [u.e] + x + b;
    FirstOut(u.e, x, b, a + l, c);
  }
}
