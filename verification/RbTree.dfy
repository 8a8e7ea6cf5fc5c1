/**
  src/core/shs_rbtree.cc: the intrusive red-black tree, rewritten in place.
*/
module RbTree {
  import opened RbShape
  import opened RbMem
  import opened RbInsert
  import opened RbDelete
  import opened RbSplice

  /** The node colour macros of src/core/shs_rbtree.h:41-45, for a node of the tree. */
  method SetColor(n: RbNode, c: Color, ghost ns: set<RbNode>)
    requires n in ns
    modifies n`color
    ensures n.color == c && Painted(old(Snap(ns)), Snap(ns), n, c)
  {
    n.color := c;
  }

  class RbTree {
    var root: RbNode
    const sentinel: RbNode
    ghost var shape: Tree

    ghost predicate Linked(ns: set<RbNode>, p: Path, t: Tree)
      reads this, ns
    {
      At(Snap(ns), p, t, sentinel, root)
    }

    /** The tree is laid out in memory, obeys the colour rules and is sorted. */
    ghost predicate Valid()
      reads this, sentinel, Nodes(shape)
    {
      && sentinel.color == Black && Linked(Nodes(shape), Top, shape)
      && RedBlack(shape) && Sorted(Entries(shape))
    }

    lemma KeyOf(x: Entry)
      requires Valid() && x in Entries(shape)
      ensures x.n.key == x.key
    {
      EntryKeys(Snap(Nodes(shape)), shape, sentinel);
    }

    /** rbtree_init: an empty tree over the sentinel `s`, which becomes black. */
    constructor (s: RbNode)
      modifies s
      ensures Valid() && sentinel == s && shape == Leaf
    {
      root, sentinel := s, s;
      shape := Leaf;
      new;
      s.color := Black;
    }

    /** rbtree_left_rotate, field by field. */
    method LeftRotate(node: RbNode, ghost ns: set<RbNode>)
      requires sentinel !in ns && node in ns && node.right != null && node.right in ns
      requires node.right.left != null && (node.right.left == sentinel || node.right.left in ns)
      requires node != node.right && node != node.right.left && node.right != node.right.left
      requires node != root ==> node.parent in ns && node.parent !in {node, node.right, node.right.left}
      modifies `root, ns
      ensures SwungLeft(old(Snap(ns)), Snap(ns), node, sentinel, old(root), root)
    {
      var temp := node.right;
      node.right := temp.left;
      if temp.left != sentinel {
        temp.left.parent := node;
      }
      temp.parent := node.parent;
      if node == root {
        root := temp;
      } else if node == node.parent.left {
        node.parent.left := temp;
      } else {
        node.parent.right := temp;
      }
      temp.left := node;
      node.parent := temp;
    }

    /** rbtree_right_rotate, field by field. */
    method RightRotate(node: RbNode, ghost ns: set<RbNode>)
      requires sentinel !in ns && node in ns && node.left != null && node.left in ns
      requires node.left.right != null && (node.left.right == sentinel || node.left.right in ns)
      requires node != node.left && node != node.left.right && node.left != node.left.right
      requires node != root ==> node.parent in ns && node.parent !in {node, node.left, node.left.right}
      requires node != root ==> (node.parent.left == node <==> node.parent.right != node)
      modifies `root, ns
      ensures SwungRight(old(Snap(ns)), Snap(ns), node, sentinel, old(root), root)
    {
      var temp := node.left;
      node.left := temp.right;
      if temp.right != sentinel {
        temp.right.parent := node;
      }
      temp.parent := node.parent;
      if node == root {
        root := temp;
      } else if node == node.parent.right {
        node.parent.right := temp;
      } else {
        node.parent.left := temp;
      }
      temp.right := node;
      node.parent := temp;
    }

    /** The left rotation as a change of shape at the end of the path `p`. */
    method LeftRotateAt(node: RbNode, ghost ns: set<RbNode>, ghost p: Path, ghost t: Tree)
      requires sentinel !in ns && Linked(ns, p, t) && t.Node? && t.right.Node? && t.e.n == node
      modifies `root, ns
      ensures Linked(ns, p, RotatedLeft(t))
    {
      ghost var m, r := Snap(ns), root;
      Ends(m, p, t, sentinel, root);
      Apart(m, t, sentinel);
      Apart(m, t.right, sentinel);
      LeftRotate(node, ns);
      LeftRotated(m, Snap(ns), p, t, sentinel, r, root);
    }

    method RightRotateAt(node: RbNode, ghost ns: set<RbNode>, ghost p: Path, ghost t: Tree)
      requires sentinel !in ns && Linked(ns, p, t) && t.Node? && t.left.Node? && t.e.n == node
      modifies `root, ns
      ensures Linked(ns, p, RotatedRight(t))
    {
      ghost var m, r := Snap(ns), root;
      Ends(m, p, t, sentinel, root);
      Apart(m, t, sentinel);
      Apart(m, t.left, sentinel);
      RightRotate(node, ns);
      RightRotated(m, Snap(ns), p, t, sentinel, r, root);
    }

    // ----- insertion -----

    ghost predicate Repairing(ns: set<RbNode>, p: Path, t: Tree, es: seq<Entry>)
      reads this, ns, sentinel
    {
      && sentinel !in ns && sentinel.color == Black
      && Linked(ns, p, t) && RedHere(p, t) && Contents(p, t) == es
    }

    /** Red uncle `temp`: lines 64-67 and 87-90. */
    method FlipUp(node0: RbNode, temp: RbNode, ghost ns: set<RbNode>, ghost p: Path, ghost t: Tree, ghost es: seq<Entry>)
      returns (node: RbNode, ghost p': Path, ghost t': Tree)
      requires Repairing(ns, p, t, es) && t.e.n == node0 && !p.Top? && p.color == Red
      requires IsRed(p.up.sib) && temp == p.up.sib.e.n
      modifies ns
      ensures Repairing(ns, p', t', es) && t'.e.n == node && Depth(p') < Depth(p)
    {
      node := node0;
      ghost var m0 := Snap(ns);
      Ends(m0, p, t, sentinel, root);
      Up(m0, p, t, sentinel, root);
      Ends(m0, p.up, One(p, t), sentinel, root);
      SetColor(node.parent, Black, ns);
      ghost var m1 := Snap(ns);
      PaintAbove(m0, m1, p, t, sentinel, root, Black);
      ghost var p1, u := p.(color := Black), One(p.(color := Black), t);
      Up(m1, p1, t, sentinel, root);
      SetColor(temp, Black, ns);
      ghost var m2 := Snap(ns);
      PaintSibling(m1, m2, p.up, u, sentinel, root, Black);
      ghost var q := p.up.(sib := p.up.sib.(color := Black));
      SetColor(node.parent.parent, Red, ns);
      ghost var m3 := Snap(ns);
      PaintAbove(m2, m3, q, u, sentinel, root, Red);
      assert q.(color := Red) == FlippedUp(p);
      Up(m3, FlippedUp(p), u, sentinel, root);
      FlipColors(p, t);
      node := node.parent.parent;
      p', t' := p.up.up, One(FlippedUp(p), u);
    }

    /** Parent black, grandparent red: lines 77-78 and 100-101. */
    method Recolor(node: RbNode, ghost ns: set<RbNode>, ghost p: Path, ghost t: Tree)
      requires sentinel !in ns && Linked(ns, p, t) && t.Node? && t.e.n == node && !p.Top? && !p.up.Top?
      modifies ns
      ensures Linked(ns, Recolored(p), t)
      ensures node.parent == p.e.n && p.e.n in ns && p.e.n.parent == p.up.e.n
    {
      ghost var m0 := Snap(ns);
      Ends(m0, p, t, sentinel, root);
      Up(m0, p, t, sentinel, root);
      Ends(m0, p.up, One(p, t), sentinel, root);
      SetColor(node.parent, Black, ns);
      ghost var m1 := Snap(ns);
      PaintAbove(m0, m1, p, t, sentinel, root, Black);
      SetColor(node.parent.parent, Red, ns);
      PaintGrand(m1, Snap(ns), p.(color := Black), t, sentinel, root, Red);
    }

    /** An inner grandchild: lines 71-75. */
    method StraightenLeft(node0: RbNode, ghost ns: set<RbNode>, ghost p0: Path, ghost t0: Tree, ghost es: seq<Entry>)
      returns (node: RbNode, ghost p: Path, ghost t: Tree)
      requires Repairing(ns, p0, t0, es) && t0.e.n == node0 && !p0.Top? && p0.color == Red
      modifies `root, ns
      ensures Repairing(ns, p, t, es) && t.e.n == node && p.InLeft? && p.color == Red && p.up == p0.up
    {
      node := node0;
      p, t := p0, t0;
      Ends(Snap(ns), p, t, sentinel, root);
      if node == node.parent.right {
        node := node.parent;
        ghost var u := RotatedLeft(One(p, t));
        Up(Snap(ns), p, t, sentinel, root);
        InnerLeft(p, t);
        LeftRotateAt(node, ns, p.up, One(p, t));
        Descend(Snap(ns), p.up, u, sentinel, root, true);
        p, t := Below(p.up, u, true), u.left;
      }
    }

    /** Black uncle on the right: lines 71-79. */
    method LiftRight(node0: RbNode, ghost ns: set<RbNode>, ghost p0: Path, ghost t0: Tree, ghost es: seq<Entry>)
      returns (node: RbNode, ghost p': Path, ghost t': Tree)
      requires Repairing(ns, p0, t0, es) && t0.e.n == node0 && !p0.Top? && p0.color == Red
      requires p0.up.InLeft? && !IsRed(p0.up.sib)
      modifies `root, ns
      ensures Repairing(ns, p', t', es) && t'.e.n == node && Depth(p') < Depth(p0)
    {
      ghost var p, t;
      node, p, t := StraightenLeft(node0, ns, p0, t0, es);
      Recolor(node, ns, p, t);
      OuterLeft(p, t);
      Up(Snap(ns), Recolored(p), t, sentinel, root);
      Up(Snap(ns), Recolored(p).up, One(Recolored(p), t), sentinel, root);
      RightRotateAt(node.parent.parent, ns, p.up.up, Upper(p, t));
      ghost var u := RotatedRight(Upper(p, t));
      Descend(Snap(ns), p.up.up, u, sentinel, root, true);
      p', t' := Below(p.up.up, u, true), t;
    }

    /** An inner grandchild: lines 94-98. */
    method StraightenRight(node0: RbNode, ghost ns: set<RbNode>, ghost p0: Path, ghost t0: Tree, ghost es: seq<Entry>)
      returns (node: RbNode, ghost p: Path, ghost t: Tree)
      requires Repairing(ns, p0, t0, es) && t0.e.n == node0 && !p0.Top? && p0.color == Red
      modifies `root, ns
      ensures Repairing(ns, p, t, es) && t.e.n == node && p.InRight? && p.color == Red && p.up == p0.up
    {
      node := node0;
      p, t := p0, t0;
      Ends(Snap(ns), p, t, sentinel, root);
      if node == node.parent.left {
        node := node.parent;
        ghost var u := RotatedRight(One(p, t));
        Up(Snap(ns), p, t, sentinel, root);
        InnerRight(p, t);
        RightRotateAt(node, ns, p.up, One(p, t));
        Descend(Snap(ns), p.up, u, sentinel, root, false);
        p, t := Below(p.up, u, false), u.right;
      }
    }

    /** Black uncle on the left: lines 94-102. */
    method LiftLeft(node0: RbNode, ghost ns: set<RbNode>, ghost p0: Path, ghost t0: Tree, ghost es: seq<Entry>)
      returns (node: RbNode, ghost p': Path, ghost t': Tree)
      requires Repairing(ns, p0, t0, es) && t0.e.n == node0 && !p0.Top? && p0.color == Red
      requires p0.up.InRight? && !IsRed(p0.up.sib)
      modifies `root, ns
      ensures Repairing(ns, p', t', es) && t'.e.n == node && Depth(p') < Depth(p0)
    {
      ghost var p, t;
      node, p, t := StraightenRight(node0, ns, p0, t0, es);
      Recolor(node, ns, p, t);
      OuterRight(p, t);
      Up(Snap(ns), Recolored(p), t, sentinel, root);
      Up(Snap(ns), Recolored(p).up, One(Recolored(p), t), sentinel, root);
      LeftRotateAt(node.parent.parent, ns, p.up.up, Upper(p, t));
      ghost var u := RotatedLeft(Upper(p, t));
      Descend(Snap(ns), p.up.up, u, sentinel, root, false);
      p', t' := Below(p.up.up, u, false), t;
    }

    /** The search starts at the root, with nothing passed on either side. */
    lemma AtRoot(x: Entry)
      requires Valid() && shape.Node?
      ensures At(Snap(Nodes(shape)), Top, shape, sentinel, root) && shape.e.n == root && Plug(Top, shape) == shape
      ensures Between(Before(Top), x, After(Top))
    {
    }

    /** A step to the side of the key keeps what has been passed on the right sides of it. */
    lemma StillBetween(p: Path, t: Tree, x: Entry, left: bool)
      requires t.Node? && Between(Before(p), x, After(p)) && (left <==> x.key < t.e.key)
      ensures Between(Before(Below(p, t, left)), x, After(Below(p, t, left)))
    {
      hide Entries;
    }

    /** The search loop of rbtree_insert_timer_value: lines 145-171. */
    method FindPlace(key: int, ghost x: Entry) returns (last: RbNode, left: bool, ghost p: Path)
      requires Valid() && shape.Node? && x.key == key
      ensures At(Snap(Nodes(shape)), p, Leaf, sentinel, root) && !p.Top? && Plug(p, Leaf) == shape
      ensures last == p.e.n && (left <==> p.InLeft?)
      ensures Between(Before(p), x, After(p))
    {
      hide At, Plug, Between, Before, After;
      last := root;
      ghost var m, t := Snap(Nodes(shape)), shape;
      p := Top;
      AtRoot(x);
      while true
        invariant At(m, p, t, sentinel, root) && t.Node? && t.e.n == last && Plug(p, t) == shape
        invariant Between(Before(p), x, After(p))
        decreases t
      {
        Ends(m, p, t, sentinel, root);
        left := key < last.key;
        var next := if left then last.left else last.right;
        Descend(m, p, t, sentinel, root, left);
        StillBetween(p, t, x, left);
        p, t := Below(p, t, left), Child(t, left);
        if next == sentinel {
          NodesIn(m, t, sentinel);
          return;
        }
        last := next;
      }
    }

    /** The new node is hung below the last node of the search, red, with two empty sides: lines 173-178. */
    method Hang(node: RbNode, last: RbNode, left: bool, ghost ns: set<RbNode>)
      requires last in ns && node !in ns
      modifies node, last
      ensures SameBut(old(Snap(ns)), Snap(ns + {node}), {last, node})
      ensures Snap(ns + {node})[node] == Cell(sentinel, sentinel, last, Red, old(node.key))
      ensures Snap(ns + {node})[last] ==
        if left then old(Snap(ns))[last].(left := node) else old(Snap(ns))[last].(right := node)
    {
      if left {
        last.left := node;
      } else {
        last.right := node;
      }
      node.parent := last;
      node.left := sentinel;
      node.right := sentinel;
      node.color := Red;
    }

    /**
      rbtree_insert_timer_value: hang `node` in the empty place after every node with a key that is not
      larger.  `p` is that place.
    */
    method InsertTimerValue(node: RbNode) returns (ghost p: Path)
      requires Valid() && shape.Node? && node !in Nodes(shape) && node != sentinel
      modifies node, Nodes(shape)
      ensures node.key == old(node.key) && !p.Top? && Plug(p, Leaf) == shape
      ensures Linked(Nodes(shape) + {node}, p, Node(Leaf, Entry(node, node.key), Red, Leaf))
      ensures Between(Before(p), Entry(node, node.key), After(p))
    {
      ghost var m := Snap(Nodes(shape));
      var last, left;
      last, left, p := FindPlace(node.key, Entry(node, node.key));
      PathNodesIn(m, p, sentinel, root, sentinel);
      Hang(node, last, left, Nodes(shape));
      Attached(m, Snap(Nodes(shape) + {node}), p, Entry(node, node.key), sentinel, root);
    }

    /** One turn of the re-balancing loop: lines 59-104. */
    method InsertStep(node0: RbNode, ghost ns: set<RbNode>, ghost p: Path, ghost t: Tree, ghost es: seq<Entry>)
      returns (node: RbNode, ghost p': Path, ghost t': Tree)
      requires Repairing(ns, p, t, es) && t.e.n == node0 && !p.Top? && p.color == Red
      modifies `root, ns
      ensures Repairing(ns, p', t', es) && t'.e.n == node && Depth(p') < Depth(p)
    {
      node := node0;
      Ends(Snap(ns), p, t, sentinel, root);
      Up(Snap(ns), p, t, sentinel, root);
      Ends(Snap(ns), p.up, One(p, t), sentinel, root);
      if node.parent == node.parent.parent.left {
        var temp := node.parent.parent.right;
        if temp.color == Red {
          node, p', t' := FlipUp(node, temp, ns, p, t, es);
        } else {
          node, p', t' := LiftRight(node, ns, p, t, es);
        }
      } else {
        var temp := node.parent.parent.left;
        if temp.color == Red {
          node, p', t' := FlipUp(node, temp, ns, p, t, es);
        } else {
          node, p', t' := LiftLeft(node, ns, p, t, es);
        }
      }
    }

    /** The re-balancing loop of rbtree_insert: lines 57-107. */
    method InsertFixup(node0: RbNode, ghost ns: set<RbNode>, ghost p0: Path, ghost t0: Tree, ghost es: seq<Entry>)
      requires Repairing(ns, p0, t0, es) && t0.e.n == node0
      modifies `root, `shape, ns
      ensures Linked(ns, Top, shape) && RedBlack(shape) && Entries(shape) == es
    {
      var node := node0;
      ghost var p, t := p0, t0;
      Ends(Snap(ns), p, t, sentinel, root);
      while node != root && node.parent.color == Red
        invariant Repairing(ns, p, t, es) && t.e.n == node
        invariant node == root <==> p.Top?
        invariant node != root ==> node.parent == p.e.n && p.e.n in ns && p.e.n.color == p.color
        decreases Depth(p)
      {
        node, p, t := InsertStep(node, ns, p, t, es);
        Ends(Snap(ns), p, t, sentinel, root);
      }
      BlackenRoot(ns, p, t);
    }

    /** `rbtree_black(*root)`: line 107. */
    method BlackenRoot(ghost ns: set<RbNode>, ghost p: Path, ghost t: Tree)
      requires Linked(ns, p, t) && RedHere(p, t) && BlackAbove(p)
      modifies `shape, ns
      ensures Linked(ns, Top, shape) && RedBlack(shape) && Entries(shape) == Contents(p, t)
    {
      Repaired(p, t);
      ghost var m, w := Snap(ns), Plug(p, t);
      UpToRoot(m, p, t, sentinel, root);
      SetColor(root, Black, ns);
      PaintTop(m, Snap(ns), Top, w, sentinel, root, Black);
      shape := w.(color := Black);
    }

    /** rbtree_insert into an empty tree: the parent of the new root is cleared. */
    method Plant(node: RbNode)
      requires Valid() && shape == Leaf && node != sentinel
      modifies this, node
      ensures Valid() && shape == Node(Leaf, Entry(node, old(node.key)), Black, Leaf)
    {
      node.parent := null;
      node.left := sentinel;
      node.right := sentinel;
      node.color := Black;
      root := node;
      shape := Node(Leaf, Entry(node, node.key), Black, Leaf);
      assert TreeIn(Snap({node}), shape, sentinel) && Nodes(shape) == {node};
    }

    /** rbtree_insert. */
    method Insert(node: RbNode)
      requires Valid() && node !in Nodes(shape) && node != sentinel
      modifies this, node, Nodes(shape)
      ensures Valid()
      ensures Entries(shape) == InsertSorted(old(Entries(shape)), Entry(node, old(node.key)))
      ensures Nodes(shape) == old(Nodes(shape)) + {node}
    {
      hide RedBlack;
      ghost var e, ns := Entry(node, node.key), Nodes(shape) + {node};
      NodesIn(Snap(Nodes(shape)), shape, sentinel);
      if root == sentinel {
        Plant(node);
        assert Entries(shape) == [e];
      } else {
        ghost var es := InsertSorted(Entries(shape), e);
        InsertSortedProps(Entries(shape), e);
        ghost var p := InsertTimerValue(node);
        InsertionPoint(p, e);
        InsertFixup(node, ns, p, Node(Leaf, e, Red, Leaf), es);
        GainsOne(old(shape), shape, e);
      }
    }

    lemma GainsOne(w: Tree, t: Tree, e: Entry)
      requires Entries(t) == InsertSorted(Entries(w), e)
      ensures Nodes(t) == Nodes(w) + {e.n}
    {
      NodesAreEntries(w);
      NodesAreEntries(t);
      InsertSortedNodes(Entries(w), e);
    }

    // ----- deletion -----

    ghost predicate Short(ns: set<RbNode>, p: Path, x: Tree, es: seq<Entry>, temp: RbNode)
      reads this, ns, sentinel
    {
      && sentinel !in ns && sentinel.color == Black
      && Linked(ns, p, x) && ShortHere(p, x) && Contents(p, x) == es && temp == Ptr(x, sentinel)
      && (if p.Top? then x.Node? else x.Leaf? ==> sentinel.parent == p.e.n)
    }

    /** What the loop reads next to `temp`. */
    lemma Neighbours(ns: set<RbNode>, p: Path, x: Tree, es: seq<Entry>, temp: RbNode)
      requires Short(ns, p, x, es, temp)
      ensures temp == root <==> p.Top?
      ensures temp.color == Black <==> !IsRed(x)
      ensures !p.Top? ==> p.e.n in ns && temp.parent == p.e.n && p.sib.Node? && p.sib.e.n in ns
      ensures !p.Top? ==> (p.e.n.left == temp <==> p.InLeft?) && p.sib.e.n.color == p.sib.color && p.e.n.color == p.color
      ensures p.InLeft? ==> p.e.n.right == p.sib.e.n
      ensures p.InRight? ==> p.e.n.left == p.sib.e.n
      ensures !p.Top? ==> p.sib.e.n.left == Ptr(p.sib.left, sentinel) && p.sib.e.n.right == Ptr(p.sib.right, sentinel)
      ensures !p.Top? ==> (var l: RbNode := p.sib.e.n.left; l.color == Red <==> IsRed(p.sib.left))
      ensures !p.Top? ==> (var r: RbNode := p.sib.e.n.right; r.color == Red <==> IsRed(p.sib.right))
    {
      ghost var m := Snap(ns);
      PathNodesIn(m, p, sentinel, root, temp);
      NodesIn(m, x, sentinel);
      if !p.Top? {
        SiblingExists(p, x);
        NodesIn(m, p.sib, sentinel);
        assert TreeIn(m, p.sib.left, sentinel) && TreeIn(m, p.sib.right, sentinel);
      }
    }

    /** The links around the hole of `p`, which holds `temp`. */
    lemma HoleLinks(ns: set<RbNode>, p: Path, x: Tree, temp: RbNode)
      requires Linked(ns, p, x) && temp == Ptr(x, sentinel) && !p.Top? && p.sib.Node?
      requires x.Leaf? ==> sentinel.parent == p.e.n
      ensures p.e.n in ns && temp.parent == p.e.n
      ensures if p.InLeft? then p.e.n.right == p.sib.e.n else p.e.n.left == p.sib.e.n
    {
    }

    /** The inner nephew becomes black and the sibling red: lines 315-316 and 348-349. */
    method TurnColors(w: RbNode, nephew: RbNode, ghost ns: set<RbNode>, ghost q: Path, ghost t: Tree, ghost left: bool)
      requires Linked(ns, q, t) && t.Node? && w == t.e.n && Child(t, left).Node? && nephew == Child(t, left).e.n
      requires w in ns && nephew in ns
      modifies ns
      ensures Linked(ns, q, Turned(t, left))
    {
      ghost var m0 := Snap(ns);
      SetColor(nephew, Black, ns);
      ghost var m1 := Snap(ns);
      PaintChild(m0, m1, q, t, sentinel, root, left, Black);
      SetColor(w, Red, ns);
      PaintTop(m1, Snap(ns), q, ChildPainted(t, left, Black), sentinel, root, Red);
    }

    /** Both nephews are black: the sibling turns red and the shortage moves up (lines 308-309 and 341-342). */
    method MoveUp(temp0: RbNode, w: RbNode, ghost ns: set<RbNode>, ghost p: Path, ghost x: Tree, ghost es: seq<Entry>)
      returns (temp: RbNode, ghost p': Path, ghost x': Tree)
      requires Short(ns, p, x, es, temp0) && !p.Top? && !IsRed(x)
      requires p.sib.Node? && w == p.sib.e.n && p.sib.color == Black && BlackNephews(p)
      modifies ns
      ensures Short(ns, p', x', es, temp) && p' == p.up && x' == One(Faded(p), x)
    {
      Neighbours(ns, p, x, es, temp0);
      ghost var m := Snap(ns);
      SetColor(w, Red, ns);
      PaintSibling(m, Snap(ns), p, x, sentinel, root, Red);
      Up(Snap(ns), Faded(p), x, sentinel, root);
      MovedUp(p, x);
      temp := temp0.parent;
      p', x' := p.up, One(Faded(p), x);
    }

    /** After lines 325 and 358 the repair goes on at the root. */
    lemma Restarted(ns: set<RbNode>, q: Path, u: Tree, es: seq<Entry>)
      requires sentinel !in ns && sentinel.color == Black && Linked(ns, q, u)
      requires ShortHere(Top, Plug(q, u)) && Plug(q, u).Node? && Contents(Top, Plug(q, u)) == es
      ensures Short(ns, Top, Plug(q, u), es, root)
    {
      UpToRoot(Snap(ns), q, u, sentinel, root);
    }

    /** The sibling and the parent take the colours `c` and `d`: lines 300-301, 321-322, 333-334 and 354-355. */
    method RecastPair(temp: RbNode, w: RbNode, c: Color, d: Color, ghost ns: set<RbNode>, ghost p: Path, ghost x: Tree)
      requires Linked(ns, p, x) && !p.Top? && p.sib.Node? && w == p.sib.e.n && w in ns
      requires temp.parent == p.e.n && p.e.n in ns && temp !in {w, p.e.n}
      modifies ns
      ensures Linked(ns, Recast(p, c, d), x) && temp.parent == p.e.n
      ensures w.left == old(w.left) && w.right == old(w.right)
    {
      ghost var m0 := Snap(ns);
      SetColor(w, c, ns);
      ghost var m1 := Snap(ns);
      SetColor(temp.parent, d, ns);
      PaintPair(m0, m1, Snap(ns), p, x, sentinel, root, c, d);
    }

    lemma RaisedLeft(ns: set<RbNode>, p: Path, x: Tree)
      requires p.InLeft? && p.sib.Node? && p.sib.left.Node?
      requires Linked(ns, p.up, RotatedLeft(One(SwappedLeft(p), x)))
      ensures Linked(ns, RedSiblingLeft(p), x)
    {
      var u := RotatedLeft(One(SwappedLeft(p), x));
      Descend(Snap(ns), p.up, u, sentinel, root, true);
      Descend(Snap(ns), Below(p.up, u, true), u.left, sentinel, root, true);
    }

    /** A red sibling on the right is rotated above the parent: lines 300-303. */
    method RaiseSiblingLeft(temp: RbNode, w0: RbNode, ghost ns: set<RbNode>, ghost p: Path, ghost x: Tree, ghost es: seq<Entry>)
      returns (w: RbNode, ghost p': Path)
      requires Short(ns, p, x, es, temp) && p.InLeft? && !IsRed(x) && IsRed(p.sib) && w0 == p.sib.e.n
      modifies `root, ns
      ensures Short(ns, p', x, es, temp) && p' == RedSiblingLeft(p)
      ensures p'.sib.Node? && p'.sib.color == Black && w == p'.sib.e.n
    {
      Neighbours(ns, p, x, es, temp);
      RedSiblingRotatedLeft(p, x);
      RecastPair(temp, w0, Black, Red, ns, p, x);
      ghost var c := SwappedLeft(p);
      Up(Snap(ns), c, x, sentinel, root);
      LeftRotateAt(temp.parent, ns, p.up, One(c, x));
      RaisedLeft(ns, p, x);
      p' := RedSiblingLeft(p);
      HoleLinks(ns, p', x, temp);
      w := temp.parent.right;
    }

    /** A red inner nephew on the right is rotated to the outside: lines 315-318. */
    method TurnNephewLeft(temp: RbNode, w0: RbNode, ghost ns: set<RbNode>, ghost p: Path, ghost x: Tree, ghost es: seq<Entry>)
      returns (w: RbNode, ghost p': Path)
      requires Short(ns, p, x, es, temp) && p.InLeft? && !IsRed(x) && p.sib.Node? && w0 == p.sib.e.n
      requires p.sib.color == Black && IsRed(p.sib.left) && !IsRed(p.sib.right)
      modifies `root, ns
      ensures Short(ns, p', x, es, temp) && p' == InnerNephewLeft(p)
      ensures p'.sib.color == Black && w == p'.sib.e.n && IsRed(p'.sib.right)
    {
      Neighbours(ns, p, x, es, temp);
      NephewTurnedLeft(p, x);
      ghost var q, w1 := Across(p, x), Turned(p.sib, true);
      StepAcross(Snap(ns), p, x, sentinel, root);
      NephewIn(Snap(ns), q, p.sib, true);
      TurnColors(w0, w0.left, ns, q, p.sib, true);
      RightRotateAt(w0, ns, q, w1);
      StepBack(Snap(ns), p, x, RotatedRight(w1), sentinel, root);
      p' := InnerNephewLeft(p);
      HoleLinks(ns, p', x, temp);
      w := temp.parent.right;
    }

    /** Lines 321-323: the sibling takes the parent's colour; the parent and the outer nephew become black. */
    method SettleLeftColors(temp: RbNode, w: RbNode, ghost ns: set<RbNode>, ghost p: Path, ghost x: Tree)
      requires Linked(ns, p, x) && p.InLeft? && p.sib.Node? && p.sib.right.Node? && w == p.sib.e.n && w in ns
      requires temp.parent == p.e.n && p.e.n in ns && temp !in {w, p.e.n} && p.e.n.color == p.color
      requires w.right == p.sib.right.e.n && w.right in ns
      modifies ns
      ensures Linked(ns, OuterNephewLeft(p), x) && temp.parent == p.e.n
    {
      RecastPair(temp, w, temp.parent.color, Black, ns, p, x);
      ghost var m, w1 := Snap(ns), p.sib.(color := p.color);
      ghost var q := InLeft(p.e, Black, w1, p.up);
      assert q == Recast(p, p.color, Black);
      SetColor(w.right, Black, ns);
      StepAcross(m, q, x, sentinel, root);
      PaintChild(m, Snap(ns), Across(q, x), w1, sentinel, root, false, Black);
      StepBack(Snap(ns), q, x, ChildPainted(w1, false, Black), sentinel, root);
    }

    /** A red outer nephew on the right: the last rotation, and the end of the repair (lines 321-325). */
    method SettleLeft(temp0: RbNode, w: RbNode, ghost ns: set<RbNode>, ghost p: Path, ghost x: Tree, ghost es: seq<Entry>)
      returns (temp: RbNode, ghost x': Tree)
      requires Short(ns, p, x, es, temp0) && p.InLeft? && !IsRed(x) && p.sib.Node? && w == p.sib.e.n
      requires p.sib.color == Black && IsRed(p.sib.right)
      modifies `root, ns
      ensures Short(ns, Top, x', es, temp)
    {
      Neighbours(ns, p, x, es, temp0);
      StepAcross(Snap(ns), p, x, sentinel, root);
      NephewIn(Snap(ns), Across(p, x), p.sib, false);
      SettleLeftColors(temp0, w, ns, p, x);
      Up(Snap(ns), OuterNephewLeft(p), x, sentinel, root);
      LeftRotateAt(temp0.parent, ns, p.up, One(OuterNephewLeft(p), x));
      AllSettledLeft(p, x);
      Restarted(ns, p.up, SettledLeft(p, x), es);
      temp := root;
      x' := Plug(p.up, SettledLeft(p, x));
    }

    /** A black sibling `w`: lines 306-326. */
    method BlackSiblingLeft(temp0: RbNode, w0: RbNode, ghost ns: set<RbNode>, ghost p0: Path, ghost x0: Tree, ghost es: seq<Entry>)
      returns (temp: RbNode, ghost p: Path, ghost x: Tree)
      requires Short(ns, p0, x0, es, temp0) && p0.InLeft? && !IsRed(x0)
      requires p0.sib.Node? && p0.sib.color == Black && w0 == p0.sib.e.n
      modifies `root, ns
      ensures Short(ns, p, x, es, temp)
      ensures p.Top? || (p == p0.up && x == One(Faded(p0), x0))
    {
      temp, p, x := temp0, p0, x0;
      var w := w0;
      Neighbours(ns, p, x, es, temp);
      if w.left.color == Black && w.right.color == Black {
        temp, p, x := MoveUp(temp, w, ns, p, x, es);
      } else {
        if w.right.color == Black {
          w, p := TurnNephewLeft(temp, w, ns, p, x, es);
        }
        temp, x := SettleLeft(temp, w, ns, p, x, es);
        p := Top;
      }
    }

    /** One turn of the repair loop below a left link: lines 297-326. */
    method DeleteStepLeft(temp0: RbNode, ghost ns: set<RbNode>, ghost p0: Path, ghost x0: Tree, ghost es: seq<Entry>)
      returns (temp: RbNode, ghost p: Path, ghost x: Tree)
      requires Short(ns, p0, x0, es, temp0) && p0.InLeft? && !IsRed(x0)
      modifies `root, ns
      ensures Short(ns, p, x, es, temp) && Steps(p, x) < Steps(p0, x0)
    {
      p := p0;
      Neighbours(ns, p0, x0, es, temp0);
      var w := temp0.parent.right;
      if w.color == Red {
        w, p := RaiseSiblingLeft(temp0, w, ns, p0, x0, es);
      }
      temp, p, x := BlackSiblingLeft(temp0, w, ns, p, x0, es);
    }

    lemma RaisedRight(ns: set<RbNode>, p: Path, x: Tree)
      requires p.InRight? && p.sib.Node? && p.sib.right.Node?
      requires Linked(ns, p.up, RotatedRight(One(SwappedRight(p), x)))
      ensures Linked(ns, RedSiblingRight(p), x)
    {
      var u := RotatedRight(One(SwappedRight(p), x));
      Descend(Snap(ns), p.up, u, sentinel, root, false);
      Descend(Snap(ns), Below(p.up, u, false), u.right, sentinel, root, false);
    }

    /** A red sibling on the left is rotated above the parent: lines 333-336. */
    method RaiseSiblingRight(temp: RbNode, w0: RbNode, ghost ns: set<RbNode>, ghost p: Path, ghost x: Tree, ghost es: seq<Entry>)
      returns (w: RbNode, ghost p': Path)
      requires Short(ns, p, x, es, temp) && p.InRight? && !IsRed(x) && IsRed(p.sib) && w0 == p.sib.e.n
      modifies `root, ns
      ensures Short(ns, p', x, es, temp) && p' == RedSiblingRight(p)
      ensures p'.sib.Node? && p'.sib.color == Black && w == p'.sib.e.n
    {
      Neighbours(ns, p, x, es, temp);
      RedSiblingRotatedRight(p, x);
      RecastPair(temp, w0, Black, Red, ns, p, x);
      ghost var c := SwappedRight(p);
      Up(Snap(ns), c, x, sentinel, root);
      RightRotateAt(temp.parent, ns, p.up, One(c, x));
      RaisedRight(ns, p, x);
      p' := RedSiblingRight(p);
      HoleLinks(ns, p', x, temp);
      w := temp.parent.left;
    }

    /** A red inner nephew on the left is rotated to the outside: lines 348-351. */
    method TurnNephewRight(temp: RbNode, w0: RbNode, ghost ns: set<RbNode>, ghost p: Path, ghost x: Tree, ghost es: seq<Entry>)
      returns (w: RbNode, ghost p': Path)
      requires Short(ns, p, x, es, temp) && p.InRight? && !IsRed(x) && p.sib.Node? && w0 == p.sib.e.n
      requires p.sib.color == Black && IsRed(p.sib.right) && !IsRed(p.sib.left)
      modifies `root, ns
      ensures Short(ns, p', x, es, temp) && p' == InnerNephewRight(p)
      ensures p'.sib.color == Black && w == p'.sib.e.n && IsRed(p'.sib.left)
    {
      Neighbours(ns, p, x, es, temp);
      NephewTurnedRight(p, x);
      ghost var q, w1 := Across(p, x), Turned(p.sib, false);
      StepAcross(Snap(ns), p, x, sentinel, root);
      NephewIn(Snap(ns), q, p.sib, false);
      TurnColors(w0, w0.right, ns, q, p.sib, false);
      LeftRotateAt(w0, ns, q, w1);
      StepBack(Snap(ns), p, x, RotatedLeft(w1), sentinel, root);
      p' := InnerNephewRight(p);
      HoleLinks(ns, p', x, temp);
      w := temp.parent.left;
    }

    /** Lines 354-356: the sibling takes the parent's colour; the parent and the outer nephew become black. */
    method SettleRightColors(temp: RbNode, w: RbNode, ghost ns: set<RbNode>, ghost p: Path, ghost x: Tree)
      requires Linked(ns, p, x) && p.InRight? && p.sib.Node? && p.sib.left.Node? && w == p.sib.e.n && w in ns
      requires temp.parent == p.e.n && p.e.n in ns && temp !in {w, p.e.n} && p.e.n.color == p.color
      requires w.left == p.sib.left.e.n && w.left in ns
      modifies ns
      ensures Linked(ns, OuterNephewRight(p), x) && temp.parent == p.e.n
    {
      RecastPair(temp, w, temp.parent.color, Black, ns, p, x);
      ghost var m, w1 := Snap(ns), p.sib.(color := p.color);
      ghost var q := InRight(p.e, Black, w1, p.up);
      assert q == Recast(p, p.color, Black);
      SetColor(w.left, Black, ns);
      StepAcross(m, q, x, sentinel, root);
      PaintChild(m, Snap(ns), Across(q, x), w1, sentinel, root, true, Black);
      StepBack(Snap(ns), q, x, ChildPainted(w1, true, Black), sentinel, root);
    }

    /** A red outer nephew on the left: the last rotation, and the end of the repair (lines 354-359). */
    method SettleRight(temp0: RbNode, w: RbNode, ghost ns: set<RbNode>, ghost p: Path, ghost x: Tree, ghost es: seq<Entry>)
      returns (temp: RbNode, ghost x': Tree)
      requires Short(ns, p, x, es, temp0) && p.InRight? && !IsRed(x) && p.sib.Node? && w == p.sib.e.n
      requires p.sib.color == Black && IsRed(p.sib.left)
      modifies `root, ns
      ensures Short(ns, Top, x', es, temp)
    {
      Neighbours(ns, p, x, es, temp0);
      StepAcross(Snap(ns), p, x, sentinel, root);
      NephewIn(Snap(ns), Across(p, x), p.sib, true);
      SettleRightColors(temp0, w, ns, p, x);
      Up(Snap(ns), OuterNephewRight(p), x, sentinel, root);
      RightRotateAt(temp0.parent, ns, p.up, One(OuterNephewRight(p), x));
      AllSettledRight(p, x);
      Restarted(ns, p.up, SettledRight(p, x), es);
      temp := root;
      x' := Plug(p.up, SettledRight(p, x));
    }

    /** A black sibling `w`: lines 339-360. */
    method BlackSiblingRight(temp0: RbNode, w0: RbNode, ghost ns: set<RbNode>, ghost p0: Path, ghost x0: Tree, ghost es: seq<Entry>)
      returns (temp: RbNode, ghost p: Path, ghost x: Tree)
      requires Short(ns, p0, x0, es, temp0) && p0.InRight? && !IsRed(x0)
      requires p0.sib.Node? && p0.sib.color == Black && w0 == p0.sib.e.n
      modifies `root, ns
      ensures Short(ns, p, x, es, temp)
      ensures p.Top? || (p == p0.up && x == One(Faded(p0), x0))
    {
      temp, p, x := temp0, p0, x0;
      var w := w0;
      Neighbours(ns, p, x, es, temp);
      if w.left.color == Black && w.right.color == Black {
        temp, p, x := MoveUp(temp, w, ns, p, x, es);
      } else {
        if w.left.color == Black {
          w, p := TurnNephewRight(temp, w, ns, p, x, es);
        }
        temp, x := SettleRight(temp, w, ns, p, x, es);
        p := Top;
      }
    }

    /** One turn of the repair loop below a right link: lines 330-360. */
    method DeleteStepRight(temp0: RbNode, ghost ns: set<RbNode>, ghost p0: Path, ghost x0: Tree, ghost es: seq<Entry>)
      returns (temp: RbNode, ghost p: Path, ghost x: Tree)
      requires Short(ns, p0, x0, es, temp0) && p0.InRight? && !IsRed(x0)
      modifies `root, ns
      ensures Short(ns, p, x, es, temp) && Steps(p, x) < Steps(p0, x0)
    {
      p := p0;
      Neighbours(ns, p0, x0, es, temp0);
      var w := temp0.parent.left;
      if w.color == Red {
        w, p := RaiseSiblingRight(temp0, w, ns, p0, x0, es);
      }
      temp, p, x := BlackSiblingRight(temp0, w, ns, p, x0, es);
    }


    /** The child `left` of the focus is where the links say. */
    lemma NephewIn(m: Mem, q: Path, w: Tree, left: bool)
      requires At(m, q, w, sentinel, root) && w.Node? && Child(w, left).Node?
      ensures Child(w, left).e.n in m && w.e.n in m
      ensures (if left then m[w.e.n].left else m[w.e.n].right) == Child(w, left).e.n
    {
    }

    /** One turn of the repair loop: lines 295-361. */
    method DeleteStep(temp0: RbNode, ghost ns: set<RbNode>, ghost p0: Path, ghost x0: Tree, ghost es: seq<Entry>)
      returns (temp: RbNode, ghost p: Path, ghost x: Tree)
      requires Short(ns, p0, x0, es, temp0) && !p0.Top? && !IsRed(x0)
      modifies `root, ns
      ensures Short(ns, p, x, es, temp) && Steps(p, x) < Steps(p0, x0)
    {
      Neighbours(ns, p0, x0, es, temp0);
      if temp0 == temp0.parent.left {
        temp, p, x := DeleteStepLeft(temp0, ns, p0, x0, es);
      } else {
        temp, p, x := DeleteStepRight(temp0, ns, p0, x0, es);
      }
    }

    /** The repair loop of rbtree_delete: lines 293-364. */
    method DeleteFixup(temp0: RbNode, ghost ns: set<RbNode>, ghost p0: Path, ghost x0: Tree, ghost es: seq<Entry>)
      requires Short(ns, p0, x0, es, temp0)
      modifies `root, `shape, ns
      ensures Linked(ns, Top, shape) && RedBlack(shape) && Entries(shape) == es
    {
      var temp := temp0;
      ghost var p, x := p0, x0;
      Neighbours(ns, p, x, es, temp);
      while temp != root && temp.color == Black
        invariant Short(ns, p, x, es, temp)
        invariant temp == root <==> p.Top?
        invariant temp.color == Black <==> !IsRed(x)
        decreases Steps(p, x)
      {
        temp, p, x := DeleteStep(temp, ns, p, x, es);
        Neighbours(ns, p, x, es, temp);
      }
      BlackenTemp(temp, ns, p, x, es);
    }

    /** `rbtree_black(temp)`: line 364. */
    method BlackenTemp(temp: RbNode, ghost ns: set<RbNode>, ghost p: Path, ghost x: Tree, ghost es: seq<Entry>)
      requires Short(ns, p, x, es, temp) && (p.Top? || IsRed(x))
      modifies `shape, ns
      ensures Linked(ns, Top, shape) && RedBlack(shape) && Entries(shape) == es
    {
      ghost var m := Snap(ns);
      Ends(m, p, x, sentinel, root);
      SetColor(temp, Black, ns);
      PaintTop(m, Snap(ns), p, x, sentinel, root, Black);
      UpToRoot(Snap(ns), p, Blackened(x), sentinel, root);
      Restored(p, x);
      shape := Plug(p, Blackened(x));
    }

    // ----- taking a node out -----

    /** rbtree_min, below a node whose subtree is `t0`. */
    method Min(node0: RbNode, ghost ns: set<RbNode>, ghost t0: Tree) returns (node: RbNode, ghost seg: Path, ghost u: Tree)
      requires At(Snap(ns), Top, t0, sentinel, node0) && t0.Node? && sentinel !in ns
      ensures At(Snap(ns), seg, u, sentinel, node0) && Plug(seg, u) == t0
      ensures u.Node? && u.left.Leaf? && u.e.n == node
      ensures (seg.Top? || seg.InLeft?) && Before(seg) == []
    {
      node := node0;
      seg, u := Top, t0;
      while node.left != sentinel
        invariant At(Snap(ns), seg, u, sentinel, node0) && Plug(seg, u) == t0
        invariant u.Node? && u.e.n == node && node in ns && node.left == Ptr(u.left, sentinel)
        invariant (seg.Top? || seg.InLeft?) && Before(seg) == []
        decreases u
      {
        Descend(Snap(ns), seg, u, sentinel, node0, true);
        seg, u := Below(seg, u, true), u.left;
        node := node.left;
      }
      NodesIn(Snap(ns), u, sentinel);
    }

    /** Lines 225-237 and 283-286: `node` itself leaves, `temp` takes its place. */
    method DropNode(node: RbNode, temp: RbNode, ghost ns: set<RbNode>)
      requires node in ns && node.parent != null && node.parent in ns && node.parent != node
      requires (temp == sentinel || temp in ns) && temp != node && temp != node.parent && sentinel !in ns
      modifies node, node.parent, temp`parent
      ensures var (m, m', q) := (old(Snap(ns)), Snap(ns), old(node.parent));
        && SameBut(m, m', {node, q} + Unless(temp, sentinel))
        && m'[q] == (if m[q].left == node then m[q].(left := temp) else m[q].(right := temp))
        && (temp != sentinel ==> m'[temp] == m[temp].(parent := q))
      ensures temp.parent == old(node.parent)
      ensures node.left == node.right == node.parent == null && node.key == 0 && temp.color == old(temp.color)
    {
      if node == node.parent.left {
        node.parent.left := temp;
      } else {
        node.parent.right := temp;
      }
      temp.parent := node.parent;
      node.left := null;
      node.right := null;
      node.parent := null;
      node.key := 0;
    }

    /** Lines 226-248: `temp` replaces `subst` below its old parent. */
    method Detach(node: RbNode, subst: RbNode, temp: RbNode, ghost ns: set<RbNode>)
      requires subst in ns && subst.parent != null && subst.parent in ns && subst.parent != subst
      requires (temp == sentinel || temp in ns) && sentinel !in ns && temp != subst && temp != subst.parent
      modifies subst.parent, temp`parent
      ensures Detached(old(Snap(ns)), Snap(ns), node, subst, temp, sentinel)
      ensures temp.parent == if old(subst.parent) == node then subst else old(subst.parent)
    {
      if subst == subst.parent.left {
        subst.parent.left := temp;
      } else {
        subst.parent.right := temp;
      }
      if subst.parent == node {
        temp.parent := subst;
      } else {
        temp.parent := subst.parent;
      }
    }

    /** Lines 250-270: `subst` takes the place, the children and the colour of `node`. */
    method TakePlace(node: RbNode, subst: RbNode, ghost ns: set<RbNode>)
      requires {node, subst} <= ns && node != subst
      requires node != root ==> node.parent != null && node.parent in ns && node.parent !in {node, subst}
      modifies `root, subst, if node == root then {} else {node.parent}
      ensures TookPlace(old(Snap(ns)), Snap(ns), node, subst, old(root), root)
    {
      subst.left := node.left;
      subst.right := node.right;
      subst.parent := node.parent;
      subst.color := node.color;
      if node == root {
        root := subst;
      } else if node == node.parent.left {
        node.parent.left := subst;
      } else {
        node.parent.right := subst;
      }
    }

    /** Lines 272-280: the children of `subst` learn their parent. */
    method Adopt(subst: RbNode, ghost ns: set<RbNode>)
      requires subst in ns && sentinel !in ns && subst.left != null && subst.right != null
      requires (subst.left == sentinel || subst.left in ns) && (subst.right == sentinel || subst.right in ns)
      requires subst !in {subst.left, subst.right}
      modifies if subst.left == sentinel then {} else {subst.left}
      modifies if subst.right == sentinel then {} else {subst.right}
      ensures Adopted(old(Snap(ns)), Snap(ns), subst, sentinel)
    {
      if subst.left != sentinel {
        subst.left.parent := subst;
      }
      if subst.right != sentinel {
        subst.right.parent := subst;
      }
    }

    /** The removed node keeps no links and no key: lines 217-220 and 283-286. */
    method Clear(node: RbNode, ghost ns: set<RbNode>, ghost rest: set<RbNode>)
      requires rest == ns - {node}
      modifies node
      ensures node.left == node.right == node.parent == null && node.key == 0
      ensures SameBut(old(Snap(ns)), Snap(rest), {node})
    {
      node.left := null;
      node.right := null;
      node.parent := null;
      node.key := 0;
    }

    /**
      `temp` goes below the old parent of `subst`, and `subst` to the place of `node`; `m1` is the memory in between
      (lines 226-270).
    */
    method SwapIn(node: RbNode, subst: RbNode, temp: RbNode, ghost ns: set<RbNode>) returns (ghost m1: Mem)
      requires {node, subst} <= ns && node != subst && sentinel !in ns
      requires subst.parent != null && subst.parent in ns && subst.parent != subst
      requires (temp == sentinel || temp in ns) && temp != subst && temp != subst.parent && temp != node
      requires node != root ==> node.parent != null && node.parent in ns && node.parent !in {node, subst}
      modifies `root, ns, sentinel`parent
      ensures Detached(old(Snap(ns)), m1, node, subst, temp, sentinel)
      ensures TookPlace(m1, Snap(ns), node, subst, old(root), root)
      ensures temp == sentinel ==> sentinel.parent == if old(subst.parent) == node then subst else old(subst.parent)
    {
      Detach(node, subst, temp, ns);
      m1 := Snap(ns);
      TakePlace(node, subst, ns);
    }

    /**
      The children of `subst` learn their parent, and `node` loses its links; `m3` is the memory in between (lines
      272-286).
    */
    method AdoptAndClear(node: RbNode, subst: RbNode, ghost ns: set<RbNode>, ghost rest: set<RbNode>) returns (ghost m3: Mem)
      requires subst in ns && node in ns && rest == ns - {node} && sentinel !in ns
      requires subst.left != null && subst.right != null && subst !in {subst.left, subst.right}
      requires (subst.left == sentinel || subst.left in ns) && (subst.right == sentinel || subst.right in ns)
      modifies ns
      ensures Adopted(old(Snap(ns)), m3, subst, sentinel)
      ensures SameBut(m3, Snap(rest), {node})
      ensures node.left == node.right == node.parent == null && node.key == 0
    {
      Adopt(subst, ns);
      m3 := Snap(ns);
      Clear(node, ns, rest);
    }

    /** Lines 226-233 and 239-286: `subst` takes the place of `node`, `temp` the place of `subst`. */
    method Substitute(node: RbNode, subst: RbNode, temp: RbNode, ghost ns: set<RbNode>,
                      ghost p: Path, ghost t: Tree, ghost seg: Path, ghost u: Tree)
      requires sentinel !in ns && Linked(ns, p, t) && Leftmost(t, seg, u) && t.left.Node?
      requires At(Snap(ns), seg, u, sentinel, t.right.e.n)
      requires node == t.e.n && subst == u.e.n && temp == Ptr(u.right, sentinel)
      modifies `root, sentinel`parent, ns
      ensures Linked(ns - {node}, Successor(seg, u.e, t, p), u.right)
      ensures u.right.Leaf? ==> sentinel.parent == if seg.Top? then subst else seg.e.n
      ensures node.left == node.right == node.parent == null && node.key == 0
    {
      hide Detached, TookPlace, Adopted, SameBut, At, Successor;
      ghost var m0, r0 := Snap(ns), root;
      SubstFacts(m0, p, t, seg, u, sentinel, root);
      ghost var m1 := SwapIn(node, subst, temp, ns);
      ghost var m2 := Snap(ns);
      TakenFacts(m0, m1, m2, p, t, seg, u, sentinel, r0, root);
      ghost var m3 := AdoptAndClear(node, subst, ns, ns - {node});
      AllSubstituted(m0, m1, m2, m3, Snap(ns - {node}), p, t, seg, u, sentinel, r0, root);
    }

    /** Lines 190-211: the node that leaves its place, and its only child `x`. */
    method Victim(node: RbNode, ghost ns: set<RbNode>, ghost p: Path, ghost t: Tree)
      returns (subst: RbNode, temp: RbNode, ghost seg: Path, ghost u: Tree, ghost x: Tree)
      requires sentinel !in ns && Linked(ns, p, t) && t.Node? && t.e.n == node
      ensures temp == Ptr(x, sentinel)
      ensures subst == node ==> (t.left.Leaf? && x == t.right) || (t.right.Leaf? && x == t.left)
      ensures subst != node ==> t.left.Node? && Leftmost(t, seg, u) && At(Snap(ns), seg, u, sentinel, t.right.e.n)
      ensures subst != node ==> subst == u.e.n && x == u.right && subst != root
      ensures subst in ns && subst.color == (if subst == node then t.color else u.color)
      ensures Linked(ns, p, t)
    {
      ghost var m := Snap(ns);
      Ends(m, p, t, sentinel, root);
      PathNodesIn(m, p, sentinel, root, node);
      Apart(m, t, sentinel);
      NodesIn(m, t, sentinel);
      seg, u := Top, t;
      if node.left == sentinel {
        temp := node.right;
        subst := node;
        x := t.right;
      } else if node.right == sentinel {
        temp := node.left;
        subst := node;
        x := t.left;
      } else {
        subst, seg, u := Min(node.right, ns, t.right);
        Ends(m, seg, u, sentinel, t.right.e.n);
        PlugNodes(seg, u);
        x := u.right;
        // lines 203-210 look for a left child first; the leftmost node has none
        assert subst.left == sentinel;
        temp := subst.right;
      }
    }

    /** The only child becomes the root, painted black: lines 213-214. */
    method LiftToRoot(temp: RbNode, ghost ns: set<RbNode>, ghost t: Tree, ghost x: Tree)
      requires sentinel !in ns && sentinel.color == Black && Linked(ns, Top, t) && t.Node?
      requires (x == t.left || x == t.right) && temp == Ptr(x, sentinel)
      modifies `root, sentinel`color, ns
      ensures Linked(ns, Top, Blackened(x)) && sentinel.color == Black
      ensures t.e.n in ns && t.e.n !in Nodes(Blackened(x))
    {
      ghost var m := Snap(ns);
      Apart(m, t, sentinel);
      NodesIn(m, x, sentinel);
      assert At(m, Top, x, sentinel, temp);
      root := temp;
      temp.color := Black;
      if x.Node? {
        PaintTop(m, Snap(ns), Top, x, sentinel, temp, Black);
      }
    }

    /** Lines 213-223: the last node, or a root with one child. */
    method RemoveRoot(node: RbNode, temp: RbNode, ghost ns: set<RbNode>, ghost t: Tree, ghost x: Tree)
      requires sentinel !in ns && sentinel.color == Black && Linked(ns, Top, t) && t.Node? && t.e.n == node
      requires (t.left.Leaf? && x == t.right) || (t.right.Leaf? && x == t.left)
      requires RedBlack(t) && temp == Ptr(x, sentinel)
      modifies `root, `shape, sentinel`color, ns
      ensures Linked(ns - {node}, Top, shape) && RedBlack(shape) && Entries(shape) == Rest(Top, t) && sentinel.color == Black
      ensures node.left == node.right == node.parent == null && node.key == 0
    {
      hide RedBlack, Rest, Entries, At;
      LiftToRoot(temp, ns, t, x);
      ghost var m := Snap(ns);
      Clear(node, ns, ns - {node});
      shape := Blackened(x);
      AtKept(m, Snap(ns - {node}), Top, shape, sentinel, root, {node});
      RootSplice(t, x);
    }

    /** Lines 225-237 and 283-286, for a node with an empty side. */
    method SpliceOut(node: RbNode, temp: RbNode, ghost ns: set<RbNode>, ghost p: Path, ghost t: Tree, ghost x: Tree)
      requires sentinel !in ns && Linked(ns, p, t) && !p.Top? && t.Node? && t.e.n == node
      requires (x == t.left || x == t.right) && temp == Ptr(x, sentinel)
      modifies ns, sentinel`parent
      ensures Linked(ns - {node}, p, x)
      ensures x.Leaf? ==> sentinel.parent == p.e.n
      ensures node.left == node.right == node.parent == null && node.key == 0
    {
      ghost var m := Snap(ns);
      Ends(m, p, t, sentinel, root);
      Apart(m, t, sentinel);
      NodesIn(m, x, sentinel);
      DropNode(node, temp, ns);
      ghost var m1 := Snap(ns);
      DroppedAt(m, m1, p, t, x, sentinel, root);
      AtKept(m1, Snap(ns - {node}), p, x, sentinel, root, {node});
    }

    /** Lines 225-286: afterwards `x` hangs at the end of `q`. */
    method Splice(node: RbNode, subst: RbNode, temp: RbNode, ghost ns: set<RbNode>,
                  ghost p: Path, ghost t: Tree, ghost seg: Path, ghost u: Tree, ghost x: Tree, ghost red: bool)
      returns (ghost q: Path)
      requires sentinel !in ns && sentinel.color == Black && Linked(ns, p, t) && t.Node? && t.e.n == node && subst != root
      requires RedBlack(Plug(p, t)) && temp == Ptr(x, sentinel)
      requires subst == node ==> (t.left.Leaf? && x == t.right) || (t.right.Leaf? && x == t.left)
      requires subst != node ==> t.left.Node? && Leftmost(t, seg, u) && At(Snap(ns), seg, u, sentinel, t.right.e.n)
      requires subst != node ==> subst == u.e.n && x == u.right
      requires red <==> (if subst == node then t.color else u.color) == Red
      modifies `root, sentinel`parent, ns
      ensures node.left == node.right == node.parent == null && node.key == 0
      ensures if red then Linked(ns - {node}, q, x) && RedBlack(Plug(q, x)) && Contents(q, x) == Rest(p, t)
        else Short(ns - {node}, q, x, Rest(p, t), temp)
    {
      Ends(Snap(ns), p, t, sentinel, root);
      if subst == node {
        SimpleSplice(p, t, x);
        SimpleSpliceContents(p, t, x);
        SpliceOut(node, temp, ns, p, t, x);
        q := p;
      } else {
        SuccessorSplice(p, t, seg, u);
        SuccessorSpliceContents(p, t, seg, u);
        Substitute(node, subst, temp, ns, p, t, seg, u);
        q := Successor(seg, u.e, t, p);
        SuccessorEnd(seg, u.e, t, p);
      }
    }

    /** A node other than the root leaves its place, and the colours are repaired if it was black: lines 225-364. */
    method RemoveInner(node: RbNode, subst: RbNode, temp: RbNode, ghost ns: set<RbNode>,
                       ghost p: Path, ghost t: Tree, ghost seg: Path, ghost u: Tree, ghost x: Tree)
      requires sentinel !in ns && sentinel.color == Black && Linked(ns, p, t) && t.Node? && t.e.n == node && subst != root
      requires RedBlack(Plug(p, t)) && temp == Ptr(x, sentinel)
      requires subst == node ==> (t.left.Leaf? && x == t.right) || (t.right.Leaf? && x == t.left)
      requires subst != node ==> t.left.Node? && Leftmost(t, seg, u) && At(Snap(ns), seg, u, sentinel, t.right.e.n)
      requires subst != node ==> subst == u.e.n && x == u.right
      requires subst.color == if subst == node then t.color else u.color
      modifies `root, `shape, sentinel`parent, ns
      ensures Linked(ns - {node}, Top, shape) && RedBlack(shape) && Entries(shape) == Rest(p, t)
      ensures node.left == node.right == node.parent == null && node.key == 0
    {
      hide RedBlack, Rest, Entries, At, Plug, Leftmost, Contents;
      var red := subst.color == Red;
      ghost var q := Splice(node, subst, temp, ns, p, t, seg, u, x, red);
      if red {
        FinishRed(ns - {node}, q, x);
        shape := Plug(q, x);
      } else {
        DeleteFixup(temp, ns - {node}, q, x, Rest(p, t));
      }
    }

    lemma FinishRed(ns: set<RbNode>, q: Path, x: Tree)
      requires Linked(ns, q, x)
      ensures Linked(ns, Top, Plug(q, x)) && Entries(Plug(q, x)) == Contents(q, x)
    {
      UpToRoot(Snap(ns), q, x, sentinel, root);
      PlugEntries(q, x);
    }

    lemma ContentsFirst(seg: Path, u: Tree)
      requires u.Node? && u.left.Leaf? && Before(seg) == []
      ensures Contents(seg, u) != [] && Contents(seg, u)[0] == u.e
    {
      assert Entries(u) == [u.e] + Entries(u.right);
      assert Contents(seg, u) == [u.e] + (Entries(u.right) + After(seg));
    }

    /** The end of the leftmost path holds the first entry. */
    lemma FirstEntry(ns: set<RbNode>, node: RbNode, seg: Path, u: Tree)
      requires Linked(ns, seg, u) && u.Node? && u.left.Leaf? && u.e.n == node && Before(seg) == []
      ensures Entries(Plug(seg, u)) != [] && Entries(Plug(seg, u))[0] == Entry(node, node.key)
      ensures node in Nodes(Plug(seg, u))
    {
      hide At, Plug, Entries, Contents, Before;
      Ends(Snap(ns), seg, u, sentinel, root);
      PlugEntries(seg, u);
      PlugNodes(seg, u);
      ContentsFirst(seg, u);
    }

    /** rbtree_min from the root: the first node in the order of the tree. */
    method First() returns (node: RbNode)
      requires Valid() && root != sentinel
      ensures Valid() && Entries(shape) != [] && Entries(shape)[0] == Entry(node, node.key)
      ensures node in Nodes(shape)
    {
      ghost var ns := Nodes(shape);
      NodesIn(Snap(ns), shape, sentinel);
      ghost var seg, u;
      node, seg, u := Min(root, ns, shape);
      FirstEntry(ns, node, seg, u);
    }

    /** rbtree_delete. */
    method Delete(node: RbNode)
      requires Valid() && node in Nodes(shape)
      modifies this, sentinel, Nodes(shape)
      ensures Valid()
      ensures Entries(shape) == Without(old(Entries(shape)), node)
      ensures Nodes(shape) == old(Nodes(shape)) - {node}
      ensures node.left == node.right == node.parent == null && node.key == 0
    {
      ghost var ns, w := Nodes(shape), shape;
      ghost var p, t, es := Removal(node);
      var subst, temp;
      ghost var seg, u, x;
      subst, temp, seg, u, x := Victim(node, ns, p, t);
      if subst == root {
        RemoveRoot(node, temp, ns, t, x);
      } else {
        RemoveInner(node, subst, temp, ns, p, t, seg, u, x);
      }
      Removed(w, shape, node);
    }

    /** Where the node to be removed is, and what will be left. */
    lemma Removal(node: RbNode) returns (p: Path, t: Tree, es: seq<Entry>)
      requires Valid() && node in Nodes(shape)
      ensures sentinel !in Nodes(shape) && Linked(Nodes(shape), p, t) && t.Node? && t.e.n == node
      ensures Plug(p, t) == shape && (node == root <==> p.Top?)
      ensures es == Rest(p, t) == Without(Entries(shape), node)
    {
      NodesIn(Snap(Nodes(shape)), shape, sentinel);
      p, t := Locate(Top, shape, node);
      DownFromRoot(Snap(Nodes(shape)), p, t, sentinel, root);
      Ends(Snap(Nodes(shape)), p, t, sentinel, root);
      PlugEntries(p, t);
      EntryRemoved(p, t);
      es := Rest(p, t);
    }
  }
}
