/**
  The value side of the red-black tree of src/core/shs_rbtree.cc.

  A `Tree` is the shape that a heap of `RbNode` objects realises, and a `Path` is a
  tree with one subtree missing, listed from the hole up to the root.  The
  colour rules are stated on these values only, so that the in-place algorithms
  in `RbTree` can be followed by small steps on values.
*/
module RbShape {
  import opened Arithmetic

  datatype Color = Red | Black

  /** rbtree_node_t, without the payload byte. */
  class RbNode {
    var key: int
    var left: RbNode?
    var right: RbNode?
    var parent: RbNode?
    var color: Color

    constructor (k: int)
      ensures key == k && left == null && right == null && parent == null
    {
      key := k;
      left, right, parent := null, null, null;
      color := Black;
    }
  }

  /** A node together with the key it is filed under. */
  datatype Entry = Entry(n: RbNode, key: int)

  datatype Tree = Leaf | Node(left: Tree, e: Entry, color: Color, right: Tree)

  datatype Path =
    | Top
    | InLeft(e: Entry, color: Color, sib: Tree, up: Path)
    | InRight(e: Entry, color: Color, sib: Tree, up: Path)

  // ----- contents -----

  ghost function Entries(t: Tree): seq<Entry> {
    match t
    case Leaf => []
    case Node(l, e, _, r) => Entries(l) + [e] + Entries(r)
  }

  ghost function Nodes(t: Tree): (s: set<RbNode>)
    ensures t.Node? ==> t.e.n in s
  {
    match t
    case Leaf => {}
    case Node(l, e, _, r) => Nodes(l) + {e.n} + Nodes(r)
  }

  ghost function Before(p: Path): seq<Entry> {
    match p
    case Top => []
    case InLeft(_, _, _, up) => Before(up)
    case InRight(e, _, sib, up) => Before(up) + Entries(sib) + [e]
  }

  ghost function After(p: Path): seq<Entry> {
    match p
    case Top => []
    case InLeft(e, _, sib, up) => [e] + Entries(sib) + After(up)
    case InRight(_, _, _, up) => After(up)
  }

  ghost function PathNodes(p: Path): set<RbNode> {
    if p.Top? then {} else {p.e.n} + Nodes(p.sib) + PathNodes(p.up)
  }

  ghost function Plug(p: Path, t: Tree): Tree {
    match p
    case Top => t
    case InLeft(e, c, sib, up) => Plug(up, Node(t, e, c, sib))
    case InRight(e, c, sib, up) => Plug(up, Node(sib, e, c, t))
  }

  ghost function WithSib(p: Path, w: Tree): Path
    requires !p.Top?
  {
    p.(sib := w)
  }

  /** The colours of the sibling and the parent are set. */
  ghost function Recast(p: Path, c: Color, d: Color): Path
    requires !p.Top? && p.sib.Node?
  {
    var w := p.sib.(color := c);
    if p.InLeft? then InLeft(p.e, d, w, p.up) else InRight(p.e, d, w, p.up)
  }

  ghost function Depth(p: Path): nat {
    if p.Top? then 0 else 1 + Depth(p.up)
  }

  /** The path `inner`, continued above its top by `outer`. */
  ghost function Append(inner: Path, outer: Path): Path {
    match inner
    case Top => outer
    case InLeft(e, c, sib, up) => InLeft(e, c, sib, Append(up, outer))
    case InRight(e, c, sib, up) => InRight(e, c, sib, Append(up, outer))
  }

  /** The tree one step up the path. */
  ghost function One(p: Path, t: Tree): Tree
    requires !p.Top?
  {
    if p.InLeft? then Node(t, p.e, p.color, p.sib) else Node(p.sib, p.e, p.color, t)
  }

  /** The in-order contents of the tree with `t` at the end of the path `p`. */
  ghost function Contents(p: Path, t: Tree): seq<Entry> {
    Before(p) + Entries(t) + After(p)
  }

  lemma UpContents(p: Path, t: Tree)
    requires !p.Top?
    ensures Contents(p.up, One(p, t)) == Contents(p, t)
  {
    var (b, x, a, y) := (Before(p.up), Entries(t), After(p.up), Entries(p.sib));
    if p.InLeft? {
      assert Entries(One(p, t)) == x + [p.e] + y;
      assert b + (x + [p.e] + y) + a == b + x + ([p.e] + y + a);
    } else {
      assert Entries(One(p, t)) == y + [p.e] + x;
      assert b + (y + [p.e] + x) + a == b + y + [p.e] + x + a;
    }
  }

  lemma {:induction false} PlugEntries(p: Path, t: Tree)
    ensures Entries(Plug(p, t)) == Contents(p, t)
  {
    if !p.Top? {
      UpContents(p, t);
      PlugEntries(p.up, One(p, t));
    }
  }

  lemma {:induction false} PlugNodes(p: Path, t: Tree)
    ensures Nodes(Plug(p, t)) == PathNodes(p) + Nodes(t)
  {
    match p
    case Top =>
    case InLeft(e, c, sib, up) => PlugNodes(up, Node(t, e, c, sib));
    case InRight(e, c, sib, up) => PlugNodes(up, Node(sib, e, c, t));
  }

  lemma {:induction false} AppendContents(inner: Path, outer: Path)
    ensures Before(Append(inner, outer)) == Before(outer) + Before(inner)
    ensures After(Append(inner, outer)) == After(inner) + After(outer)
    ensures PathNodes(Append(inner, outer)) == PathNodes(inner) + PathNodes(outer)
  {
    if !inner.Top? {
      AppendContents(inner.up, outer);
      var (b, x, a, y) := (Before(inner.up), Before(outer), After(inner.up), After(outer));
      if inner.InLeft? {
        assert [inner.e] + Entries(inner.sib) + (a + y) == [inner.e] + Entries(inner.sib) + a + y;
      } else {
        assert x + b + Entries(inner.sib) + [inner.e] == x + (b + Entries(inner.sib) + [inner.e]);
      }
    }
  }

  lemma {:induction false} AppendPlug(inner: Path, outer: Path, t: Tree)
    ensures Plug(Append(inner, outer), t) == Plug(outer, Plug(inner, t))
  {
    match inner
    case Top =>
    case InLeft(e, c, sib, up) => AppendPlug(up, outer, Node(t, e, c, sib));
    case InRight(e, c, sib, up) => AppendPlug(up, outer, Node(sib, e, c, t));
  }

  ghost function NodesOf(s: seq<Entry>): set<RbNode> {
    set x | x in s :: x.n
  }

  lemma {:induction false} NodesAreEntries(t: Tree)
    ensures Nodes(t) == NodesOf(Entries(t))
  {
    if t.Node? {
      NodesAreEntries(t.left);
      NodesAreEntries(t.right);
      assert NodesOf(Entries(t)) == NodesOf(Entries(t.left)) + {t.e.n} + NodesOf(Entries(t.right)) by {
        assert t.e in Entries(t);
      }
    }
  }

  // ----- sharing -----

  /** No node occurs twice in the tree. */
  ghost predicate Distinct(t: Tree) {
    match t
    case Leaf => true
    case Node(l, e, _, r) =>
      Distinct(l) && Distinct(r) && e.n !in Nodes(l) && e.n !in Nodes(r) && Nodes(l) !! Nodes(r)
  }

  ghost predicate PathDistinct(p: Path) {
    p.Top? ||
    (Distinct(p.sib) && PathDistinct(p.up) && p.e.n !in Nodes(p.sib) && p.e.n !in PathNodes(p.up)
     && Nodes(p.sib) !! PathNodes(p.up))
  }

  lemma {:induction false} PlugDistinct(p: Path, t: Tree)
    ensures Distinct(Plug(p, t)) <==> PathDistinct(p) && Distinct(t) && Nodes(t) !! PathNodes(p)
  {
    match p
    case Top =>
    case InLeft(e, c, sib, up) => PlugDistinct(up, Node(t, e, c, sib));
    case InRight(e, c, sib, up) => PlugDistinct(up, Node(sib, e, c, t));
  }

  lemma {:induction false} AppendDistinct(inner: Path, outer: Path)
    requires PathDistinct(inner) && PathDistinct(outer) && PathNodes(inner) !! PathNodes(outer)
    ensures PathDistinct(Append(inner, outer))
  {
    if !inner.Top? {
      AppendDistinct(inner.up, outer);
      AppendContents(inner.up, outer);
    }
  }

  /** The node at the far end of the path. */
  ghost function TopNode(p: Path): RbNode
    requires !p.Top?
  {
    if p.up.Top? then p.e.n else TopNode(p.up)
  }

  lemma {:induction false} TopNodeOnPath(p: Path)
    requires !p.Top? && PathDistinct(p)
    ensures TopNode(p) in PathNodes(p) && TopNode(p) !in Nodes(p.sib)
    ensures !p.up.Top? ==> TopNode(p) == TopNode(p.up) && TopNode(p) != p.e.n
  {
    if !p.up.Top? { TopNodeOnPath(p.up); }
  }

  lemma {:induction false} PlugTop(p: Path, t: Tree)
    requires !p.Top?
    ensures Plug(p, t).Node? && Plug(p, t).e.n == TopNode(p)
  {
    if !p.up.Top? { PlugTop(p.up, One(p, t)); }
  }

  // ----- the colour rules -----

  ghost predicate IsRed(t: Tree) {
    t.Node? && t.color == Red
  }

  ghost function Weight(c: Color): nat {
    if c == Black then 1 else 0
  }

  ghost function BlackHeight(t: Tree): nat {
    if t.Leaf? then 0 else BlackHeight(t.left) + Weight(t.color)
  }

  /** Every path down from the root passes the same number of black nodes. */
  ghost predicate Balanced(t: Tree) {
    t.Leaf? || (Balanced(t.left) && Balanced(t.right) && BlackHeight(t.left) == BlackHeight(t.right))
  }

  /** No red node has a red child. */
  ghost predicate NoRedRed(t: Tree) {
    t.Leaf? || (NoRedRed(t.left) && NoRedRed(t.right)
                && (t.color == Red ==> !IsRed(t.left) && !IsRed(t.right)))
  }

  ghost predicate RedBlack(t: Tree) {
    !IsRed(t) && Balanced(t) && NoRedRed(t)
  }

  /** The path becomes balanced when its hole is filled by a tree of black height h. */
  ghost predicate PathBalanced(p: Path, h: nat) {
    p.Top? || (Balanced(p.sib) && BlackHeight(p.sib) == h && PathBalanced(p.up, h + Weight(p.color)))
  }

  /** No red-red pair outside the hole, and the topmost node is black. */
  ghost predicate PathNoRedRed(p: Path) {
    p.Top? || (NoRedRed(p.sib) && PathNoRedRed(p.up)
               && (p.color == Red ==> !IsRed(p.sib) && !p.up.Top? && p.up.color == Black))
  }

  /** The node above the hole, if there is one, is black. */
  ghost predicate BlackAbove(p: Path) {
    p.Top? || p.color == Black
  }

  lemma {:induction false} PlugBalanced(p: Path, t: Tree)
    ensures Balanced(Plug(p, t)) <==> Balanced(t) && PathBalanced(p, BlackHeight(t))
  {
    match p
    case Top =>
    case InLeft(e, c, sib, up) => PlugBalanced(up, Node(t, e, c, sib));
    case InRight(e, c, sib, up) => PlugBalanced(up, Node(sib, e, c, t));
  }

  lemma {:induction false} PlugRedBlack(p: Path, t: Tree)
    requires NoRedRed(t) && PathNoRedRed(p)
    requires IsRed(t) ==> !p.Top? && p.color == Black
    ensures NoRedRed(Plug(p, t)) && !IsRed(Plug(p, t))
  {
    match p
    case Top =>
    case InLeft(e, c, sib, up) => PlugRedBlack(up, Node(t, e, c, sib));
    case InRight(e, c, sib, up) => PlugRedBlack(up, Node(sib, e, c, t));
  }

  lemma {:induction false} UnplugRedBlack(p: Path, t: Tree)
    requires NoRedRed(Plug(p, t)) && !IsRed(Plug(p, t))
    ensures NoRedRed(t) && PathNoRedRed(p)
    ensures IsRed(t) ==> !p.Top? && p.color == Black
  {
    match p
    case Top =>
    case InLeft(e, c, sib, up) => UnplugRedBlack(up, Node(t, e, c, sib));
    case InRight(e, c, sib, up) => UnplugRedBlack(up, Node(sib, e, c, t));
  }

  // ----- height -----

  ghost function Height(t: Tree): nat {
    if t.Leaf? then 0
    else 1 + if Height(t.left) < Height(t.right) then Height(t.right) else Height(t.left)
  }

  lemma {:induction false} BlackHeightBounds(t: Tree)
    requires Balanced(t) && NoRedRed(t)
    ensures Height(t) <= 2 * BlackHeight(t) + (if IsRed(t) then 1 else 0)
    ensures |Entries(t)| + 1 >= Pow2(BlackHeight(t))
  {
    if t.Node? {
      BlackHeightBounds(t.left);
      BlackHeightBounds(t.right);
    }
  }

  /** A search in a tree of n timers takes at most 2 * log2(n + 1) steps. */
  lemma HeightIsLogarithmic(t: Tree)
    requires RedBlack(t)
    ensures Pow2(Height(t)) <= (|Entries(t)| + 1) * (|Entries(t)| + 1)
  {
    BlackHeightBounds(t);
    var h, n := BlackHeight(t), |Entries(t)| + 1;
    Pow2Monotone(Height(t), 2 * h);
    Pow2Square(h);
    assert Pow2(h) * Pow2(h) <= n * n by {
      MulMonotone(Pow2(h), n);
    }
  }

  // ----- ordering -----

  ghost predicate Sorted(s: seq<Entry>) {
    forall i, j :: 0 <= i < j < |s| ==> s[i].key <= s[j].key
  }

  /** The stable insertion of `x`: after every entry whose key is not larger. */
  ghost function InsertSorted(s: seq<Entry>, x: Entry): seq<Entry> {
    if s == [] then [x]
    else if x.key < s[0].key then [x] + s
    else [s[0]] + InsertSorted(s[1..], x)
  }

  /** Every entry except those of node `n`. */
  ghost function Without(s: seq<Entry>, n: RbNode): seq<Entry> {
    if s == [] then []
    else if s[0].n == n then Without(s[1..], n)
    else [s[0]] + Without(s[1..], n)
  }

  lemma {:induction false} InsertSortedSplit(a: seq<Entry>, b: seq<Entry>, x: Entry)
    requires forall i :: 0 <= i < |a| ==> a[i].key <= x.key
    requires b != [] ==> x.key < b[0].key
    ensures InsertSorted(a + b, x) == a + [x] + b
  {
    if a == [] {
      assert a + b == b;
    } else {
      InsertSortedSplit(a[1..], b, x);
      assert (a + b)[1..] == a[1..] + b;
    }
  }

  /** `x` belongs between `a` and `b`. */
  ghost predicate Between(a: seq<Entry>, x: Entry, b: seq<Entry>) {
    (a == [] || a[|a| - 1].key <= x.key) && (b == [] || x.key < b[0].key)
  }

  lemma InsertSortedBetween(a: seq<Entry>, b: seq<Entry>, x: Entry)
    requires Sorted(a + b) && Between(a, x, b)
    ensures InsertSorted(a + b, x) == a + [x] + b
  {
    forall i | 0 <= i < |a|
      ensures a[i].key <= x.key
    {
      assert (a + b)[i] == a[i] && (a + b)[|a| - 1] == a[|a| - 1];
    }
    InsertSortedSplit(a, b, x);
  }

  lemma {:induction false} InsertSortedElements(s: seq<Entry>, x: Entry)
    ensures multiset(InsertSorted(s, x)) == multiset(s) + multiset{x}
  {
    if s != [] && x.key >= s[0].key {
      InsertSortedElements(s[1..], x);
      assert s == [s[0]] + s[1..];
    }
  }

  lemma {:induction false} InsertSortedBound(s: seq<Entry>, x: Entry, k: int)
    requires k <= x.key && forall i :: 0 <= i < |s| ==> k <= s[i].key
    ensures forall i :: 0 <= i < |InsertSorted(s, x)| ==> k <= InsertSorted(s, x)[i].key
  {
    if s != [] && x.key >= s[0].key {
      InsertSortedBound(s[1..], x, k);
    }
  }

  lemma {:induction false} InsertSortedProps(s: seq<Entry>, x: Entry)
    requires Sorted(s)
    ensures Sorted(InsertSorted(s, x))
    ensures multiset(InsertSorted(s, x)) == multiset(s) + multiset{x}
  {
    InsertSortedElements(s, x);
    if s != [] && x.key >= s[0].key {
      InsertSortedProps(s[1..], x);
      InsertSortedBound(s[1..], x, s[0].key);
    }
  }

  lemma {:induction false} WithoutSplit(a: seq<Entry>, b: seq<Entry>, x: Entry)
    requires forall y :: y in a || y in b ==> y.n != x.n
    ensures Without(a + [x] + b, x.n) == a + b
  {
    if a == [] {
      assert a + [x] + b == [x] + b;
      assert ([x] + b)[1..] == b;
      WithoutAbsent(b, x.n);
    } else {
      assert a[0] in a && forall y :: y in a[1..] ==> y in a;
      WithoutSplit(a[1..], b, x);
      assert (a + [x] + b)[1..] == a[1..] + [x] + b;
    }
  }

  lemma {:induction false} WithoutAbsent(s: seq<Entry>, n: RbNode)
    requires forall y :: y in s ==> y.n != n
    ensures Without(s, n) == s
  {
    if s != [] {
      assert s[0] in s && forall y :: y in s[1..] ==> y in s;
      WithoutAbsent(s[1..], n);
    }
  }

  lemma MiddleOut(a: seq<Entry>, l: seq<Entry>, x: Entry, r: seq<Entry>, c: seq<Entry>)
    ensures a + (l + [x] + r) + c == a + l + [x] + (r + c)
  {
  }

  lemma FirstOut(x: Entry, r: seq<Entry>, b: seq<Entry>, a: seq<Entry>, c: seq<Entry>)
    ensures (a + [x] + []) + r + (b + c) == a + ([x] + r + b + c)
  {
  }

  lemma {:induction false} WithoutProps(s: seq<Entry>, n: RbNode)
    requires Sorted(s)
    ensures Sorted(Without(s, n))
    ensures forall x :: x in Without(s, n) ==> x in s && x.n != n
    ensures forall x :: x in s && x.n != n ==> x in Without(s, n)
  {
    if s != [] {
      var rest := s[1..];
      var r := Without(rest, n);
      WithoutProps(rest, n);
      assert forall x :: x in s <==> x == s[0] || x in rest;
      if s[0].n != n {
        forall i | 0 <= i < |r|
          ensures s[0].key <= r[i].key
        {
          assert r[i] in rest by { assert r[i] in r; }
        }
      }
    }
  }

  lemma {:induction false} InsertSortedNodes(s: seq<Entry>, x: Entry)
    ensures NodesOf(InsertSorted(s, x)) == NodesOf(s) + {x.n}
  {
    if s == [] {
    } else if x.key < s[0].key {
      NodesOfCons(x, s);
    } else {
      InsertSortedNodes(s[1..], x);
      NodesOfCons(s[0], s[1..]);
      NodesOfCons(s[0], InsertSorted(s[1..], x));
      assert s == [s[0]] + s[1..];
    }
  }

  lemma NodesOfCons(x: Entry, s: seq<Entry>)
    ensures NodesOf([x] + s) == {x.n} + NodesOf(s)
  {
    assert forall y :: y in [x] + s <==> y == x || y in s;
  }

  lemma {:induction false} WithoutNodes(s: seq<Entry>, n: RbNode)
    ensures NodesOf(Without(s, n)) == NodesOf(s) - {n}
  {
    if s != [] {
      WithoutNodes(s[1..], n);
      NodesOfCons(s[0], s[1..]);
      NodesOfCons(s[0], Without(s[1..], n));
      assert s == [s[0]] + s[1..];
    }
  }
}
