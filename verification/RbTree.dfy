/**
 The red-black tree with parent links and one shared sentinel in place of all missing children.
 Nodes are structs in a memory that the tree's methods update field by field; a pointer is an
 address, and reading or writing through one needs a struct at that address. The sentinel is an
 ordinary struct: it is black, and its parent field is used as scratch space by deletion. Nothing
 is said about the parent field of the root.
 */
module RbTrees {
  import opened Basics
  import opened RbShapes

  type Ptr = nat

  const NULL: Ptr := 0

  datatype Node = Node(left: Ptr, right: Ptr, parent: Ptr, key: int, red: bool)

  type Memory = map<Ptr, Node>

  /** The structs from n downwards spell out shape t. */
  ghost predicate Rep(m: Memory, t: Shape<Ptr>, n: Ptr, s: Ptr)
    decreases t
  {
    match t
    case Leaf => n == s
    case Fork(l, x, red, r) =>
      && n == x && x in m && m[x].red == red
      && Rep(m, l, m[x].left, s) && Rep(m, r, m[x].right, s)
      && ParentIs(m, l, x) && ParentIs(m, r, x)
  }

  ghost predicate ParentIs(m: Memory, t: Shape<Ptr>, x: Ptr) {
    t.Fork? ==> t.node in m && m[t.node].parent == x
  }

  /** The structs from the root down to the link that holds n spell out path p. */
  ghost predicate RepPath(m: Memory, p: Path<Ptr>, n: Ptr, s: Ptr, root: Ptr)
    decreases p
  {
    match p
    case Top => root == n
    case InLeft(x, red, r, up) =>
      && x in m && m[x].red == red && m[x].left == n && Rep(m, r, m[x].right, s) && ParentIs(m, r, x)
      && (!up.Top? ==> m[x].parent == up.node) && RepPath(m, up, x, s, root)
    case InRight(l, x, red, up) =>
      && x in m && m[x].red == red && m[x].right == n && Rep(m, l, m[x].left, s) && ParentIs(m, l, x)
      && (!up.Top? ==> m[x].parent == up.node) && RepPath(m, up, x, s, root)
  }

  /** No struct is used twice, and the sentinel is none of the nodes. */
  ghost predicate Separate(p: Path<Ptr>, t: Shape<Ptr>, s: Ptr) {
    && Apart(t) && PathApart(p) && Nodes(t) !! PathNodes(p)
    && s !in Nodes(t) && s !in PathNodes(p)
  }

  /** The tree is Plug(p, t), and n points to the part that is t. */
  ghost predicate At(m: Memory, p: Path<Ptr>, t: Shape<Ptr>, n: Ptr, s: Ptr, root: Ptr) {
    && Rep(m, t, n, s) && RepPath(m, p, n, s, root) && (!p.Top? ==> ParentIs(m, t, p.node))
    && Separate(p, t, s)
  }

  // ------------------------------------------------------------------- frames

  /** The two memories agree on the structs at these addresses. */
  ghost predicate Same(m: Memory, m': Memory, xs: set<Ptr>) {
    forall x :: x in xs && x in m ==> x in m' && m'[x] == m[x]
  }

  lemma {:induction false} RepSame(m: Memory, m': Memory, t: Shape<Ptr>, n: Ptr, s: Ptr)
    requires Rep(m, t, n, s) && Same(m, m', Nodes(t))
    ensures Rep(m', t, n, s)
    decreases t
  {
    if t.Fork? {
      RepSame(m, m', t.left, m[t.node].left, s);
      RepSame(m, m', t.right, m[t.node].right, s);
    }
  }

  /** The parent field of its root does not matter to a subtree. */
  lemma RepSameButParent(m: Memory, m': Memory, t: Shape<Ptr>, n: Ptr, s: Ptr)
    requires Rep(m, t, n, s) && Apart(t)
    requires t.Fork? ==> Same(m, m', Nodes(t) - {t.node})
    requires t.Fork? ==> t.node in m' && m'[t.node] == m[t.node].(parent := m'[t.node].parent)
    ensures Rep(m', t, n, s)
  {
    if t.Fork? {
      RepSame(m, m', t.left, m[t.node].left, s);
      RepSame(m, m', t.right, m[t.node].right, s);
    }
  }

  lemma {:induction false} RepPathSame(m: Memory, m': Memory, p: Path<Ptr>, n: Ptr, s: Ptr, root: Ptr)
    requires RepPath(m, p, n, s, root) && Same(m, m', PathNodes(p))
    ensures RepPath(m', p, n, s, root)
    decreases p
  {
    match p
    case Top =>
    case InLeft(x, red, r, up) =>
      RepSame(m, m', r, m[x].right, s);
      RepPathSame(m, m', up, x, s, root);
    case InRight(l, x, red, up) =>
      RepSame(m, m', l, m[x].left, s);
      RepPathSame(m, m', up, x, s, root);
  }

  lemma {:induction false} RootOnPath(m: Memory, p: Path<Ptr>, n: Ptr, s: Ptr, root: Ptr)
    requires RepPath(m, p, n, s, root) && !p.Top?
    ensures root in PathNodes(p)
    decreases p
  {
    if !p.up.Top? { RootOnPath(m, p.up, p.node, s, root); }
  }

  // ----------------------------------------------------- relinking the parent

  /** The struct above the hole with its link changed from n to n'. */
  ghost function Relinked(m: Memory, p: Path<Ptr>, n': Ptr): Memory
    requires p.Top? || p.node in m
  {
    match p
    case Top => m
    case InLeft(x, _, _, _) => m[x := m[x].(left := n')]
    case InRight(_, x, _, _) => m[x := m[x].(right := n')]
  }

  /** Changing the link above the hole, or the root pointer, moves the hole's end of the path. */
  lemma RelinkPath(m: Memory, p: Path<Ptr>, n: Ptr, n': Ptr, s: Ptr, root: Ptr)
    requires RepPath(m, p, n, s, root) && PathApart(p)
    ensures p.Top? || p.node in m
    ensures RepPath(Relinked(m, p, n'), p, n', s, if p.Top? then n' else root)
  {
    var m' := Relinked(m, p, n');
    match p
    case Top =>
    case InLeft(x, red, r, up) =>
      RepSame(m, m', r, m[x].right, s);
      RepPathSame(m, m', up, x, s, root);
      assert ParentIs(m', r, x) by { assert r.Fork? ==> r.node in Nodes(r); }
    case InRight(l, x, red, up) =>
      RepSame(m, m', l, m[x].left, s);
      RepPathSame(m, m', up, x, s, root);
      assert ParentIs(m', l, x) by { assert l.Fork? ==> l.node in Nodes(l); }
  }

  // ---------------------------------------------------------------- rotations

  ghost predicate CanRotateLeft(t: Shape<Ptr>) {
    t.Fork? && t.right.Fork?
  }

  ghost predicate CanRotateRight(t: Shape<Ptr>) {
    t.Fork? && t.left.Fork?
  }

  /** The shape after a left rotation: the right child is lifted, each node keeps its colour. */
  function LeftRotated(t: Shape<Ptr>): Shape<Ptr>
    requires CanRotateLeft(t)
  {
    Fork(Fork(t.left, t.node, t.red, t.right.left), t.right.node, t.right.red, t.right.right)
  }

  function RightRotated(t: Shape<Ptr>): Shape<Ptr>
    requires CanRotateRight(t)
  {
    Fork(t.left.left, t.left.node, t.left.red, Fork(t.left.right, t.node, t.red, t.right))
  }

  lemma NodesOf(t: Shape<Ptr>)
    ensures t.Fork? ==> t.node in Nodes(t) && Nodes(t.left) <= Nodes(t) && Nodes(t.right) <= Nodes(t)
  {}

  lemma RepParts(m: Memory, t: Shape<Ptr>, n: Ptr, s: Ptr)
    requires Rep(m, t, n, s) && t.Fork?
    ensures n == t.node && n in m && m[n].red == t.red
    ensures Rep(m, t.left, m[n].left, s) && Rep(m, t.right, m[n].right, s)
    ensures t.left.Fork? ==> t.left.node in m && m[n].left == t.left.node && m[t.left.node].parent == n
    ensures t.right.Fork? ==> t.right.node in m && m[n].right == t.right.node && m[t.right.node].parent == n
  {}

  lemma ApartParts(t: Shape<Ptr>)
    requires Apart(t) && t.Fork?
    ensures t.node !in Nodes(t.left) && t.node !in Nodes(t.right) && Nodes(t.left) !! Nodes(t.right)
    ensures Apart(t.left) && Apart(t.right) && Nodes(t) == Nodes(t.left) + {t.node} + Nodes(t.right)
  {}

  /** Moving within a pair of nodes does not change which nodes there are. */
  lemma LeftRotatedApart(t: Shape<Ptr>)
    requires CanRotateLeft(t) && Apart(t)
    ensures Apart(LeftRotated(t)) && Nodes(LeftRotated(t)) == Nodes(t)
  {
    ApartParts(t); ApartParts(t.right);
    var l := Fork(t.left, t.node, t.red, t.right.left);
    assert Nodes(l) == Nodes(t.left) + {t.node} + Nodes(t.right.left);
    assert Apart(l);
  }

  lemma RightRotatedApart(t: Shape<Ptr>)
    requires CanRotateRight(t) && Apart(t)
    ensures Apart(RightRotated(t)) && Nodes(RightRotated(t)) == Nodes(t)
  {
    ApartParts(t); ApartParts(t.left);
    var r := Fork(t.left.right, t.node, t.red, t.right);
    assert Nodes(r) == Nodes(t.left.right) + {t.node} + Nodes(t.right);
    assert Apart(r);
  }

  ghost function RootOf(t: Shape<Ptr>): (r: set<Ptr>)
    ensures r <= Nodes(t)
  {
    if t.Fork? then {t.node} else {}
  }

  ghost function Above(p: Path<Ptr>): (r: set<Ptr>)
    ensures r <= PathNodes(p)
  {
    if p.Top? then {} else {p.node}
  }

  /** The fields a left rotation leaves behind: x = t.node goes down, y, its right child, comes up. */
  ghost predicate LeftRotates(m: Memory, m': Memory, p: Path<Ptr>, t: Shape<Ptr>)
    requires CanRotateLeft(t)
  {
    var x, y, b := t.node, t.right.node, t.right.left;
    && x in m && y in m && x in m' && y in m'
    && m'[x] == m[x].(right := m[y].left, parent := y)
    && m'[y] == m[y].(left := x, parent := m[x].parent)
    && (b.Fork? ==> b.node in m && b.node in m' && m'[b.node] == m[b.node].(parent := x))
    && (!p.Top? ==> p.node in m && p.node in m' && m'[p.node] == Relinked(m, p, y)[p.node])
    && Same(m, m', m.Keys - {x, y} - RootOf(b) - Above(p))
  }

  lemma LeftRotateRep(m: Memory, m': Memory, p: Path<Ptr>, t: Shape<Ptr>, s: Ptr)
    requires CanRotateLeft(t) && Separate(p, t, s) && Rep(m, t, t.node, s)
    requires LeftRotates(m, m', p, t)
    ensures Rep(m', LeftRotated(t), t.right.node, s)
  {
    var x, y, a, b, d := t.node, t.right.node, t.left, t.right.left, t.right.right;
    RepParts(m, t, x, s); RepParts(m, t.right, y, s);
    ApartParts(t); ApartParts(t.right);
    ghost var touched := {x, y} + RootOf(b) + Above(p);
    assert Nodes(a) !! touched && Nodes(d) !! touched;
    RepSame(m, m', a, m[x].left, s);
    RepSame(m, m', d, m[y].right, s);
    RepSameButParent(m, m', b, m[y].left, s);
    NodesOf(a); NodesOf(d);
    assert Rep(m', LeftRotated(t).left, x, s);
  }

  lemma LeftRotateAt(m: Memory, m': Memory, p: Path<Ptr>, t: Shape<Ptr>, s: Ptr, root: Ptr)
    requires CanRotateLeft(t) && At(m, p, t, t.node, s, root)
    requires LeftRotates(m, m', p, t)
    ensures At(m', p, LeftRotated(t), t.right.node, s, if p.Top? then t.right.node else root)
  {
    var x, y, b := t.node, t.right.node, t.right.left;
    LeftRotateRep(m, m', p, t, s);
    LeftRotatedApart(t);
    RelinkPath(m, p, x, y, s, root);
    ApartParts(t); ApartParts(t.right);
    NodesOf(b); NodesOf(t); NodesOf(t.right);
    assert Nodes(b) <= Nodes(t.right) <= Nodes(t);
    RepPathSame(Relinked(m, p, y), m', p, y, s, if p.Top? then y else root);
  }

  /** The fields a right rotation leaves behind: x = t.node goes down, y, its left child, comes up. */
  ghost predicate RightRotates(m: Memory, m': Memory, p: Path<Ptr>, t: Shape<Ptr>)
    requires CanRotateRight(t)
  {
    var x, y, b := t.node, t.left.node, t.left.right;
    && x in m && y in m && x in m' && y in m'
    && m'[x] == m[x].(left := m[y].right, parent := y)
    && m'[y] == m[y].(right := x, parent := m[x].parent)
    && (b.Fork? ==> b.node in m && b.node in m' && m'[b.node] == m[b.node].(parent := x))
    && (!p.Top? ==> p.node in m && p.node in m' && m'[p.node] == Relinked(m, p, y)[p.node])
    && Same(m, m', m.Keys - {x, y} - RootOf(b) - Above(p))
  }

  lemma RightRotateRep(m: Memory, m': Memory, p: Path<Ptr>, t: Shape<Ptr>, s: Ptr)
    requires CanRotateRight(t) && Separate(p, t, s) && Rep(m, t, t.node, s)
    requires RightRotates(m, m', p, t)
    ensures Rep(m', RightRotated(t), t.left.node, s)
  {
    var x, y, a, b, d := t.node, t.left.node, t.right, t.left.right, t.left.left;
    RepParts(m, t, x, s); RepParts(m, t.left, y, s);
    ApartParts(t); ApartParts(t.left);
    ghost var touched := {x, y} + RootOf(b) + Above(p);
    assert Nodes(a) !! touched && Nodes(d) !! touched;
    RepSame(m, m', a, m[x].right, s);
    RepSame(m, m', d, m[y].left, s);
    RepSameButParent(m, m', b, m[y].right, s);
    NodesOf(a); NodesOf(d);
    assert Rep(m', RightRotated(t).right, x, s);
  }

  lemma RightRotateAt(m: Memory, m': Memory, p: Path<Ptr>, t: Shape<Ptr>, s: Ptr, root: Ptr)
    requires CanRotateRight(t) && At(m, p, t, t.node, s, root)
    requires RightRotates(m, m', p, t)
    ensures At(m', p, RightRotated(t), t.left.node, s, if p.Top? then t.left.node else root)
  {
    var x, y, b := t.node, t.left.node, t.left.right;
    RightRotateRep(m, m', p, t, s);
    RightRotatedApart(t);
    RelinkPath(m, p, x, y, s, root);
    ApartParts(t); ApartParts(t.left);
    NodesOf(b); NodesOf(t); NodesOf(t.left);
    assert Nodes(b) <= Nodes(t.left) <= Nodes(t);
    RepPathSame(Relinked(m, p, y), m', p, y, s, if p.Top? then y else root);
  }

  // ------------------------------------------------------- moving the focus

  lemma Up(m: Memory, p: Path<Ptr>, t: Shape<Ptr>, n: Ptr, s: Ptr, root: Ptr)
    requires At(m, p, t, n, s, root) && !p.Top?
    ensures At(m, p.up, Lift(p, t), p.node, s, root) && p.node in m
    ensures t.Fork? ==> n == t.node && n in m && m[n].parent == p.node
    ensures m[p.node].red == p.red && n == if p.InLeft? then m[p.node].left else m[p.node].right
  {}

  lemma DownLeft(m: Memory, p: Path<Ptr>, t: Shape<Ptr>, n: Ptr, s: Ptr, root: Ptr)
    requires At(m, p, t, n, s, root) && t.Fork?
    ensures n in m && n == t.node && At(m, InLeft(t.node, t.red, t.right, p), t.left, m[n].left, s, root)
  {}

  lemma DownRight(m: Memory, p: Path<Ptr>, t: Shape<Ptr>, n: Ptr, s: Ptr, root: Ptr)
    requires At(m, p, t, n, s, root) && t.Fork?
    ensures n in m && n == t.node && At(m, InRight(t.left, t.node, t.red, p), t.right, m[n].right, s, root)
  {}

  lemma RecolourAt(m: Memory, p: Path<Ptr>, t: Shape<Ptr>, n: Ptr, s: Ptr, root: Ptr, red: bool)
    requires At(m, p, t, n, s, root) && t.Fork?
    ensures n in m && At(m[n := m[n].(red := red)], p, t.(red := red), n, s, root)
  {
    var m' := m[n := m[n].(red := red)];
    ApartParts(t);
    RepSame(m, m', t.left, m[n].left, s);
    RepSame(m, m', t.right, m[n].right, s);
    NodesOf(t); NodesOf(t.left); NodesOf(t.right);
    RepPathSame(m, m', p, n, s, root);
    assert Nodes(t.(red := red)) == Nodes(t);
  }

  /** The focus is on the whole tree exactly when it points to the root. */
  lemma AtRoot(m: Memory, p: Path<Ptr>, t: Shape<Ptr>, n: Ptr, s: Ptr, root: Ptr)
    requires At(m, p, t, n, s, root)
    ensures n == root <==> p.Top?
  {
    if !p.Top? {
      RootOnPath(m, p, n, s, root);
      NodesOf(t);
    }
  }

  /** Only one of its parent's links points to a node. */
  lemma SiblingElsewhere(m: Memory, p: Path<Ptr>, t: Shape<Ptr>, s: Ptr, root: Ptr)
    requires t.Fork? && !p.Top? && At(m, p, t, t.node, s, root)
    ensures p.node in m
    ensures (t.node == m[p.node].left <==> p.InLeft?) && (t.node == m[p.node].right <==> p.InRight?)
  {
    NodesOf(t); NodesOf(Sibling(p));
    assert Nodes(Sibling(p)) <= PathNodes(p);
  }

  /** What the code of a left rotation finds: which structs it touches, and that they differ. */
  lemma LeftRotateFacts(m: Memory, p: Path<Ptr>, t: Shape<Ptr>, s: Ptr, root: Ptr)
    requires CanRotateLeft(t) && At(m, p, t, t.node, s, root)
    ensures var x, y, b := t.node, t.right.node, t.right.left;
            && x in m && y in m && m[x].right == y && x != y && x != s && y != s
            && (b.Leaf? ==> m[y].left == s)
            && (b.Fork? ==> m[y].left == b.node && b.node in m && b.node != x && b.node != y && b.node != s)
            && (x == root <==> p.Top?)
            && (!p.Top? ==> && p.node in m && m[x].parent == p.node && p.node != x && p.node != y && p.node != s
                            && (b.Fork? ==> p.node != b.node)
                            && (x == m[p.node].left <==> p.InLeft?) && (x == m[p.node].right <==> p.InRight?))
  {
    var x, y, b := t.node, t.right.node, t.right.left;
    RepParts(m, t, x, s); RepParts(m, t.right, y, s);
    ApartParts(t); ApartParts(t.right);
    AtRoot(m, p, t, x, s, root);
    NodesOf(b);
    if !p.Top? {
      assert p.node in PathNodes(p);
      SiblingElsewhere(m, p, t, s, root);
    }
  }

  /** What the code of a right rotation finds: which structs it touches, and that they differ. */
  lemma RightRotateFacts(m: Memory, p: Path<Ptr>, t: Shape<Ptr>, s: Ptr, root: Ptr)
    requires CanRotateRight(t) && At(m, p, t, t.node, s, root)
    ensures var x, y, b := t.node, t.left.node, t.left.right;
            && x in m && y in m && m[x].left == y && x != y && x != s && y != s
            && (b.Leaf? ==> m[y].right == s)
            && (b.Fork? ==> m[y].right == b.node && b.node in m && b.node != x && b.node != y && b.node != s)
            && (x == root <==> p.Top?)
            && (!p.Top? ==> && p.node in m && m[x].parent == p.node && p.node != x && p.node != y && p.node != s
                            && (b.Fork? ==> p.node != b.node)
                            && (x == m[p.node].left <==> p.InLeft?) && (x == m[p.node].right <==> p.InRight?))
  {
    var x, y, b := t.node, t.left.node, t.left.right;
    RepParts(m, t, x, s); RepParts(m, t.left, y, s);
    ApartParts(t); ApartParts(t.left);
    AtRoot(m, p, t, x, s, root);
    NodesOf(b);
    if !p.Top? {
      assert p.node in PathNodes(p);
      SiblingElsewhere(m, p, t, s, root);
    }
  }

  // -------------------------------------------------------------------- order

  /** The keys of these nodes do not decrease. */
  ghost predicate Ordered(m: Memory, xs: seq<Ptr>) {
    && (forall i :: 0 <= i < |xs| ==> xs[i] in m)
    && (forall i, j :: 0 <= i < j < |xs| ==> m[xs[i]].key <= m[xs[j]].key)
  }

  lemma OrderedInsert(m: Memory, a: seq<Ptr>, x: Ptr, b: seq<Ptr>)
    requires Ordered(m, a + b) && x in m
    requires forall i :: 0 <= i < |a| ==> a[i] in m && m[a[i]].key <= m[x].key
    requires forall i :: 0 <= i < |b| ==> b[i] in m && m[x].key <= m[b[i]].key
    ensures Ordered(m, a + [x] + b)
  {
    var c, d := a + [x] + b, a + b;
    forall i | 0 <= i < |c| ensures c[i] in m {
      if i < |a| { assert c[i] == a[i]; } else if i > |a| { assert c[i] == b[i - |a| - 1]; }
    }
    forall i, j | 0 <= i < j < |c| ensures m[c[i]].key <= m[c[j]].key {
      var i', j' := if i > |a| then i - 1 else i, if j > |a| then j - 1 else j;
      if i == |a| {
        assert c[j] == b[j - |a| - 1];
      } else if j == |a| {
        assert c[i] == a[i];
      } else {
        assert c[i] == d[i'] && c[j] == d[j'];
      }
    }
  }

  lemma OrderedRemove(m: Memory, a: seq<Ptr>, x: Ptr, b: seq<Ptr>)
    requires Ordered(m, a + [x] + b)
    ensures Ordered(m, a + b)
  {
    var c, d := a + [x] + b, a + b;
    assert forall i :: 0 <= i < |d| ==> d[i] == c[if i < |a| then i else i + 1];
  }

  // ------------------------------------------------------------ a new leaf

  /** Hanging a struct with two sentinel links into an empty hole. */
  lemma LeafAt(m: Memory, m': Memory, q: Path<Ptr>, s: Ptr, root: Ptr, node: Ptr)
    requires At(m, q, Leaf, s, s, root) && !q.Top?
    requires node !in PathNodes(q) && node != s && node in m'
    requires m'[node].left == s && m'[node].right == s && m'[node].parent == q.node && m'[node].red
    requires Same(Relinked(m, q, node), m', PathNodes(q))
    ensures At(m', q, Fork(Leaf, node, true, Leaf), node, s, root)
  {
    RelinkPath(m, q, s, node, s, root);
    RepPathSame(Relinked(m, q, node), m', q, node, s, root);
    assert Rep(m', Leaf, s, s);
  }

  /** What a deletion leaves: the order without the node, still an order. */
  lemma DeletedTree(m: Memory, m': Memory, p: Path<Ptr>, t: Shape<Ptr>, whole: Shape<Ptr>, t': Shape<Ptr>) returns (i: nat)
    requires t.Fork? && Plug(p, t) == whole && Apart(whole) && Ordered(m, Inorder(whole))
    requires m'.Keys == m.Keys && forall x :: x in m' && x != t.node ==> m'[x].key == m[x].key
    requires Inorder(t') == Before(p) + Inorder(t.left) + Inorder(t.right) + After(p)
    ensures Ordered(m', Inorder(t'))
    ensures i < |Inorder(whole)| && Inorder(whole)[i] == t.node
    ensures Inorder(t') == Inorder(whole)[..i] + Inorder(whole)[i + 1..]
  {
    i := |Before(p)| + |Inorder(t.left)|;
    DeletedOrder(p, t, whole);
    StillOrdered(m, m', p, t);
  }

  lemma SpliceOrder(p: Path<Ptr>, t: Shape<Ptr>)
    requires t.Fork?
    ensures t.left == Leaf ==> Inorder(Plug(p, t.right)) == Before(p) + Inorder(t.left) + Inorder(t.right) + After(p)
    ensures t.right == Leaf ==> Inorder(Plug(p, t.left)) == Before(p) + Inorder(t.left) + Inorder(t.right) + After(p)
  {
    InorderPlug(p, t.right);
    InorderPlug(p, t.left);
    assert Before(p) + [] == Before(p) && Before(p) + Inorder(t.left) + [] == Before(p) + Inorder(t.left);
  }

  lemma {:induction false} InorderNodes(t: Shape<Ptr>)
    ensures forall x :: x in Inorder(t) <==> x in Nodes(t)
  {
    if t.Fork? {
      InorderNodes(t.left);
      InorderNodes(t.right);
    }
  }

  lemma Regroup(a: seq<Ptr>, l: seq<Ptr>, x: Ptr, r: seq<Ptr>, z: seq<Ptr>)
    ensures a + (l + [x] + r) + z == (a + l) + [x] + (r + z)
  {}

  lemma Regroup4(a: seq<Ptr>, l: seq<Ptr>, r: seq<Ptr>, z: seq<Ptr>)
    ensures (a + l) + (r + z) == a + l + r + z
  {}

  lemma TakenOut(xs: seq<Ptr>, a: seq<Ptr>, l: seq<Ptr>, x: Ptr, r: seq<Ptr>, z: seq<Ptr>)
    requires xs == a + (l + [x] + r) + z
    ensures var i := |a| + |l|; i < |xs| && xs[i] == x && xs[..i] + xs[i + 1..] == a + l + r + z
  {
    var i := |a| + |l|;
    assert xs[..i] == a + l;
    assert xs[i + 1..] == r + z;
  }

  lemma InorderFork(t: Shape<Ptr>)
    requires t.Fork?
    ensures Inorder(t) == Inorder(t.left) + [t.node] + Inorder(t.right)
  {}

  /** Taking the root of a subtree out of the order. */
  lemma DeletedOrder(p: Path<Ptr>, t: Shape<Ptr>, whole: Shape<Ptr>)
    requires t.Fork? && Plug(p, t) == whole
    ensures var i := |Before(p)| + |Inorder(t.left)|; var xs := Inorder(whole);
            && i < |xs| && xs[i] == t.node
            && xs[..i] + xs[i + 1..] == Before(p) + Inorder(t.left) + Inorder(t.right) + After(p)
  {
    hide *;
    InorderPlug(p, t);
    InorderFork(t);
    TakenOut(Inorder(whole), Before(p), Inorder(t.left), t.node, Inorder(t.right), After(p));
  }

  /** The nodes that stay are still in order: their keys did not change. */
  lemma StillOrdered(m: Memory, m': Memory, p: Path<Ptr>, t: Shape<Ptr>)
    requires t.Fork? && Apart(Plug(p, t)) && Ordered(m, Inorder(Plug(p, t)))
    requires m'.Keys == m.Keys && forall x :: x in m' && x != t.node ==> m'[x].key == m[x].key
    ensures Ordered(m', Before(p) + Inorder(t.left) + Inorder(t.right) + After(p))
  {
    var a, l, r, z := Before(p), Inorder(t.left), Inorder(t.right), After(p);
    InorderPlug(p, t);
    Regroup(a, l, t.node, r, z);
    OrderedRemove(m, a + l, t.node, r + z);
    Regroup4(a, l, r, z);
    NotAmongOthers(p, t);
  }

  lemma NotAmongOthers(p: Path<Ptr>, t: Shape<Ptr>)
    requires t.Fork? && Apart(Plug(p, t))
    ensures t.node !in Before(p) + Inorder(t.left) + Inorder(t.right) + After(p)
  {
    PlugNodes(p, t);
    ApartParts(t);
    InorderNodes(t.left); InorderNodes(t.right);
    AroundNodes(p);
  }

  lemma {:induction false} AroundNodes(p: Path<Ptr>)
    ensures forall x :: x in Before(p) || x in After(p) ==> x in PathNodes(p)
    decreases p
  {
    if !p.Top? {
      AroundNodes(p.up);
      InorderNodes(Sibling(p));
    }
  }

  /** The order without the node, read off the place its successor left. */
  lemma SuccessorOrder(p: Path<Ptr>, t: Shape<Ptr>, inner: Path<Ptr>, u: Shape<Ptr>)
    requires t.Fork? && u.Fork? && u.left == Leaf && Plug(inner, u) == t.right && Before(inner) == []
    ensures Inorder(Plug(Compose(inner, InRight(t.left, u.node, t.red, p)), u.right)) ==
            Before(p) + Inorder(t.left) + Inorder(t.right) + After(p)
  {
    var base := InRight(t.left, u.node, t.red, p);
    PlugCompose(inner, base, u.right);
    InorderPlug(inner, u);
    InorderPlug(inner, u.right);
    InorderPlug(base, Plug(inner, u.right));
    MinFirst(u, After(inner));
    SuccessorFirst(Before(p) + Inorder(t.left), u.node, Inorder(u.right), After(inner), After(p));
  }

  lemma EmptyFirst(xs: seq<Ptr>, ys: seq<Ptr>)
    ensures [] + xs == xs && [] + xs + ys == xs + ys
  {}

  lemma MinFirst(u: Shape<Ptr>, z: seq<Ptr>)
    requires u.Fork? && u.left == Leaf
    ensures [] + Inorder(u) + z == [u.node] + Inorder(u.right) + z
    ensures [] + Inorder(u.right) + z == Inorder(u.right) + z
  {
    EmptyFirst([u.node], Inorder(u.right));
    EmptyFirst(Inorder(u), z);
    EmptyFirst(Inorder(u.right), z);
  }

  lemma SuccessorFirst(a: seq<Ptr>, x: Ptr, m: seq<Ptr>, z: seq<Ptr>, w: seq<Ptr>)
    ensures (a + [x]) + (m + z) + w == a + ([x] + m + z) + w
  {}

  /** The colours around the place the successor left do not depend on which node is above. */
  lemma SuccessorHeights(p: Path<Ptr>, t: Shape<Ptr>, inner: Path<Ptr>, u: Shape<Ptr>, H: int) returns (h: int)
    requires t.Fork? && u.Fork? && u.left == Leaf && Plug(inner, u) == t.right
    requires RedBlack(Plug(p, t), H) && Black(Plug(p, t))
    ensures var q := Compose(inner, InRight(t.left, u.node, t.red, p));
            && RedBlack(u, h) && RedBlackPath(q, h) && (UnderRed(q) ==> Black(u)) && !q.Top?
  {
    var base := InRight(t.left, t.node, t.red, p);
    PlugCompose(inner, base, u);
    h := RedBlackPathTo(Compose(inner, base), u, H);
    RenamedPath(inner, t.left, t.node, u.node, t.red, p, h);
  }

  lemma {:induction false} RenamedPath(inner: Path<Ptr>, l: Shape<Ptr>, x: Ptr, y: Ptr, c: bool, p: Path<Ptr>, h: int)
    requires RedBlackPath(Compose(inner, InRight(l, x, c, p)), h)
    ensures RedBlackPath(Compose(inner, InRight(l, y, c, p)), h)
    ensures UnderRed(Compose(inner, InRight(l, y, c, p))) == UnderRed(Compose(inner, InRight(l, x, c, p)))
    ensures !Compose(inner, InRight(l, y, c, p)).Top?
    decreases inner
  {
    if !inner.Top? { RenamedPath(inner.up, l, x, y, c, p, if inner.red then h else h + 1); }
  }

  /** What taking a node's place needs: the structs it writes to are there and differ. */
  ghost predicate PlaceReady(m: Memory, node: Ptr, subst: Ptr, s: Ptr, isRoot: bool) {
    && node in m && subst in m && node != subst && node != s && subst != s && s in m
    && var l, r, q := m[node].left, m[node].right, m[node].parent;
       && (l != s ==> l in m && l != node && l != subst)
       && (r != s ==> r in m && r != node && r != subst && r != l)
       && (!isRoot ==> && q in m && q != node && q != subst && q != l && q != r && q != s
                       && (node == m[q].left || node == m[q].right) && m[q].left != m[q].right)
  }

  /** The fields it leaves behind. */
  ghost predicate PlaceLinks(m: Memory, m': Memory, node: Ptr, subst: Ptr, s: Ptr, isRoot: bool)
    requires node in m && subst in m
  {
    && m'.Keys == m.Keys
    && var l, r, q := m[node].left, m[node].right, m[node].parent;
       && m'[subst] == m[subst].(left := l, right := r, parent := q, red := m[node].red)
       && (l != s ==> l in m && m'[l] == m[l].(parent := subst))
       && (r != s ==> r in m && m'[r] == m[r].(parent := subst))
       && (!isRoot ==> q in m && m'[q] == if m[q].left == node then m[q].(left := subst) else m[q].(right := subst))
       && Same(m, m', m.Keys - {node, subst} - (if l != s then {l} else {}) - (if r != s then {r} else {})
                      - (if isRoot then {} else {q}))
  }

  lemma PlaceKeeps(m: Memory, m': Memory, node: Ptr, subst: Ptr, s: Ptr, isRoot: bool)
    requires PlaceReady(m, node, subst, s, isRoot) && PlaceLinks(m, m', node, subst, s, isRoot)
    ensures m'[s] == m[s]
    ensures forall x :: x in m && x != node ==> m'[x].key == m[x].key
  {}

  lemma PlaceIsReady(m: Memory, b: Memory, p: Path<Ptr>, t: Shape<Ptr>, y: Ptr, s: Ptr, root: Ptr)
    requires t.Fork? && At(m, p, t, t.node, s, root) && b.Keys == m.Keys && s in b
    requires y in b && y != s && y !in Nodes(t) && y !in PathNodes(p)
    requires forall x :: x in m && x != s && !(t.right.Fork? && x == t.right.node) ==> b[x] == m[x]
    requires t.right.Fork? && t.right.node in m ==> b[t.right.node] == m[t.right.node].(parent := b[t.right.node].parent)
    ensures PlaceReady(b, t.node, y, s, t.node == root)
  {
    PlaceFacts(m, p, t, s, root);
    NodesOf(t); NodesOf(t.left); NodesOf(t.right);
    assert !p.Top? ==> p.node in PathNodes(p);
  }

  ghost function DetachedMemory(m: Memory, q: Path<Ptr>, temp: Ptr): Memory
    requires AboveIn(q, m) && !q.Top? && temp in m
  {
    Relinked(m, q, temp)[temp := m[temp].(parent := q.node)]
  }

  lemma DetachedAt(m: Memory, inner: Path<Ptr>, base: Path<Ptr>, u: Shape<Ptr>, s: Ptr, root: Ptr)
    requires u.Fork? && u.left == Leaf && !base.Top? && At(m, Compose(inner, base), u, u.node, s, root)
    requires AboveIn(Compose(inner, base), m) && PtrOf(u.right, s) in m
    ensures At(DetachedMemory(m, Compose(inner, base), PtrOf(u.right, s)), base.up, Lift(base, Plug(inner, u.right)),
               base.node, s, root)
  {
    var q, temp := Compose(inner, base), PtrOf(u.right, s);
    var m1 := DetachedMemory(m, q, temp);
    ApartParts(u);
    NodesOf(u.right);
    SpliceAt(m, m1, q, u, u.right, s, root);
    ZipTo(m1, inner, base, u.right, temp, s, root);
    Up(m1, base, Plug(inner, u.right), PtrOf(Plug(inner, u.right), s), s, root);
  }

  lemma DetachedIs(m: Memory, m1: Memory, b: Memory, inner: Path<Ptr>, base: Path<Ptr>, u: Shape<Ptr>, s: Ptr, root: Ptr)
    requires u.Fork? && !base.Top? && Separate(Compose(inner, base), u, s)
    requires var q, temp := Compose(inner, base), PtrOf(u.right, s);
             && AboveIn(q, m) && temp in m && m1 == DetachedMemory(m, q, temp)
             && b == Relinked(m, q, temp)[temp := m[temp].(parent := if q.node == base.node then u.node else q.node)]
    ensures var t := Plug(inner, u.right);
            && b.Keys == m1.Keys == m.Keys
            && (forall x :: x in m1 && x != s && !(t.Fork? && x == t.node) ==> b[x] == m1[x])
            && (t.Fork? && t.node in m1 ==> b[t.node] == m1[t.node].(parent := b[t.node].parent))
    ensures var temp := PtrOf(u.right, s); temp in b && b[temp].parent == if inner.Top? then u.node else inner.node
    ensures forall x :: x in b ==> b[x].key == m[x].key && (x == s ==> b[x].red == m[x].red)
  {
    SubstituteApart(inner, base, u, s);
    TempIsRight(inner, base, u.right);
    ApartParts(u);
    NodesOf(u.right);
    var q := Compose(inner, base);
    assert q.node in PathNodes(q);
  }

  lemma SubstituteApart(inner: Path<Ptr>, base: Path<Ptr>, u: Shape<Ptr>, s: Ptr)
    requires u.Fork? && Separate(Compose(inner, base), u, s) && !base.Top?
    ensures var t := Lift(base, Plug(inner, u.right));
            u.node !in Nodes(t) && u.node !in PathNodes(base) && u.node != s
    ensures base.node !in Nodes(u) && base.node !in PathNodes(inner)
  {
    hide Plug, Compose, Lift, PathNodes, PathApart;
    ComposeNodes(inner, base);
    PlugNodes(inner, u.right);
    ApartParts(u);
    LiftNodes(base, Plug(inner, u.right));
  }

  lemma LiftNodes(base: Path<Ptr>, t: Shape<Ptr>)
    requires !base.Top?
    ensures base.node in PathNodes(base) && Nodes(Lift(base, t)) <= PathNodes(base) + Nodes(t)
  {}

  /** The node above the hole is the node to be deleted only when there is nothing in between. */
  lemma TempIsRight(inner: Path<Ptr>, base: Path<Ptr>, t: Shape<Ptr>)
    requires !base.Top? && base.node !in PathNodes(inner)
    ensures Compose(inner, base).node == base.node <==> inner.Top?
  {
    if !inner.Top? { assert inner.node in PathNodes(inner); }
  }

  ghost predicate AboveIn(q: Path<Ptr>, m: Memory) {
    q.Top? || q.node in m
  }

  /** What taking a node's place finds and needs: the structs around the node differ. */
  lemma PlaceFacts(m: Memory, p: Path<Ptr>, t: Shape<Ptr>, s: Ptr, root: Ptr)
    requires t.Fork? && At(m, p, t, t.node, s, root)
    ensures var x := t.node;
            && x in m && x != s
            && m[x].left == PtrOf(t.left, s) && m[x].right == PtrOf(t.right, s)
            && (t.left.Fork? ==> t.left.node in m && t.left.node != x && t.left.node != s)
            && (t.right.Fork? ==> t.right.node in m && t.right.node != x && t.right.node != s)
            && (t.left.Fork? && t.right.Fork? ==> t.left.node != t.right.node)
            && (x == root <==> p.Top?)
            && (!p.Top? ==> && p.node in m && m[x].parent == p.node && p.node != x && p.node != s
                            && (t.left.Fork? ==> p.node != t.left.node) && (t.right.Fork? ==> p.node != t.right.node)
                            && (x == m[p.node].left <==> p.InLeft?) && (x == m[p.node].right <==> p.InRight?))
  {
    RepParts(m, t, t.node, s);
    ApartParts(t);
    NodesOf(t.left); NodesOf(t.right);
    RepIs(m, t.left, m[t.node].left, s);
    RepIs(m, t.right, m[t.node].right, s);
    AtRoot(m, p, t, t.node, s, root);
    if !p.Top? {
      assert p.node in PathNodes(p);
      SiblingElsewhere(m, p, t, s, root);
    }
  }

  /** The structs that taking a node's place writes to. */
  ghost function Touched(p: Path<Ptr>, t: Shape<Ptr>, y: Ptr, s: Ptr): set<Ptr>
    requires t.Fork?
  {
    {t.node, y, s} + RootOf(t.left) + RootOf(t.right) + Above(p)
  }

  lemma TouchedApart(p: Path<Ptr>, t: Shape<Ptr>, y: Ptr, s: Ptr)
    requires t.Fork? && Separate(p, t, s) && y !in Nodes(t) && y !in PathNodes(p)
    ensures (Nodes(t.left) - RootOf(t.left)) !! Touched(p, t, y, s)
    ensures (Nodes(t.right) - RootOf(t.right)) !! Touched(p, t, y, s)
    ensures (PathNodes(p) - Above(p)) !! Touched(p, t, y, s)
  {
    ApartParts(t);
  }

  /** The fields left behind by taking a node's place make the substitute stand in its stead. `b`
      is the memory it started from, which may have the new parent in the right child already. */
  lemma PlaceTaken(m: Memory, b: Memory, m': Memory, p: Path<Ptr>, t: Shape<Ptr>, y: Ptr, s: Ptr, root: Ptr)
    requires t.Fork? && At(m, p, t, t.node, s, root) && y in b && y != s && y !in Nodes(t) && y !in PathNodes(p)
    requires b.Keys == m.Keys == m'.Keys
    requires forall x :: x in m && x != s && !(t.right.Fork? && x == t.right.node) ==> b[x] == m[x]
    requires t.right.Fork? && t.right.node in m ==> b[t.right.node] == m[t.right.node].(parent := b[t.right.node].parent)
    requires t.node in b && PlaceLinks(b, m', t.node, y, s, t.node == root)
    ensures At(m', p, Fork(t.left, y, t.red, t.right), y, s, if p.Top? then y else root)
  {
    PlaceFacts(m, p, t, s, root);
    TouchedApart(p, t, y, s);
    assert b[t.node] == m[t.node];
    assert Same(m, m', m.Keys - Touched(p, t, y, s));
    assert Substitutes(m, m', p, t, y);
    SubstituteAt(m, m', p, t, y, s, root);
  }

  // -------------------------------------------------- paths within a subtree

  /** A path inside a subtree continued by the path to the subtree. */
  function Compose<X>(inner: Path<X>, base: Path<X>): Path<X> {
    match inner
    case Top => base
    case InLeft(x, red, r, up) => InLeft(x, red, r, Compose(up, base))
    case InRight(l, x, red, up) => InRight(l, x, red, Compose(up, base))
  }

  lemma {:induction false} ZipTo(m: Memory, inner: Path<Ptr>, base: Path<Ptr>, t: Shape<Ptr>, n: Ptr, s: Ptr, root: Ptr)
    requires At(m, Compose(inner, base), t, n, s, root)
    ensures At(m, base, Plug(inner, t), PtrOf(Plug(inner, t), s), s, root)
    decreases inner
  {
    RepIs(m, t, n, s);
    if !inner.Top? {
      Up(m, Compose(inner, base), t, n, s, root);
      ZipTo(m, inner.up, base, Lift(inner, t), inner.node, s, root);
    }
  }

  lemma {:induction false} UnzipFrom(m: Memory, inner: Path<Ptr>, base: Path<Ptr>, t: Shape<Ptr>, n: Ptr, s: Ptr, root: Ptr)
    requires At(m, base, Plug(inner, t), n, s, root)
    ensures At(m, Compose(inner, base), t, PtrOf(t, s), s, root)
    decreases inner
  {
    if inner.Top? {
      RepIs(m, t, n, s);
    } else {
      UnzipFrom(m, inner.up, base, Lift(inner, t), n, s, root);
      var p, u := Compose(inner.up, base), Lift(inner, t);
      if inner.InLeft? { DownLeft(m, p, u, inner.node, s, root); } else { DownRight(m, p, u, inner.node, s, root); }
      RepIs(m, t, if inner.InLeft? then m[inner.node].left else m[inner.node].right, s);
    }
  }

  /** The path to a node of a tree. */
  lemma {:induction false} FocusOn(p0: Path<Ptr>, t: Shape<Ptr>, x: Ptr) returns (p: Path<Ptr>, u: Shape<Ptr>)
    requires x in Nodes(t)
    ensures Plug(p, u) == Plug(p0, t) && u.Fork? && u.node == x
    decreases t
  {
    if t.node == x {
      p, u := p0, t;
    } else if x in Nodes(t.left) {
      p, u := FocusOn(InLeft(t.node, t.red, t.right, p0), t.left, x);
    } else {
      p, u := FocusOn(InRight(t.left, t.node, t.red, p0), t.right, x);
    }
  }

  lemma {:induction false} ComposeTop(p: Path<Ptr>)
    ensures Compose(p, Top) == p
    decreases p
  {
    if !p.Top? { ComposeTop(p.up); }
  }

  lemma {:induction false} PlugCompose(inner: Path<Ptr>, base: Path<Ptr>, t: Shape<Ptr>)
    ensures Plug(Compose(inner, base), t) == Plug(base, Plug(inner, t))
    decreases inner
  {
    if !inner.Top? { PlugCompose(inner.up, base, Lift(inner, t)); }
  }

  lemma {:induction false} ComposeNodes(inner: Path<Ptr>, base: Path<Ptr>)
    ensures PathNodes(Compose(inner, base)) == PathNodes(inner) + PathNodes(base)
    ensures PathApart(Compose(inner, base)) ==> PathApart(base) && PathNodes(inner) !! PathNodes(base)
    decreases inner
  {
    if !inner.Top? { ComposeNodes(inner.up, base); }
  }

  // ------------------------------------------------------- taking a node out

  /** A node with at most one child is replaced by that child. */
  ghost predicate OnlyChild(t: Shape<Ptr>, u: Shape<Ptr>) {
    t.Fork? && ((t.left == Leaf && u == t.right) || (t.right == Leaf && u == t.left))
  }

  ghost function PtrOf(t: Shape<Ptr>, s: Ptr): Ptr {
    if t.Fork? then t.node else s
  }

  lemma SpliceAt(m: Memory, m': Memory, p: Path<Ptr>, t: Shape<Ptr>, u: Shape<Ptr>, s: Ptr, root: Ptr)
    requires OnlyChild(t, u) && At(m, p, t, t.node, s, root)
    requires p.Top? || p.node in m
    requires Same(Relinked(m, p, PtrOf(u, s)), m', PathNodes(p))
    requires u.Fork? ==> u.node in m && u.node in m' && m'[u.node] == m[u.node].(parent := m'[u.node].parent)
    requires u.Fork? && !p.Top? ==> m'[u.node].parent == p.node
    requires u.Fork? ==> Same(m, m', Nodes(u) - {u.node})
    ensures At(m', p, u, PtrOf(u, s), s, if p.Top? then PtrOf(u, s) else root)
  {
    RepParts(m, t, t.node, s);
    ApartParts(t);
    RepIs(m, u, if t.left == u then m[t.node].left else m[t.node].right, s);
    RelinkPath(m, p, t.node, PtrOf(u, s), s, root);
    RepPathSame(Relinked(m, p, PtrOf(u, s)), m', p, PtrOf(u, s), s, if p.Top? then PtrOf(u, s) else root);
    RepSameButParent(m, m', u, PtrOf(u, s), s);
  }

  /** Struct y takes the place of the root x of a subtree: its links, its colour, its parent and
      its children's parent fields. */
  ghost predicate Substitutes(m: Memory, m': Memory, p: Path<Ptr>, t: Shape<Ptr>, y: Ptr)
    requires t.Fork?
  {
    var x := t.node;
    && x in m && y in m'
    && m'[y].left == m[x].left && m'[y].right == m[x].right && m'[y].parent == m[x].parent && m'[y].red == m[x].red
    && (t.left.Fork? ==> t.left.node in m && t.left.node in m' && m'[t.left.node] == m[t.left.node].(parent := y))
    && (t.right.Fork? ==> t.right.node in m && t.right.node in m' && m'[t.right.node] == m[t.right.node].(parent := y))
    && (!p.Top? ==> p.node in m && p.node in m' && m'[p.node] == Relinked(m, p, y)[p.node])
    && Same(m, m', Nodes(t.left) - RootOf(t.left)) && Same(m, m', Nodes(t.right) - RootOf(t.right))
    && Same(m, m', PathNodes(p) - Above(p))
  }

  lemma SubstituteAt(m: Memory, m': Memory, p: Path<Ptr>, t: Shape<Ptr>, y: Ptr, s: Ptr, root: Ptr)
    requires t.Fork? && At(m, p, t, t.node, s, root) && Substitutes(m, m', p, t, y)
    requires y != s && y !in Nodes(t) && y !in PathNodes(p)
    ensures At(m', p, Fork(t.left, y, t.red, t.right), y, s, if p.Top? then y else root)
  {
    RepParts(m, t, t.node, s);
    ApartParts(t);
    RelinkPath(m, p, t.node, y, s, root);
    RepPathSame(Relinked(m, p, y), m', p, y, s, if p.Top? then y else root);
    RepSameButParent(m, m', t.left, m[t.node].left, s);
    RepSameButParent(m, m', t.right, m[t.node].right, s);
    var t' := Fork(t.left, y, t.red, t.right);
    assert Nodes(t') == Nodes(t.left) + {y} + Nodes(t.right);
  }

  lemma PaintedBlack(p: Path<Ptr>, u: Shape<Ptr>, k: int, whole: bool) returns (h: int)
    requires u.Fork? && (p.Top? || !Black(u))
    requires if whole then p.Top? && RedBlack(u, k) && Black(u) else Deficient(p, u, k)
    ensures RedBlack(Plug(p, Painted(u, false)), h) && Black(Plug(p, Painted(u, false)))
  {
    var k' := if u.red then k + 1 else k;
    assert RedBlack(Painted(u, false), k');
    PlugRedBlack(p, Painted(u, false), k');
    h := HeightAtTop(p, k');
  }

  function Depth<X>(p: Path<X>): nat {
    if p.Top? then 0 else 1 + Depth(p.up)
  }

  ghost function LeftNearPath(p: Path<Ptr>): Path<Ptr>
    requires p.InLeft? && Sibling(p).Fork? && Sibling(p).left.Fork?
  {
    var x := p.right.left;
    InLeft(p.node, p.red, Fork(x.left, x.node, false, Fork(x.right, p.right.node, true, p.right.right)), p.up)
  }

  lemma LeftNearFixed(p: Path<Ptr>, t: Shape<Ptr>, h: int)
    requires p.InLeft? && Deficient(p, t, h) && Sibling(p).Fork? && !Sibling(p).red
    requires Black(Sibling(p).right) && !Black(Sibling(p).left)
    ensures var q := LeftNearPath(p);
            && Deficient(q, t, h) && !Sibling(q).red && !Black(Sibling(q).right)
            && Inorder(Plug(q, t)) == Inorder(Plug(p, t))
  {
    var q := LeftNearPath(p);
    assert RedBlack(Sibling(p).left, h) && RedBlack(Sibling(p).right, h);
    assert RedBlack(Sibling(q).right, h) && RedBlack(Sibling(q), h + 1);
    RotatedOrder(Sibling(p));
    assert Inorder(Sibling(q)) == Inorder(Sibling(p));
    PlugSameOrder(p.up, Lift(q, t), Lift(p, t));
  }

  ghost function LeftFarBlack(p: Path<Ptr>, t: Shape<Ptr>): Shape<Ptr>
    requires p.InLeft? && Sibling(p).Fork? && Sibling(p).right.Fork?
  {
    Fork(t, p.node, false, Fork(p.right.left, p.right.node, p.red, Painted(p.right.right, false)))
  }

  ghost function LeftFarShape(p: Path<Ptr>, t: Shape<Ptr>): Shape<Ptr>
    requires p.InLeft? && Sibling(p).Fork? && Sibling(p).right.Fork?
  {
    Fork(Fork(t, p.node, false, p.right.left), p.right.node, p.red, Painted(p.right.right, false))
  }

  lemma LeftFarFixed(p: Path<Ptr>, t: Shape<Ptr>, h: int)
    requires p.InLeft? && Deficient(p, t, h) && Black(t) && Sibling(p).Fork? && !Sibling(p).red
    requires !Black(Sibling(p).right)
    ensures RedBlack(Plug(p.up, LeftFarShape(p, t)), HeightAtTop(p, h + 1)) && Black(Plug(p.up, LeftFarShape(p, t)))
    ensures Inorder(Plug(p.up, LeftFarShape(p, t))) == Inorder(Plug(p, t))
  {
    var u := LeftFarShape(p, t);
    assert RedBlack(t, h) && RedBlack(Sibling(p).left, h) && RedBlack(Sibling(p).right, h);
    assert RedBlack(u.left, h + 1) && RedBlack(u.right, h + 1);
    assert RedBlack(u, if p.red then h + 1 else h + 2);
    PlugRedBlack(p.up, u, if p.red then h + 1 else h + 2);
    RotatedOrder(LeftFarBlack(p, t));
    assert Inorder(Painted(Sibling(p).right, false)) == Inorder(Sibling(p).right);
    assert Inorder(LeftFarBlack(p, t).right) == Inorder(Sibling(p));
    PlugSameOrder(p.up, u, Lift(p, t));
  }

  ghost function RightNearPath(p: Path<Ptr>): Path<Ptr>
    requires p.InRight? && Sibling(p).Fork? && Sibling(p).right.Fork?
  {
    var x := p.left.right;
    InRight(Fork(Fork(p.left.left, p.left.node, true, x.left), x.node, false, x.right), p.node, p.red, p.up)
  }

  lemma RightNearFixed(p: Path<Ptr>, t: Shape<Ptr>, h: int)
    requires p.InRight? && Deficient(p, t, h) && Sibling(p).Fork? && !Sibling(p).red
    requires Black(Sibling(p).left) && !Black(Sibling(p).right)
    ensures var q := RightNearPath(p);
            && Deficient(q, t, h) && !Sibling(q).red && !Black(Sibling(q).left)
            && Inorder(Plug(q, t)) == Inorder(Plug(p, t))
  {
    var q := RightNearPath(p);
    assert RedBlack(Sibling(p).right, h) && RedBlack(Sibling(p).left, h);
    assert RedBlack(Sibling(q).left, h) && RedBlack(Sibling(q), h + 1);
    RotatedOrder(Sibling(p));
    assert Inorder(Sibling(q)) == Inorder(Sibling(p));
    PlugSameOrder(p.up, Lift(q, t), Lift(p, t));
  }

  ghost function RightFarBlack(p: Path<Ptr>, t: Shape<Ptr>): Shape<Ptr>
    requires p.InRight? && Sibling(p).Fork? && Sibling(p).left.Fork?
  {
    Fork(Fork(Painted(p.left.left, false), p.left.node, p.red, p.left.right), p.node, false, t)
  }

  ghost function RightFarShape(p: Path<Ptr>, t: Shape<Ptr>): Shape<Ptr>
    requires p.InRight? && Sibling(p).Fork? && Sibling(p).left.Fork?
  {
    Fork(Painted(p.left.left, false), p.left.node, p.red, Fork(p.left.right, p.node, false, t))
  }

  lemma RightFarFixed(p: Path<Ptr>, t: Shape<Ptr>, h: int)
    requires p.InRight? && Deficient(p, t, h) && Black(t) && Sibling(p).Fork? && !Sibling(p).red
    requires !Black(Sibling(p).left)
    ensures RedBlack(Plug(p.up, RightFarShape(p, t)), HeightAtTop(p, h + 1)) && Black(Plug(p.up, RightFarShape(p, t)))
    ensures Inorder(Plug(p.up, RightFarShape(p, t))) == Inorder(Plug(p, t))
  {
    var u := RightFarShape(p, t);
    assert RedBlack(t, h) && RedBlack(Sibling(p).right, h) && RedBlack(Sibling(p).left, h);
    assert RedBlack(u.right, h + 1) && RedBlack(u.left, h + 1);
    assert RedBlack(u, if p.red then h + 1 else h + 2);
    PlugRedBlack(p.up, u, if p.red then h + 1 else h + 2);
    RotatedOrder(RightFarBlack(p, t));
    assert Inorder(Painted(Sibling(p).left, false)) == Inorder(Sibling(p).left);
    assert Inorder(RightFarBlack(p, t).left) == Inorder(Sibling(p));
    PlugSameOrder(p.up, u, Lift(p, t));
  }

  /** What the fixing loop of a deletion keeps: the ways down through the focus meet one black node
      fewer than all others; below the focus the rules hold, except that its root may be red with
      a red child. */
  ghost predicate Deficient(p: Path<Ptr>, t: Shape<Ptr>, h: int) {
    Loose(t, h) && RedBlackPath(p, h + 1)
  }

  ghost predicate Loose(t: Shape<Ptr>, h: int) {
    match t
    case Leaf => h == 0
    case Fork(l, _, red, r) => RedBlack(l, if red then h else h - 1) && RedBlack(r, if red then h else h - 1)
  }

  lemma RepIs(m: Memory, t: Shape<Ptr>, n: Ptr, s: Ptr)
    requires Rep(m, t, n, s)
    ensures n == if t.Fork? then t.node else s
  {}

  /** The sibling of a deficient place is a node, never the sentinel. */
  lemma SiblingIsNode(p: Path<Ptr>, t: Shape<Ptr>, h: int)
    requires Deficient(p, t, h) && !p.Top?
    ensures Sibling(p).Fork? && RedBlack(Sibling(p), h + 1)
    ensures p.red ==> Black(Sibling(p))
  {
    if t.Fork? { HeightNotNegative(t.left, if t.red then h else h - 1); }
  }

  ghost function SiblingReddened(p: Path<Ptr>, t: Shape<Ptr>): Shape<Ptr>
    requires !p.Top? && Sibling(p).Fork?
  {
    Lift(ToSibling(p, t), Painted(Sibling(p), true))
  }

  lemma ReddenedFixed(p: Path<Ptr>, t: Shape<Ptr>, h: int)
    requires !p.Top? && Sibling(p).Fork? && Deficient(p, t, h) && Black(t)
    requires Black(Sibling(p)) && Black(Sibling(p).left) && Black(Sibling(p).right)
    ensures Deficient(p.up, SiblingReddened(p, t), if p.red then h else h + 1)
    ensures Inorder(Plug(p.up, SiblingReddened(p, t))) == Inorder(Plug(p, t))
  {
    assert RedBlack(t, h) && RedBlack(Painted(Sibling(p), true), h);
    PlugSameOrder(p.up, SiblingReddened(p, t), Lift(p, t));
  }

  ghost function LeftRedSiblingPath(p: Path<Ptr>): Path<Ptr>
    requires p.InLeft? && Sibling(p).Fork?
  {
    InLeft(p.node, true, p.right.left, InLeft(p.right.node, false, p.right.right, p.up))
  }

  lemma LeftRedSiblingFixed(p: Path<Ptr>, t: Shape<Ptr>, h: int)
    requires p.InLeft? && Deficient(p, t, h) && !Black(Sibling(p))
    ensures Deficient(LeftRedSiblingPath(p), t, h) && Black(Sibling(LeftRedSiblingPath(p)))
    ensures Inorder(Plug(LeftRedSiblingPath(p), t)) == Inorder(Plug(p, t))
  {
    var q := LeftRedSiblingPath(p);
    assert !p.red;
    assert RedBlackPath(q.up, h + 1) && RedBlackPath(q, h + 1);
    RotatedOrder(Lift(p, t));
    assert Inorder(Lift(q.up, Lift(q, t))) == Inorder(LeftRotated(Lift(p, t)));
    PlugSameOrder(p.up, Lift(q.up, Lift(q, t)), Lift(p, t));
  }

  ghost function RightRedSiblingPath(p: Path<Ptr>): Path<Ptr>
    requires p.InRight? && Sibling(p).Fork?
  {
    InRight(p.left.right, p.node, true, InRight(p.left.left, p.left.node, false, p.up))
  }

  lemma RightRedSiblingFixed(p: Path<Ptr>, t: Shape<Ptr>, h: int)
    requires p.InRight? && Deficient(p, t, h) && !Black(Sibling(p))
    ensures Deficient(RightRedSiblingPath(p), t, h) && Black(Sibling(RightRedSiblingPath(p)))
    ensures Inorder(Plug(RightRedSiblingPath(p), t)) == Inorder(Plug(p, t))
  {
    var q := RightRedSiblingPath(p);
    assert !p.red;
    assert RedBlackPath(q.up, h + 1) && RedBlackPath(q, h + 1);
    RotatedOrder(Lift(p, t));
    assert Inorder(Lift(q.up, Lift(q, t))) == Inorder(RightRotated(Lift(p, t)));
    PlugSameOrder(p.up, Lift(q.up, Lift(q, t)), Lift(p, t));
  }

  /** The path to an empty place of a red-black tree awaits a subtree without black nodes. */
  lemma {:induction false} RedBlackPathTo(q: Path<Ptr>, t: Shape<Ptr>, H: int) returns (h: int)
    requires RedBlack(Plug(q, t), H) && Black(Plug(q, t))
    ensures RedBlack(t, h) && RedBlackPath(q, h) && (UnderRed(q) || q.Top? ==> Black(t))
    decreases q
  {
    if q.Top? {
      h := H;
    } else {
      var k := RedBlackPathTo(q.up, Lift(q, t), H);
      h := if q.red then k else k - 1;
    }
  }

  lemma RoomForLeaf(q: Path<Ptr>, t: Shape<Ptr>, H: int, node: Ptr)
    requires Plug(q, Leaf) == t && RedBlack(t, H) && Black(t)
    ensures RedFocus(q, Fork(Leaf, node, true, Leaf), 0)
  {
    var h := RedBlackPathTo(q, Leaf, H);
  }

  /** The place behind all nodes whose key is not larger. */
  ghost predicate Behind(m: Memory, nodes: seq<Ptr>, i: nat, k: int) {
    && (forall j :: 0 <= j < i && j < |nodes| ==> nodes[j] in m && m[nodes[j]].key <= k)
    && (forall j :: i <= j < |nodes| ==> nodes[j] in m && k < m[nodes[j]].key)
  }

  lemma BehindNone(m: Memory, k: int)
    ensures Behind(m, [], 0, k)
  {}

  lemma BehindStill(m: Memory, m': Memory, nodes: seq<Ptr>, i: nat, k: int)
    requires Behind(m, nodes, i, k) && m'.Keys == m.Keys && forall x :: x in m ==> m'[x].key == m[x].key
    ensures Behind(m', nodes, i, k)
  {}

  lemma InsertedOrder(m: Memory, q: Path<Ptr>, node: Ptr, t: Shape<Ptr>)
    requires Plug(q, Leaf) == t && Ordered(m, Inorder(t)) && node in m && Fits(m, q, m[node].key)
    ensures var i := |Before(q)|; var xs := Inorder(Plug(q, Fork(Leaf, node, true, Leaf)));
            i <= |Inorder(t)| && xs == Inorder(t)[..i] + [node] + Inorder(t)[i..] && Ordered(m, xs)
    ensures Behind(m, Inorder(t), |Before(q)|, m[node].key)
  {
    var a, b := Before(q), After(q);
    InorderPlug(q, Leaf);
    InorderPlug(q, Fork(Leaf, node, true, Leaf));
    assert Inorder(t) == a + b;
    assert Inorder(Fork(Leaf, node, true, Leaf)) == [node];
    OrderedInsert(m, a, node, b);
  }

  /** With its root painted black, the tree obeys all the rules again. */
  lemma BlackRoot(p: Path<Ptr>, t: Shape<Ptr>, k: int) returns (h: int)
    requires RedFocus(p, t, k) && !UnderRed(p)
    ensures var whole := Plug(p, t);
            whole.Fork? && RedBlack(Painted(whole, false), h) && Inorder(Painted(whole, false)) == Inorder(whole)
  {
    PlugIsFork(p, t);
    if p.Top? {
      h := k + 1;
    } else {
      PlugRedBlack(p, t, k);
      h := HeightAtTop(p, k);
    }
  }

  lemma {:induction false} PlugIsFork(p: Path<Ptr>, t: Shape<Ptr>)
    requires t.Fork?
    ensures Plug(p, t).Fork?
    decreases p
  {
    if !p.Top? { PlugIsFork(p.up, Lift(p, t)); }
  }

  /** From the focus back to the whole tree. */
  lemma {:induction false} Zip(m: Memory, p: Path<Ptr>, t: Shape<Ptr>, n: Ptr, s: Ptr, root: Ptr)
    requires At(m, p, t, n, s, root)
    ensures At(m, Top, Plug(p, t), root, s, root)
    decreases p
  {
    if !p.Top? {
      Up(m, p, t, n, s, root);
      Zip(m, p.up, Lift(p, t), p.node, s, root);
    }
  }

  lemma Across(m: Memory, p: Path<Ptr>, t: Shape<Ptr>, n: Ptr, s: Ptr, root: Ptr)
    requires At(m, p, t, n, s, root) && !p.Top?
    ensures p.node in m
    ensures At(m, ToSibling(p, t), Sibling(p), if p.InLeft? then m[p.node].right else m[p.node].left, s, root)
  {
    Up(m, p, t, n, s, root);
    if p.InLeft? { DownRight(m, p.up, Lift(p, t), p.node, s, root); } else { DownLeft(m, p.up, Lift(p, t), p.node, s, root); }
  }

  /** The subtree at the grandparent after a colour flip. */
  ghost function Flipped(p: Path<Ptr>, t: Shape<Ptr>): Shape<Ptr>
    requires !p.Top? && !p.up.Top? && Sibling(p.up).Fork?
  {
    Painted(Lift(ToSibling(p.up, Painted(Lift(p, t), false)), Painted(Sibling(p.up), false)), true)
  }

  lemma FlipFixed(p: Path<Ptr>, t: Shape<Ptr>, h: int)
    requires RedFocus(p, t, h) && !p.Top? && p.red && !p.up.Top? && !Black(Sibling(p.up))
    ensures RedFocus(p.up.up, Flipped(p, t), h + 1)
    ensures Inorder(Plug(p.up.up, Flipped(p, t))) == Inorder(Plug(p, t))
  {
    assert RedBlackPath(p.up, h) && !p.up.red;
    assert RedBlack(Painted(Lift(p, t), false), h + 1);
    assert RedBlack(Painted(Sibling(p.up), false), h + 1);
    PlugSameOrder(p.up.up, Flipped(p, t), Lift(p.up, Lift(p, t)));
  }

  /** The root in the given colour. */
  function Painted(t: Shape<Ptr>, red: bool): (r: Shape<Ptr>)
    requires t.Fork?
    ensures r == t.(red := red)
  {
    Fork(t.left, t.node, red, t.right)
  }

  /** The subtree at the grandparent once it is red and the parent black. */
  ghost function Swapped(p: Path<Ptr>, t: Shape<Ptr>): Shape<Ptr>
    requires !p.Top? && !p.up.Top?
  {
    Painted(Lift(p.up, Painted(Lift(p, t), false)), true)
  }

  /** The path to the focus after the rotation at the grandparent. */
  ghost function LeftOuterPath(p: Path<Ptr>): Path<Ptr>
    requires p.InLeft? && p.up.InLeft?
  {
    InLeft(p.node, false, Fork(p.right, p.up.node, true, p.up.right), p.up.up)
  }

  ghost function RightOuterPath(p: Path<Ptr>): Path<Ptr>
    requires p.InRight? && p.up.InRight?
  {
    InRight(Fork(p.up.left, p.up.node, true, p.left), p.node, false, p.up.up)
  }

  lemma RotatedOrder(t: Shape<Ptr>)
    ensures CanRotateLeft(t) ==> Inorder(LeftRotated(t)) == Inorder(t)
    ensures CanRotateRight(t) ==> Inorder(RightRotated(t)) == Inorder(t)
  {
    if CanRotateLeft(t) {
      assert (Inorder(t.left) + [t.node] + Inorder(t.right.left)) + [t.right.node] + Inorder(t.right.right) ==
             Inorder(t.left) + [t.node] + (Inorder(t.right.left) + [t.right.node] + Inorder(t.right.right));
    }
    if CanRotateRight(t) {
      assert Inorder(t.left.left) + [t.left.node] + (Inorder(t.left.right) + [t.node] + Inorder(t.right)) ==
             (Inorder(t.left.left) + [t.left.node] + Inorder(t.left.right)) + [t.node] + Inorder(t.right);
    }
  }

  lemma OuterOrder(p: Path<Ptr>, p': Path<Ptr>, t: Shape<Ptr>)
    requires !p.Top? && !p.up.Top?
    requires (p.InLeft? && p.up.InLeft? && p' == LeftOuterPath(p)) || (p.InRight? && p.up.InRight? && p' == RightOuterPath(p))
    ensures Inorder(Plug(p', t)) == Inorder(Plug(p, t))
  {
    var g := Swapped(p, t);
    RotatedOrder(g);
    assert Lift(p', t) == if p.InLeft? then RightRotated(g) else LeftRotated(g);
    PlugSameOrder(p.up.up, Lift(p', t), Lift(p.up, Lift(p, t)));
  }

  lemma OuterPathFixed(p: Path<Ptr>, p': Path<Ptr>, t: Shape<Ptr>, h: int)
    requires RedFocus(p, t, h) && !p.Top? && p.red && Black(Sibling(p.up))
    requires (p.InLeft? && p.up.InLeft? && p' == LeftOuterPath(p)) || (p.InRight? && p.up.InRight? && p' == RightOuterPath(p))
    ensures RedFocus(p', t, h) && !UnderRed(p') && Inorder(Plug(p', t)) == Inorder(Plug(p, t))
  {
    OuterOrder(p, p', t);
    assert RedBlackPath(p.up, h) && !p.up.red;
    assert RedBlackPath(p.up.up, h + 1);
    assert RedBlack(Sibling(p'), h) by {
      assert RedBlack(Sibling(p), h) && Black(Sibling(p)) && RedBlack(Sibling(p.up), h);
    }
  }

  /** What the fixing loop of an insertion keeps: the focus is a red node, everything else obeys
      the rules, and only the edge above the focus may join two red nodes. */
  ghost predicate RedFocus(p: Path<Ptr>, t: Shape<Ptr>, h: int) {
    t.Fork? && t.red && RedBlack(t, h) && RedBlackPath(p, h)
  }

  /** A key belongs into the hole: nothing before it is larger, everything after it is. */
  ghost predicate Fits(m: Memory, q: Path<Ptr>, k: int) {
    && (forall i :: 0 <= i < |Before(q)| ==> Before(q)[i] in m && m[Before(q)[i]].key <= k)
    && (forall i :: 0 <= i < |After(q)| ==> After(q)[i] in m && k < m[After(q)[i]].key)
  }

  lemma FitsBelow(m: Memory, q: Path<Ptr>, t: Shape<Ptr>, k: int)
    requires t.Fork? && Ordered(m, Inorder(Plug(q, t))) && Fits(m, q, k)
    ensures t.node in m
    ensures k < m[t.node].key ==> Fits(m, InLeft(t.node, t.red, t.right, q), k)
    ensures k >= m[t.node].key ==> Fits(m, InRight(t.left, t.node, t.red, q), k)
  {
    OrderedChild(m, q, t);
  }

  /** In an ordered tree the left subtree's keys are at most the node's, the right's at least. */
  lemma OrderedChild(m: Memory, q: Path<Ptr>, t: Shape<Ptr>)
    requires t.Fork? && Ordered(m, Inorder(Plug(q, t)))
    ensures t.node in m
    ensures forall i :: 0 <= i < |Inorder(t.left)| ==>
              Inorder(t.left)[i] in m && m[Inorder(t.left)[i]].key <= m[t.node].key
    ensures forall i :: 0 <= i < |Inorder(t.right)| ==>
              Inorder(t.right)[i] in m && m[t.node].key <= m[Inorder(t.right)[i]].key
  {
    InorderPlug(q, t);
    assert Inorder(t) == Inorder(t.left) + [t.node] + Inorder(t.right);
    OrderedAround(m, Before(q), Inorder(t.left), t.node, Inorder(t.right), After(q));
  }

  lemma OrderedAround(m: Memory, a: seq<Ptr>, l: seq<Ptr>, x: Ptr, r: seq<Ptr>, z: seq<Ptr>)
    requires Ordered(m, a + (l + [x] + r) + z)
    ensures x in m
    ensures forall i :: 0 <= i < |l| ==> l[i] in m && m[l[i]].key <= m[x].key
    ensures forall i :: 0 <= i < |r| ==> r[i] in m && m[x].key <= m[r[i]].key
  {
    var w := a + (l + [x] + r) + z;
    assert w[|a| + |l|] == x;
    forall i | 0 <= i < |l| ensures l[i] in m && m[l[i]].key <= m[x].key {
      assert w[|a| + i] == l[i];
    }
    forall i | 0 <= i < |r| ensures r[i] in m && m[x].key <= m[r[i]].key {
      assert w[|a| + |l| + 1 + i] == r[i];
    }
  }

  /** The memory after a node with at most one child has been taken out under its parent. */
  ghost function Unlinked(m: Memory, p: Path<Ptr>, node: Ptr, temp: Ptr): Memory
    requires !p.Top? && p.node in m && node in m && temp in m
  {
    var m1 := Relinked(m, p, temp);
    var m2 := m1[temp := m1[temp].(parent := p.node)];
    m2[node := Node(NULL, NULL, NULL, 0, m2[node].red)]
  }

  lemma UnlinkedAt(m: Memory, p: Path<Ptr>, t: Shape<Ptr>, u: Shape<Ptr>, s: Ptr, root: Ptr)
    requires OnlyChild(t, u) && !p.Top? && At(m, p, t, t.node, s, root) && s in m && p.node in m
    ensures var temp := PtrOf(u, s);
            && t.node in m && temp in m && temp != t.node && temp != p.node && t.node != p.node && t.node != s && p.node != s
            && At(Unlinked(m, p, t.node, temp), p, u, temp, s, root)
  {
    hide RepPath;
    RepParts(m, t, t.node, s);
    ApartParts(t);
    NodesOf(u);
    assert p.node in PathNodes(p);
    SpliceAt(m, Unlinked(m, p, t.node, PtrOf(u, s)), p, t, u, s, root);
  }

  // --------------------------------------------------------------- the object

  class RbTree {
    var mem: Memory
    var root: Ptr
    const sentinel: Ptr
    ghost var shape: Shape<Ptr>
    ghost var height: int

    constructor (mem: Memory, node: Ptr)
      requires node in mem && node != NULL
      ensures Valid() && Content() == [] && sentinel == node
    {
      this.mem := mem[node := Node(NULL, NULL, NULL, 0, false)];
      root, sentinel, shape, height := node, node, Leaf, 0;
    }

    /** The memory spells out a red-black search tree. */
    ghost predicate Valid()
      reads this
    {
      && sentinel in mem && !mem[sentinel].red
      && At(mem, Top, shape, root, sentinel, root)
      && RedBlack(shape, height) && Black(shape)
      && Ordered(mem, Inorder(shape))
    }

    /** The nodes in order. */
    ghost function Content(): seq<Ptr>
      reads this
    {
      Inorder(shape)
    }

    /** Whatever has been inserted and deleted, no path is longer than 2 * log2(n + 1). */
    lemma BoundedHeight()
      requires Valid()
      ensures Pow2((Height(shape) + 1) / 2) <= |Content()| + 1
    {
      HeightBound(shape, height);
    }

    /** Only links and colours change: the structs stay, with their keys, and the sentinel is left
        alone. */
    twostate predicate KeysKept()
      reads this
    {
      && mem.Keys == old(mem.Keys)
      && (forall x :: x in mem ==> mem[x].key == old(mem)[x].key)
      && (sentinel in mem ==> mem[sentinel] == old(mem)[sentinel])
    }

    /** `rbtree_left_rotate`, field by field. */
    method LeftRotateLinks(node: Ptr)
      requires node in mem && node != sentinel
      requires var y := mem[node].right; y in mem && y != node && y != sentinel
      requires var y := mem[node].right; var b := mem[y].left;
               b != sentinel ==> b in mem && b != node && b != y
      requires var y := mem[node].right; var b := mem[y].left; var q := mem[node].parent;
               node != root ==> && q in mem && q != node && q != y && q != sentinel && (b != sentinel ==> q != b)
                                && (node == mem[q].left || node == mem[q].right) && mem[q].left != mem[q].right
      modifies this`mem, this`root
      ensures mem.Keys == old(mem.Keys)
      ensures var x, y := node, old(mem)[node].right; var b := old(mem)[y].left; var q := old(mem)[x].parent;
              && mem[x] == old(mem)[x].(right := b, parent := y)
              && mem[y] == old(mem)[y].(left := x, parent := q)
              && (b != sentinel ==> mem[b] == old(mem)[b].(parent := x))
              && root == (if x == old(root) then y else old(root))
              && (x != old(root) ==>
                    mem[q] == if old(mem)[q].left == x then old(mem)[q].(left := y) else old(mem)[q].(right := y))
              && (forall z :: z in old(mem) && z != x && z != y && (z != b || b == sentinel) && (z != q || x == old(root))
                    ==> mem[z] == old(mem)[z])
    {
      var temp := mem[node].right;
      mem := mem[node := mem[node].(right := mem[temp].left)];
      if mem[temp].left != sentinel {
        mem := mem[mem[temp].left := mem[mem[temp].left].(parent := node)];
      }
      mem := mem[temp := mem[temp].(parent := mem[node].parent)];
      if node == root {
        root := temp;
      } else if node == mem[mem[node].parent].left {
        mem := mem[mem[node].parent := mem[mem[node].parent].(left := temp)];
      } else {
        mem := mem[mem[node].parent := mem[mem[node].parent].(right := temp)];
      }
      mem := mem[temp := mem[temp].(left := node)];
      mem := mem[node := mem[node].(parent := temp)];
    }

    /** `rbtree_left_rotate`: the tree around it stays, the two nodes change places. */
    method LeftRotate(node: Ptr, ghost p: Path<Ptr>, ghost t: Shape<Ptr>)
      requires CanRotateLeft(t) && At(mem, p, t, node, sentinel, root)
      modifies this`mem, this`root
      ensures At(mem, p, LeftRotated(t), t.right.node, sentinel, root) && KeysKept()
    {
      ghost var m := mem;
      LeftRotateFacts(mem, p, t, sentinel, root);
      LeftRotateLinks(node);
      LeftRotateAt(m, mem, p, t, sentinel, old(root));
    }

    /** `rbtree_right_rotate`, field by field. */
    method RightRotateLinks(node: Ptr)
      requires node in mem && node != sentinel
      requires var y := mem[node].left; y in mem && y != node && y != sentinel
      requires var y := mem[node].left; var b := mem[y].right;
               b != sentinel ==> b in mem && b != node && b != y
      requires var y := mem[node].left; var b := mem[y].right; var q := mem[node].parent;
               node != root ==> && q in mem && q != node && q != y && q != sentinel && (b != sentinel ==> q != b)
                                && (node == mem[q].left || node == mem[q].right) && mem[q].left != mem[q].right
      modifies this`mem, this`root
      ensures mem.Keys == old(mem.Keys)
      ensures var x, y := node, old(mem)[node].left; var b := old(mem)[y].right; var q := old(mem)[x].parent;
              && mem[x] == old(mem)[x].(left := b, parent := y)
              && mem[y] == old(mem)[y].(right := x, parent := q)
              && (b != sentinel ==> mem[b] == old(mem)[b].(parent := x))
              && root == (if x == old(root) then y else old(root))
              && (x != old(root) ==>
                    mem[q] == if old(mem)[q].left == x then old(mem)[q].(left := y) else old(mem)[q].(right := y))
              && (forall z :: z in old(mem) && z != x && z != y && (z != b || b == sentinel) && (z != q || x == old(root))
                    ==> mem[z] == old(mem)[z])
    {
      var temp := mem[node].left;
      mem := mem[node := mem[node].(left := mem[temp].right)];
      if mem[temp].right != sentinel {
        mem := mem[mem[temp].right := mem[mem[temp].right].(parent := node)];
      }
      mem := mem[temp := mem[temp].(parent := mem[node].parent)];
      if node == root {
        root := temp;
      } else if node == mem[mem[node].parent].right {
        mem := mem[mem[node].parent := mem[mem[node].parent].(right := temp)];
      } else {
        mem := mem[mem[node].parent := mem[mem[node].parent].(left := temp)];
      }
      mem := mem[temp := mem[temp].(right := node)];
      mem := mem[node := mem[node].(parent := temp)];
    }

    /** `rbtree_right_rotate`: the tree around it stays, the two nodes change places. */
    method RightRotate(node: Ptr, ghost p: Path<Ptr>, ghost t: Shape<Ptr>)
      requires CanRotateRight(t) && At(mem, p, t, node, sentinel, root)
      modifies this`mem, this`root
      ensures At(mem, p, RightRotated(t), t.left.node, sentinel, root) && KeysKept()
    {
      ghost var m := mem;
      RightRotateFacts(mem, p, t, sentinel, root);
      RightRotateLinks(node);
      RightRotateAt(m, mem, p, t, sentinel, old(root));
    }

    /** The way down of `rbtree_insert`: left for a smaller key, right for an equal or larger one,
        until the link in that direction is the sentinel. */
    method Descend(node: Ptr) returns (temp: Ptr, left: bool, ghost q: Path<Ptr>)
      requires Valid() && root != sentinel && node in mem
      ensures !q.Top? && At(mem, q, Leaf, sentinel, sentinel, root) && Plug(q, Leaf) == shape
      ensures q.node == temp && q.InLeft? == left
      ensures Fits(mem, q, mem[node].key)
    {
      temp := root;
      ghost var t := shape;
      q := Top;
      while true
        invariant At(mem, q, t, temp, sentinel, root) && t.Fork? && Plug(q, t) == shape
        invariant Fits(mem, q, mem[node].key)
        decreases t
      {
        DownLeft(mem, q, t, temp, sentinel, root);
        DownRight(mem, q, t, temp, sentinel, root);
        FitsBelow(mem, q, t, mem[node].key);
        left := mem[node].key < mem[temp].key;
        var child;
        if left {
          q, t, child := InLeft(t.node, t.red, t.right, q), t.left, mem[temp].left;
        } else {
          q, t, child := InRight(t.left, t.node, t.red, q), t.right, mem[temp].right;
        }
        if child == sentinel {
          NodesOf(t);
          return;
        }
        temp := child;
      }
    }

    /** `rbtree_red` and `rbtree_black`. */
    method SetRed(n: Ptr, red: bool, ghost p: Path<Ptr>, ghost t: Shape<Ptr>)
      requires t.Fork? && At(mem, p, t, n, sentinel, root)
      modifies this`mem
      ensures At(mem, p, t.(red := red), n, sentinel, root) && KeysKept()
      ensures mem == old(mem)[n := old(mem)[n].(red := red)]
    {
      RecolourAt(mem, p, t, n, sentinel, root, red);
      NodesOf(t);
      mem := mem[n := mem[n].(red := red)];
    }

    /** An inner grandchild is first turned into an outer one by a rotation at its parent. */
    method LeftInner(node: Ptr, ghost p0: Path<Ptr>, ghost t0: Shape<Ptr>, ghost h: int)
        returns (node': Ptr, ghost p: Path<Ptr>, ghost t: Shape<Ptr>)
      requires At(mem, p0, t0, node, sentinel, root) && RedFocus(p0, t0, h) && p0.InRight? && p0.red && p0.up.InLeft?
      modifies this`mem, this`root
      ensures At(mem, p, t, node', sentinel, root) && RedFocus(p, t, h) && p.InLeft? && p.red && p.up == p0.up
      ensures Inorder(Lift(p, t)) == Inorder(Lift(p0, t0)) && KeysKept()
    {
      Up(mem, p0, t0, node, sentinel, root);
      node' := mem[node].parent;
      LeftRotate(node', p0.up, Lift(p0, t0));
      DownLeft(mem, p0.up, LeftRotated(Lift(p0, t0)), t0.node, sentinel, root);
      p, t := InLeft(t0.node, true, t0.right, p0.up), Fork(p0.left, p0.node, true, t0.left);
      RepParts(mem, LeftRotated(Lift(p0, t0)), t0.node, sentinel);
    }

    /** The parent becomes black and the grandparent red. */
    method SwapColours(node: Ptr, ghost p: Path<Ptr>, ghost t: Shape<Ptr>) returns (grand: Ptr)
      requires t.Fork? && !p.Top? && !p.up.Top? && At(mem, p, t, node, sentinel, root)
      modifies this`mem
      ensures grand == p.up.node && At(mem, p.up.up, Swapped(p, t), grand, sentinel, root) && KeysKept()
    {
      Up(mem, p, t, node, sentinel, root);
      SetRed(mem[node].parent, false, p.up, Lift(p, t));
      ghost var u := Painted(Lift(p, t), false);
      Up(mem, p.up, u, p.node, sentinel, root);
      grand := mem[mem[node].parent].parent;
      SetRed(grand, true, p.up.up, Lift(p.up, u));
    }

    /** An outer grandchild under a black uncle: parent and grandparent change colours and the
        grandparent is rotated below the parent. */
    method LeftOuter(node: Ptr, ghost p: Path<Ptr>, ghost t: Shape<Ptr>, ghost h: int) returns (ghost p': Path<Ptr>)
      requires At(mem, p, t, node, sentinel, root) && RedFocus(p, t, h) && p.InLeft? && p.red && p.up.InLeft?
      requires Black(Sibling(p.up))
      modifies this`mem, this`root
      ensures p' == LeftOuterPath(p) && At(mem, p', t, node, sentinel, root) && KeysKept()
    {
      var grand;
      grand := SwapColours(node, p, t);
      ghost var g := Swapped(p, t);
      RightRotate(grand, p.up.up, g);
      DownLeft(mem, p.up.up, RightRotated(g), p.node, sentinel, root);
      RepParts(mem, RightRotated(g), p.node, sentinel);
      p' := LeftOuterPath(p);
    }

    /** An inner grandchild is first turned into an outer one by a rotation at its parent. */
    method RightInner(node: Ptr, ghost p0: Path<Ptr>, ghost t0: Shape<Ptr>, ghost h: int)
        returns (node': Ptr, ghost p: Path<Ptr>, ghost t: Shape<Ptr>)
      requires At(mem, p0, t0, node, sentinel, root) && RedFocus(p0, t0, h) && p0.InLeft? && p0.red && p0.up.InRight?
      modifies this`mem, this`root
      ensures At(mem, p, t, node', sentinel, root) && RedFocus(p, t, h) && p.InRight? && p.red && p.up == p0.up
      ensures Inorder(Lift(p, t)) == Inorder(Lift(p0, t0)) && KeysKept()
    {
      Up(mem, p0, t0, node, sentinel, root);
      node' := mem[node].parent;
      RightRotate(node', p0.up, Lift(p0, t0));
      DownRight(mem, p0.up, RightRotated(Lift(p0, t0)), t0.node, sentinel, root);
      p, t := InRight(t0.left, t0.node, true, p0.up), Fork(t0.right, p0.node, true, p0.right);
      RepParts(mem, RightRotated(Lift(p0, t0)), t0.node, sentinel);
    }

    /** An outer grandchild under a black uncle: parent and grandparent change colours and the
        grandparent is rotated below the parent. */
    method RightOuter(node: Ptr, ghost p: Path<Ptr>, ghost t: Shape<Ptr>, ghost h: int) returns (ghost p': Path<Ptr>)
      requires At(mem, p, t, node, sentinel, root) && RedFocus(p, t, h) && p.InRight? && p.red && p.up.InRight?
      requires Black(Sibling(p.up))
      modifies this`mem, this`root
      ensures p' == RightOuterPath(p) && At(mem, p', t, node, sentinel, root) && KeysKept()
    {
      var grand;
      grand := SwapColours(node, p, t);
      ghost var g := Swapped(p, t);
      LeftRotate(grand, p.up.up, g);
      DownRight(mem, p.up.up, LeftRotated(g), p.node, sentinel, root);
      RepParts(mem, LeftRotated(g), p.node, sentinel);
      p' := RightOuterPath(p);
    }

    /** A red uncle: parent and uncle become black, the grandparent red. */
    method FlipColours(node: Ptr, uncle: Ptr, ghost p: Path<Ptr>, ghost t: Shape<Ptr>) returns (grand: Ptr)
      requires t.Fork? && !p.Top? && !p.up.Top? && Sibling(p.up).Fork? && At(mem, p, t, node, sentinel, root)
      requires uncle == Sibling(p.up).node
      modifies this`mem
      ensures grand == p.up.node && At(mem, p.up.up, Flipped(p, t), grand, sentinel, root) && KeysKept()
    {
      Up(mem, p, t, node, sentinel, root);
      SetRed(mem[node].parent, false, p.up, Lift(p, t));
      ghost var u := Painted(Lift(p, t), false);
      Up(mem, p.up, u, p.node, sentinel, root);
      grand := mem[mem[node].parent].parent;
      Across(mem, p.up, u, p.node, sentinel, root);
      SetRed(uncle, false, ToSibling(p.up, u), Sibling(p.up));
      Up(mem, ToSibling(p.up, u), Painted(Sibling(p.up), false), uncle, sentinel, root);
      SetRed(grand, true, p.up.up, Lift(ToSibling(p.up, u), Painted(Sibling(p.up), false)));
    }

    /** What the loop of an insertion reads about its focus. */
    lemma FocusReads(node: Ptr, p: Path<Ptr>, t: Shape<Ptr>)
      requires t.Fork? && At(mem, p, t, node, sentinel, root)
      ensures node in mem && (node == root <==> p.Top?)
      ensures !p.Top? ==> && mem[node].parent == p.node && p.node in mem && mem[p.node].red == p.red
                          && (node == mem[p.node].left <==> p.InLeft?) && (node == mem[p.node].right <==> p.InRight?)
    {
      AtRoot(mem, p, t, node, sentinel, root);
      RepParts(mem, t, node, sentinel);
      if !p.Top? {
        Up(mem, p, t, node, sentinel, root);
        SiblingElsewhere(mem, p, t, sentinel, root);
      }
    }

    lemma GrandReads(node: Ptr, p: Path<Ptr>, t: Shape<Ptr>)
      requires t.Fork? && !p.Top? && !p.up.Top? && At(mem, p, t, node, sentinel, root)
      requires sentinel in mem && !mem[sentinel].red
      ensures p.node in mem && mem[p.node].parent == p.up.node && p.up.node in mem
      ensures (p.node == mem[p.up.node].left <==> p.up.InLeft?)
      ensures var u := if p.up.InLeft? then mem[p.up.node].right else mem[p.up.node].left;
              && u in mem && (mem[u].red <==> !Black(Sibling(p.up)))
              && (mem[u].red ==> Sibling(p.up).Fork? && u == Sibling(p.up).node)
    {
      Up(mem, p, t, node, sentinel, root);
      FocusReads(p.node, p.up, Lift(p, t));
    }

    /** One round of the loop of `rbtree_insert`, for a focus under a red parent. */
    method InsertRound(node: Ptr, ghost p: Path<Ptr>, ghost t: Shape<Ptr>, ghost h: int)
        returns (node': Ptr, ghost p': Path<Ptr>, ghost t': Shape<Ptr>, ghost h': int)
      requires At(mem, p, t, node, sentinel, root) && RedFocus(p, t, h) && UnderRed(p)
      requires sentinel in mem && !mem[sentinel].red
      modifies this`mem, this`root
      ensures At(mem, p', t', node', sentinel, root) && RedFocus(p', t', h') && KeysKept()
      ensures Inorder(Plug(p', t')) == Inorder(Plug(p, t))
      ensures !UnderRed(p') || p' == p.up.up
    {
      FocusReads(node, p, t);
      GrandReads(node, p, t);
      node', p', t', h' := node, p, t, h;
      if mem[node].parent == mem[mem[mem[node].parent].parent].left {
        var temp := mem[mem[mem[node].parent].parent].right;
        if mem[temp].red {
          FlipFixed(p, t, h);
          node' := FlipColours(node, temp, p, t);
          p', t', h' := p.up.up, Flipped(p, t), h + 1;
        } else {
          if node == mem[mem[node].parent].right {
            node', p', t' := LeftInner(node, p, t, h);
            PlugSameOrder(p.up, Lift(p', t'), Lift(p, t));
          }
          ghost var q := LeftOuter(node', p', t', h);
          OuterPathFixed(p', q, t', h);
          p' := q;
        }
      } else {
        var temp := mem[mem[mem[node].parent].parent].left;
        if mem[temp].red {
          FlipFixed(p, t, h);
          node' := FlipColours(node, temp, p, t);
          p', t', h' := p.up.up, Flipped(p, t), h + 1;
        } else {
          if node == mem[mem[node].parent].left {
            node', p', t' := RightInner(node, p, t, h);
            PlugSameOrder(p.up, Lift(p', t'), Lift(p, t));
          }
          ghost var q := RightOuter(node', p', t', h);
          OuterPathFixed(p', q, t', h);
          p' := q;
        }
      }
    }

    /** The re-balancing of `rbtree_insert`. */
    method InsertFix(node0: Ptr, ghost p0: Path<Ptr>, ghost t0: Shape<Ptr>, ghost h0: int)
        returns (ghost t: Shape<Ptr>, ghost h: int)
      requires At(mem, p0, t0, node0, sentinel, root) && RedFocus(p0, t0, h0)
      requires sentinel in mem && !mem[sentinel].red
      modifies this`mem, this`root
      ensures At(mem, Top, t, root, sentinel, root) && RedBlack(t, h) && Black(t) && KeysKept()
      ensures Inorder(t) == Inorder(Plug(p0, t0))
    {
      hide Plug, Inorder, Rep, RepPath, Separate;
      var node := node0;
      ghost var p, u, k := p0, t0, h0;
      FocusReads(node, p, u);
      while node != root && mem[mem[node].parent].red
        invariant At(mem, p, u, node, sentinel, root) && RedFocus(p, u, k) && KeysKept()
        invariant node in mem && (node == root <==> p.Top?)
        invariant !p.Top? ==> mem[node].parent == p.node && p.node in mem && mem[p.node].red == p.red
        invariant Inorder(Plug(p, u)) == Inorder(Plug(p0, t0))
        decreases UnderRed(p), p
      {
        node, p, u, k := InsertRound(node, p, u, k);
        FocusReads(node, p, u);
      }
      Zip(mem, p, u, node, sentinel, root);
      h := BlackRoot(p, u, k);
      SetRed(root, false, Top, Plug(p, u));
      t := Painted(Plug(p, u), false);
    }

    /** The first node of an empty tree. */
    method InsertFirst(node: Ptr)
      requires Valid() && node in mem && node != sentinel && root == sentinel
      modifies this
      ensures Valid() && Content() == [node] && old(Content()) == []
      ensures mem.Keys == old(mem.Keys) && forall x :: x in mem ==> mem[x].key == old(mem)[x].key
    {
      NodesOf(shape);
      mem := mem[node := mem[node].(parent := NULL, left := sentinel, right := sentinel, red := false)];
      root := node;
      shape, height := Fork(Leaf, node, false, Leaf), 1;
      assert Rep(mem, Leaf, mem[node].left, sentinel) && Rep(mem, Leaf, mem[node].right, sentinel);
    }

    /** The binary tree insert: a new red leaf in the place found for it. */
    method InsertLeaf(node: Ptr) returns (ghost q: Path<Ptr>)
      requires Valid() && node in mem && node != sentinel && node !in Nodes(shape) && root != sentinel
      modifies this`mem
      ensures At(mem, q, Fork(Leaf, node, true, Leaf), node, sentinel, root) && KeysKept()
      ensures Plug(q, Leaf) == shape && Fits(mem, q, mem[node].key)
    {
      ghost var m := mem;
      var temp, left;
      temp, left, q := Descend(node);
      PlugNodes(q, Leaf);
      RelinkPath(mem, q, sentinel, node, sentinel, root);
      assert temp in PathNodes(q);
      if left {
        mem := mem[temp := mem[temp].(left := node)];
      } else {
        mem := mem[temp := mem[temp].(right := node)];
      }
      mem := mem[node := mem[node].(parent := temp, left := sentinel, right := sentinel, red := true)];
      LeafAt(m, mem, q, sentinel, root, node);
    }

    /**
     `rbtree_insert`: the node joins the order behind all nodes whose key is smaller or equal and in
     front of all others, and the tree is a red-black tree again.
     */
    method Insert(node: Ptr) returns (ghost i: nat)
      requires Valid() && node in mem && node != sentinel && node !in Nodes(shape)
      modifies this
      ensures Valid() && i <= |old(Content())|
      ensures Content() == old(Content())[..i] + [node] + old(Content())[i..]
      ensures mem.Keys == old(mem.Keys) && forall x :: x in mem ==> mem[x].key == old(mem)[x].key
      ensures Behind(mem, old(Content()), i, mem[node].key)
    {
      hide Behind, Plug, Inorder, RedFocus, Fits, Rep, RepPath, Separate, RedBlack;
      ghost var nodes := Content();
      if root == sentinel {
        InsertFirst(node);
        i := 0;
        BehindNone(mem, mem[node].key);
        return;
      }
      ghost var q := InsertLeaf(node);
      ghost var leaf := Fork(Leaf, node, true, Leaf);
      i := |Before(q)|;
      InsertedOrder(mem, q, node, shape);
      RoomForLeaf(q, shape, height, node);
      ghost var m := mem;
      ghost var t, h := InsertFix(node, q, leaf, 0);
      BehindStill(m, mem, nodes, i, mem[node].key);
      shape, height := t, h;
    }

    /** A red sibling is rotated above the parent, which leaves a black one. */
    method LeftRedSibling(temp: Ptr, w: Ptr, ghost p: Path<Ptr>, ghost t: Shape<Ptr>)
      requires p.InLeft? && Sibling(p).Fork? && At(mem, p, t, temp, sentinel, root) && w == Sibling(p).node
      requires temp in mem && mem[temp].parent == p.node
      modifies this`mem, this`root
      ensures At(mem, LeftRedSiblingPath(p), t, temp, sentinel, root) && KeysKept()
      ensures temp in mem && mem[temp].parent == p.node
    {
      Up(mem, p, t, temp, sentinel, root);
      Across(mem, p, t, temp, sentinel, root);
      SetRed(w, false, ToSibling(p, t), Sibling(p));
      ghost var sib := Painted(Sibling(p), false);
      Up(mem, ToSibling(p, t), sib, w, sentinel, root);
      SetRed(mem[temp].parent, true, p.up, Lift(ToSibling(p, t), sib));
      ghost var u := Painted(Lift(ToSibling(p, t), sib), true);
      LeftRotate(mem[temp].parent, p.up, u);
      ghost var v := LeftRotated(u);
      DownLeft(mem, p.up, v, w, sentinel, root);
      RepParts(mem, v, w, sentinel);
      DownLeft(mem, InLeft(w, false, v.right, p.up), v.left, p.node, sentinel, root);
      RepIs(mem, t, mem[p.node].left, sentinel);
    }

    /** A black sibling with black children: it becomes red, and the focus moves to the parent. */
    method LeftBlackNephews(temp: Ptr, w: Ptr, ghost p: Path<Ptr>, ghost t: Shape<Ptr>) returns (parent: Ptr)
      requires p.InLeft? && Sibling(p).Fork? && At(mem, p, t, temp, sentinel, root) && w == Sibling(p).node
      requires temp in mem && mem[temp].parent == p.node
      modifies this`mem
      ensures parent == p.node && At(mem, p.up, SiblingReddened(p, t), parent, sentinel, root) && KeysKept()
    {
      Across(mem, p, t, temp, sentinel, root);
      SetRed(w, true, ToSibling(p, t), Sibling(p));
      Up(mem, ToSibling(p, t), Painted(Sibling(p), true), w, sentinel, root);
      parent := mem[temp].parent;
    }

    /** A red sibling is rotated above the parent, which leaves a black one. */
    method RightRedSibling(temp: Ptr, w: Ptr, ghost p: Path<Ptr>, ghost t: Shape<Ptr>)
      requires p.InRight? && Sibling(p).Fork? && At(mem, p, t, temp, sentinel, root) && w == Sibling(p).node
      requires temp in mem && mem[temp].parent == p.node
      modifies this`mem, this`root
      ensures At(mem, RightRedSiblingPath(p), t, temp, sentinel, root) && KeysKept()
      ensures temp in mem && mem[temp].parent == p.node
    {
      Up(mem, p, t, temp, sentinel, root);
      Across(mem, p, t, temp, sentinel, root);
      SetRed(w, false, ToSibling(p, t), Sibling(p));
      ghost var sib := Painted(Sibling(p), false);
      Up(mem, ToSibling(p, t), sib, w, sentinel, root);
      SetRed(mem[temp].parent, true, p.up, Lift(ToSibling(p, t), sib));
      ghost var u := Painted(Lift(ToSibling(p, t), sib), true);
      RightRotate(mem[temp].parent, p.up, u);
      ghost var v := RightRotated(u);
      DownRight(mem, p.up, v, w, sentinel, root);
      RepParts(mem, v, w, sentinel);
      DownRight(mem, InRight(v.left, w, false, p.up), v.right, p.node, sentinel, root);
      RepIs(mem, t, mem[p.node].right, sentinel);
    }

    /** A black sibling with black children: it becomes red, and the focus moves to the parent. */
    method RightBlackNephews(temp: Ptr, w: Ptr, ghost p: Path<Ptr>, ghost t: Shape<Ptr>) returns (parent: Ptr)
      requires p.InRight? && Sibling(p).Fork? && At(mem, p, t, temp, sentinel, root) && w == Sibling(p).node
      requires temp in mem && mem[temp].parent == p.node
      modifies this`mem
      ensures parent == p.node && At(mem, p.up, SiblingReddened(p, t), parent, sentinel, root) && KeysKept()
    {
      Across(mem, p, t, temp, sentinel, root);
      SetRed(w, true, ToSibling(p, t), Sibling(p));
      Up(mem, ToSibling(p, t), Painted(Sibling(p), true), w, sentinel, root);
      parent := mem[temp].parent;
    }

    /** A black far nephew and a red near one: the near one is rotated above the sibling. */
    method LeftNearNephew(temp: Ptr, w: Ptr, ghost p: Path<Ptr>, ghost t: Shape<Ptr>)
      requires p.InLeft? && Sibling(p).Fork? && !Sibling(p).red && Sibling(p).left.Fork?
      requires At(mem, p, t, temp, sentinel, root) && w == Sibling(p).node
      requires temp in mem && mem[temp].parent == p.node
      modifies this`mem, this`root
      ensures At(mem, LeftNearPath(p), t, temp, sentinel, root) && KeysKept()
      ensures temp in mem && mem[temp].parent == p.node
    {
      ghost var sp, sib := ToSibling(p, t), Sibling(p);
      Across(mem, p, t, temp, sentinel, root);
      RepIs(mem, sib, w, sentinel);
      DownLeft(mem, sp, sib, w, sentinel, root);
      RepParts(mem, sib, w, sentinel);
      ghost var np := InLeft(w, false, sib.right, sp);
      SetRed(mem[w].left, false, np, sib.left);
      Up(mem, np, Painted(sib.left, false), sib.left.node, sentinel, root);
      SetRed(w, true, sp, Lift(np, Painted(sib.left, false)));
      ghost var u := Painted(Lift(np, Painted(sib.left, false)), true);
      RightRotate(w, sp, u);
      Across(mem, sp, RightRotated(u), sib.left.node, sentinel, root);
      RepIs(mem, t, mem[p.node].left, sentinel);
      if t.Fork? { Up(mem, LeftNearPath(p), t, temp, sentinel, root); }
    }

    /** A red far nephew: the sibling takes the parent's colour and place, parent and nephew become
        black, and the missing black node is back. */
    method LeftFarNephew(temp: Ptr, w: Ptr, ghost p: Path<Ptr>, ghost t: Shape<Ptr>)
      requires p.InLeft? && Sibling(p).Fork? && Sibling(p).right.Fork?
      requires At(mem, p, t, temp, sentinel, root) && w == Sibling(p).node
      requires temp in mem && mem[temp].parent == p.node
      modifies this`mem, this`root
      ensures At(mem, p.up, LeftFarShape(p, t), w, sentinel, root) && KeysKept()
    {
      ghost var sp, sib := ToSibling(p, t), Sibling(p);
      Up(mem, p, t, temp, sentinel, root);
      Across(mem, p, t, temp, sentinel, root);
      SetRed(w, mem[mem[temp].parent].red, sp, sib);
      Up(mem, sp, Painted(sib, p.red), w, sentinel, root);
      SetRed(mem[temp].parent, false, p.up, Lift(sp, Painted(sib, p.red)));
      ghost var u := Painted(Lift(sp, Painted(sib, p.red)), false);
      LeftBlacken(temp, w, p, t, u);
      LeftRotate(mem[temp].parent, p.up, LeftFarBlack(p, t));
    }

    method LeftBlacken(temp: Ptr, w: Ptr, ghost p: Path<Ptr>, ghost t: Shape<Ptr>, ghost u: Shape<Ptr>)
      requires p.InLeft? && Sibling(p).Fork? && Sibling(p).right.Fork? && w == Sibling(p).node
      requires u == Painted(Lift(ToSibling(p, t), Painted(Sibling(p), p.red)), false)
      requires At(mem, p.up, u, p.node, sentinel, root)
      modifies this`mem
      ensures At(mem, p.up, LeftFarBlack(p, t), p.node, sentinel, root) && KeysKept()
      ensures forall x :: x in mem ==> mem[x].parent == old(mem)[x].parent
    {
      DownRight(mem, p.up, u, p.node, sentinel, root);
      RepParts(mem, u, p.node, sentinel);
      ghost var sp := InRight(u.left, p.node, false, p.up);
      ghost var sib := Painted(Sibling(p), p.red);
      DownRight(mem, sp, sib, w, sentinel, root);
      RepParts(mem, sib, w, sentinel);
      ghost var fp := InRight(sib.left, w, p.red, sp);
      SetRed(mem[w].right, false, fp, sib.right);
      Up(mem, fp, Painted(sib.right, false), sib.right.node, sentinel, root);
      Up(mem, sp, Lift(fp, Painted(sib.right, false)), w, sentinel, root);
    }

    /** A black far nephew and a red near one: the near one is rotated above the sibling. */
    method RightNearNephew(temp: Ptr, w: Ptr, ghost p: Path<Ptr>, ghost t: Shape<Ptr>)
      requires p.InRight? && Sibling(p).Fork? && !Sibling(p).red && Sibling(p).right.Fork?
      requires At(mem, p, t, temp, sentinel, root) && w == Sibling(p).node
      requires temp in mem && mem[temp].parent == p.node
      modifies this`mem, this`root
      ensures At(mem, RightNearPath(p), t, temp, sentinel, root) && KeysKept()
      ensures temp in mem && mem[temp].parent == p.node
    {
      ghost var sp, sib := ToSibling(p, t), Sibling(p);
      Across(mem, p, t, temp, sentinel, root);
      RepIs(mem, sib, w, sentinel);
      DownRight(mem, sp, sib, w, sentinel, root);
      RepParts(mem, sib, w, sentinel);
      ghost var np := InRight(sib.left, w, false, sp);
      SetRed(mem[w].right, false, np, sib.right);
      Up(mem, np, Painted(sib.right, false), sib.right.node, sentinel, root);
      SetRed(w, true, sp, Lift(np, Painted(sib.right, false)));
      ghost var u := Painted(Lift(np, Painted(sib.right, false)), true);
      LeftRotate(w, sp, u);
      Across(mem, sp, LeftRotated(u), sib.right.node, sentinel, root);
      RepIs(mem, t, mem[p.node].right, sentinel);
      if t.Fork? { Up(mem, RightNearPath(p), t, temp, sentinel, root); }
    }

    /** A red far nephew: the sibling takes the parent's colour and place, parent and nephew become
        black, and the missing black node is back. */
    method RightFarNephew(temp: Ptr, w: Ptr, ghost p: Path<Ptr>, ghost t: Shape<Ptr>)
      requires p.InRight? && Sibling(p).Fork? && Sibling(p).left.Fork?
      requires At(mem, p, t, temp, sentinel, root) && w == Sibling(p).node
      requires temp in mem && mem[temp].parent == p.node
      modifies this`mem, this`root
      ensures At(mem, p.up, RightFarShape(p, t), w, sentinel, root) && KeysKept()
    {
      ghost var sp, sib := ToSibling(p, t), Sibling(p);
      Up(mem, p, t, temp, sentinel, root);
      Across(mem, p, t, temp, sentinel, root);
      SetRed(w, mem[mem[temp].parent].red, sp, sib);
      Up(mem, sp, Painted(sib, p.red), w, sentinel, root);
      SetRed(mem[temp].parent, false, p.up, Lift(sp, Painted(sib, p.red)));
      ghost var u := Painted(Lift(sp, Painted(sib, p.red)), false);
      RightBlacken(temp, w, p, t, u);
      RightRotate(mem[temp].parent, p.up, RightFarBlack(p, t));
    }

    method RightBlacken(temp: Ptr, w: Ptr, ghost p: Path<Ptr>, ghost t: Shape<Ptr>, ghost u: Shape<Ptr>)
      requires p.InRight? && Sibling(p).Fork? && Sibling(p).left.Fork? && w == Sibling(p).node
      requires u == Painted(Lift(ToSibling(p, t), Painted(Sibling(p), p.red)), false)
      requires At(mem, p.up, u, p.node, sentinel, root)
      modifies this`mem
      ensures At(mem, p.up, RightFarBlack(p, t), p.node, sentinel, root) && KeysKept()
      ensures forall x :: x in mem ==> mem[x].parent == old(mem)[x].parent
    {
      DownLeft(mem, p.up, u, p.node, sentinel, root);
      RepParts(mem, u, p.node, sentinel);
      ghost var sp := InLeft(p.node, false, u.right, p.up);
      ghost var sib := Painted(Sibling(p), p.red);
      DownLeft(mem, sp, sib, w, sentinel, root);
      RepParts(mem, sib, w, sentinel);
      ghost var fp := InLeft(w, p.red, sib.right, sp);
      SetRed(mem[w].left, false, fp, sib.left);
      Up(mem, fp, Painted(sib.left, false), sib.left.node, sentinel, root);
      Up(mem, sp, Lift(fp, Painted(sib.left, false)), w, sentinel, root);
    }

    /** What a round of the deletion loop reads about the sibling of its focus. */
    lemma SiblingReads(temp: Ptr, p: Path<Ptr>, t: Shape<Ptr>)
      requires !p.Top? && Sibling(p).Fork? && At(mem, p, t, temp, sentinel, root)
      requires sentinel in mem && !mem[sentinel].red
      ensures p.node in mem
      ensures var w := if p.InLeft? then mem[p.node].right else mem[p.node].left;
              && w == Sibling(p).node && w in mem && mem[w].red == Sibling(p).red
              && mem[w].left in mem && mem[mem[w].left].red == !Black(Sibling(p).left)
              && mem[w].right in mem && mem[mem[w].right].red == !Black(Sibling(p).right)
      ensures temp == mem[p.node].left <==> p.InLeft?
    {
      Across(mem, p, t, temp, sentinel, root);
      var w := Sibling(p).node;
      RepParts(mem, Sibling(p), w, sentinel);
      Up(mem, p, t, temp, sentinel, root);
      RepIs(mem, t, temp, sentinel);
      NodesOf(t); NodesOf(Sibling(p));
      assert Nodes(Sibling(p)) <= PathNodes(p);
    }

    /** Between rounds: either the focus is still one black node short, or the tree is whole and
        the focus is its root. */
    ghost predicate Fixing(temp: Ptr, p: Path<Ptr>, t: Shape<Ptr>, h: int, whole: bool)
      reads this
    {
      && At(mem, p, t, temp, sentinel, root)
      && (whole ==> p.Top? && RedBlack(t, h) && Black(t))
      && (!whole ==> Deficient(p, t, h) && (!p.Top? ==> temp in mem && mem[temp].parent == p.node))
    }

    /** One round of the loop of `rbtree_delete` for a focus that is a left child. */
    method DeleteLeft(temp0: Ptr, ghost p0: Path<Ptr>, ghost t0: Shape<Ptr>, ghost h0: int)
        returns (temp: Ptr, ghost p: Path<Ptr>, ghost t: Shape<Ptr>, ghost h: int, ghost whole: bool)
      requires p0.InLeft? && At(mem, p0, t0, temp0, sentinel, root) && Deficient(p0, t0, h0) && Black(t0)
      requires temp0 in mem && mem[temp0].parent == p0.node && sentinel in mem && !mem[sentinel].red
      modifies this`mem, this`root
      ensures Fixing(temp, p, t, h, whole) && KeysKept()
      ensures Inorder(Plug(p, t)) == Inorder(Plug(p0, t0))
      ensures whole || !Black(t) || p == p0.up
    {
      temp, p, t, h, whole := temp0, p0, t0, h0, false;
      SiblingIsNode(p, t, h);
      SiblingReads(temp, p, t);
      var w := mem[mem[temp].parent].right;
      if mem[w].red {
        LeftRedSiblingFixed(p, t, h);
        LeftRedSibling(temp, w, p, t);
        p := LeftRedSiblingPath(p);
        SiblingIsNode(p, t, h);
        SiblingReads(temp, p, t);
        w := mem[mem[temp].parent].right;
      }
      if !mem[mem[w].left].red && !mem[mem[w].right].red {
        ReddenedFixed(p, t, h);
        temp := LeftBlackNephews(temp, w, p, t);
        t, h, p := SiblingReddened(p, t), if p.red then h else h + 1, p.up;
      } else {
        if !mem[mem[w].right].red {
          LeftNearFixed(p, t, h);
          LeftNearNephew(temp, w, p, t);
          p := LeftNearPath(p);
          SiblingReads(temp, p, t);
          w := mem[mem[temp].parent].right;
        }
        LeftFarFixed(p, t, h);
        LeftFarNephew(temp, w, p, t);
        Zip(mem, p.up, LeftFarShape(p, t), w, sentinel, root);
        t, h, p, whole := Plug(p.up, LeftFarShape(p, t)), HeightAtTop(p, h + 1), Top, true;
        temp := root;
      }
    }

    /** One round of the loop of `rbtree_delete` for a focus that is a right child. */
    method DeleteRight(temp0: Ptr, ghost p0: Path<Ptr>, ghost t0: Shape<Ptr>, ghost h0: int)
        returns (temp: Ptr, ghost p: Path<Ptr>, ghost t: Shape<Ptr>, ghost h: int, ghost whole: bool)
      requires p0.InRight? && At(mem, p0, t0, temp0, sentinel, root) && Deficient(p0, t0, h0) && Black(t0)
      requires temp0 in mem && mem[temp0].parent == p0.node && sentinel in mem && !mem[sentinel].red
      modifies this`mem, this`root
      ensures Fixing(temp, p, t, h, whole) && KeysKept()
      ensures Inorder(Plug(p, t)) == Inorder(Plug(p0, t0))
      ensures whole || !Black(t) || p == p0.up
    {
      temp, p, t, h, whole := temp0, p0, t0, h0, false;
      SiblingIsNode(p, t, h);
      SiblingReads(temp, p, t);
      var w := mem[mem[temp].parent].left;
      if mem[w].red {
        RightRedSiblingFixed(p, t, h);
        RightRedSibling(temp, w, p, t);
        p := RightRedSiblingPath(p);
        SiblingIsNode(p, t, h);
        SiblingReads(temp, p, t);
        w := mem[mem[temp].parent].left;
      }
      if !mem[mem[w].left].red && !mem[mem[w].right].red {
        ReddenedFixed(p, t, h);
        temp := RightBlackNephews(temp, w, p, t);
        t, h, p := SiblingReddened(p, t), if p.red then h else h + 1, p.up;
      } else {
        if !mem[mem[w].left].red {
          RightNearFixed(p, t, h);
          RightNearNephew(temp, w, p, t);
          p := RightNearPath(p);
          SiblingReads(temp, p, t);
          w := mem[mem[temp].parent].left;
        }
        RightFarFixed(p, t, h);
        RightFarNephew(temp, w, p, t);
        Zip(mem, p.up, RightFarShape(p, t), w, sentinel, root);
        t, h, p, whole := Plug(p.up, RightFarShape(p, t)), HeightAtTop(p, h + 1), Top, true;
        temp := root;
      }
    }

    /** The fixing loop of `rbtree_delete`, from a focus that is one black node short. */
    method DeleteFix(temp0: Ptr, ghost p0: Path<Ptr>, ghost t0: Shape<Ptr>, ghost h0: int)
        returns (ghost t: Shape<Ptr>, ghost h: int)
      requires At(mem, p0, t0, temp0, sentinel, root) && Deficient(p0, t0, h0)
      requires temp0 in mem && (!p0.Top? ==> mem[temp0].parent == p0.node) && sentinel in mem && !mem[sentinel].red
      modifies this`mem, this`root
      ensures At(mem, Top, t, root, sentinel, root) && RedBlack(t, h) && Black(t) && KeysKept()
      ensures Inorder(t) == Inorder(Plug(p0, t0))
    {
      var temp := temp0;
      ghost var p, u, k, whole := p0, t0, h0, false;
      FocusColour(temp, p, u);
      while temp != root && !mem[temp].red
        invariant Fixing(temp, p, u, k, whole) && KeysKept()
        invariant temp in mem && mem[temp].red == !Black(u) && (temp == root <==> p.Top?)
        invariant Inorder(Plug(p, u)) == Inorder(Plug(p0, t0))
        decreases if whole || !Black(u) then 0 else 1 + Depth(p)
      {
        SiblingIsNode(p, u, k);
        SiblingReads(temp, p, u);
        if temp == mem[mem[temp].parent].left {
          temp, p, u, k, whole := DeleteLeft(temp, p, u, k);
        } else {
          temp, p, u, k, whole := DeleteRight(temp, p, u, k);
        }
        FocusColour(temp, p, u);
      }
      t, h := Blacken(temp, p, u, k, whole);
    }

    lemma FocusColour(temp: Ptr, p: Path<Ptr>, t: Shape<Ptr>)
      requires At(mem, p, t, temp, sentinel, root) && sentinel in mem && !mem[sentinel].red
      ensures temp in mem && mem[temp].red == !Black(t) && (temp == root <==> p.Top?)
    {
      AtRoot(mem, p, t, temp, sentinel, root);
      RepIs(mem, t, temp, sentinel);
    }

    /** `rbtree_black(temp)` at the end of the loop. */
    method Blacken(temp: Ptr, ghost p: Path<Ptr>, ghost u: Shape<Ptr>, ghost k: int, ghost whole: bool)
        returns (ghost t: Shape<Ptr>, ghost h: int)
      requires Fixing(temp, p, u, k, whole) && sentinel in mem && !mem[sentinel].red
      requires p.Top? || !Black(u)
      modifies this`mem
      ensures At(mem, Top, t, root, sentinel, root) && RedBlack(t, h) && Black(t) && KeysKept()
      ensures Inorder(t) == Inorder(Plug(p, u))
    {
      FocusColour(temp, p, u);
      if u.Fork? {
        RecolourAt(mem, p, u, temp, sentinel, root, false);
        NodesOf(u);
      }
      mem := mem[temp := mem[temp].(red := false)];
      if u.Leaf? {
        assert mem == old(mem);
        t, h := u, k;
      } else {
        Zip(mem, p, Painted(u, false), temp, sentinel, root);
        t := Plug(p, Painted(u, false));
        PlugSameOrder(p, Painted(u, false), u);
        h := PaintedBlack(p, u, k, whole);
      }
    }

    /** `rbtree_node_min`: the leftmost node of a subtree. */
    method NodeMin(start: Ptr, ghost base: Path<Ptr>, ghost t: Shape<Ptr>)
        returns (node: Ptr, ghost inner: Path<Ptr>, ghost u: Shape<Ptr>)
      requires t.Fork? && At(mem, base, t, start, sentinel, root)
      ensures u.Fork? && u.left == Leaf && u.node == node && Plug(inner, u) == t
      ensures At(mem, Compose(inner, base), u, node, sentinel, root)
      ensures Before(inner) == [] && Inorder(t) != [] && node == Inorder(t)[0]
    {
      node, inner, u := start, Top, t;
      RepIs(mem, t, start, sentinel);
      while mem[node].left != sentinel
        invariant u.Fork? && u.node == node && node in mem && Plug(inner, u) == t && Before(inner) == []
        invariant At(mem, Compose(inner, base), u, node, sentinel, root)
        decreases u
      {
        DownLeft(mem, Compose(inner, base), u, node, sentinel, root);
        RepIs(mem, u.left, mem[node].left, sentinel);
        inner, u := InLeft(u.node, u.red, u.right, inner), u.left;
        node := mem[node].left;
      }
      DownLeft(mem, Compose(inner, base), u, node, sentinel, root);
      NodesOf(u.left);
      RepIs(mem, u.left, mem[node].left, sentinel);
      InorderPlug(inner, u);
    }

    /** `rbtree_min`: NULL for an empty tree, else the first node in order, whose key no other key
        is below. */
    method Min() returns (node: Ptr)
      requires Valid()
      ensures Content() == [] ==> node == NULL
      ensures Content() != [] ==> node == Content()[0] && forall x :: x in Content() ==> mem[node].key <= mem[x].key
    {
      NodesOf(shape);
      if root == sentinel { return NULL; }
      ghost var inner, u;
      node, inner, u := NodeMin(root, Top, shape);
    }

    /** The keys of all structs but one are as before. */
    twostate predicate KeysKeptBut(node: Ptr)
      reads this
    {
      && mem.Keys == old(mem.Keys)
      && (forall x :: x in mem && x != node ==> mem[x].key == old(mem)[x].key)
      && (sentinel in mem ==> !mem[sentinel].red)
    }

    /** `rbtree_delete` of the root when it has at most one child. */
    method DeleteRoot(node: Ptr, temp: Ptr, ghost t: Shape<Ptr>, ghost u: Shape<Ptr>)
      requires OnlyChild(t, u) && At(mem, Top, t, node, sentinel, root) && sentinel in mem && !mem[sentinel].red
      requires temp == PtrOf(u, sentinel)
      modifies this`mem, this`root
      ensures At(mem, Top, if u.Fork? then Painted(u, false) else u, root, sentinel, root) && KeysKeptBut(node)
    {
      ghost var m := mem;
      RepParts(mem, t, node, sentinel);
      ApartParts(t);
      NodesOf(u);
      root := temp;
      mem := mem[temp := mem[temp].(red := false)];
      mem := mem[node := Node(NULL, NULL, NULL, 0, mem[node].red)];
      SpliceAt(m, mem[temp := m[temp]], Top, t, u, sentinel, node);
      if u.Fork? {
        RecolourAt(mem[temp := m[temp]], Top, u, temp, sentinel, root, false);
        assert mem[temp := m[temp]][temp := m[temp].(red := false)] == mem;
      } else {
        assert Rep(mem, u, root, sentinel);
      }
    }

    /** The unlinking of a node with at most one child below the root. */
    method Unlink(node: Ptr, temp: Ptr, ghost p: Path<Ptr>, ghost t: Shape<Ptr>, ghost u: Shape<Ptr>)
      requires OnlyChild(t, u) && !p.Top? && At(mem, p, t, node, sentinel, root) && sentinel in mem && !mem[sentinel].red
      requires temp == PtrOf(u, sentinel)
      modifies this`mem
      ensures At(mem, p, u, temp, sentinel, root) && KeysKeptBut(node)
      ensures temp in mem && mem[temp].parent == p.node
    {
      hide Rep, RepPath, Separate;
      ghost var m := mem;
      RepIs(mem, t, node, sentinel);
      FocusReads(node, p, t);
      UnlinkedAt(mem, p, t, u, sentinel, root);
      var parent := mem[node].parent;
      if node == mem[parent].left {
        mem := mem[parent := mem[parent].(left := temp)];
      } else {
        mem := mem[parent := mem[parent].(right := temp)];
      }
      mem := mem[temp := mem[temp].(parent := mem[node].parent)];
      mem := mem[node := Node(NULL, NULL, NULL, 0, mem[node].red)];
      assert mem == Unlinked(m, p, node, temp);
    }

    /** The part of `rbtree_delete` where the substitute takes over the links and the colour of the
        node to be deleted, and the structs around it are told, field by field. */
    method TakePlace(node: Ptr, subst: Ptr)
      requires PlaceReady(mem, node, subst, sentinel, node == root)
      modifies this`mem, this`root
      ensures PlaceLinks(old(mem), mem, node, subst, sentinel, node == old(root))
      ensures root == if node == old(root) then subst else old(root)
    {
      mem := mem[subst := mem[subst].(left := mem[node].left, right := mem[node].right, parent := mem[node].parent,
                                      red := mem[node].red)];
      if node == root {
        root := subst;
      } else {
        var q := mem[node].parent;
        if node == mem[q].left {
          mem := mem[q := mem[q].(left := subst)];
        } else {
          mem := mem[q := mem[q].(right := subst)];
        }
      }
      if mem[subst].left != sentinel {
        mem := mem[mem[subst].left := mem[mem[subst].left].(parent := subst)];
      }
      if mem[subst].right != sentinel {
        mem := mem[mem[subst].right := mem[mem[subst].right].(parent := subst)];
      }
      mem := mem[node := Node(NULL, NULL, NULL, 0, mem[node].red)];
    }

    /** The unlinking of the substitute from below: its parent gets its right child. */
    method Detach(node: Ptr, subst: Ptr, temp: Ptr, ghost q: Path<Ptr>, ghost u: Shape<Ptr>)
      requires u.Fork? && u.left == Leaf && u.node == subst && !q.Top? && At(mem, q, u, subst, sentinel, root)
      requires temp == PtrOf(u.right, sentinel) && sentinel in mem
      modifies this`mem
      ensures AboveIn(q, old(mem)) && temp in mem && temp !in PathNodes(q)
      ensures mem == Relinked(old(mem), q, temp)[temp := old(mem)[temp].(parent := if q.node == node then subst else q.node)]
    {
      FocusReads(subst, q, u);
      RepParts(mem, u, subst, sentinel);
      NodesOf(u.right);
      var parent := mem[subst].parent;
      assert parent in PathNodes(q);
      if subst == mem[parent].left {
        mem := mem[parent := mem[parent].(left := temp)];
      } else {
        mem := mem[parent := mem[parent].(right := temp)];
      }
      if mem[subst].parent == node {
        mem := mem[temp := mem[temp].(parent := subst)];
      } else {
        mem := mem[temp := mem[temp].(parent := mem[subst].parent)];
      }
    }

    /** The substitute leaves the bottom of the right subtree. The memory m1 is what the tree would
        be if nothing else were to follow; the actual one may differ from it in the parent field
        of the node's right child, which is about to be set anyway. */
    method DetachBelow(node: Ptr, subst: Ptr, temp: Ptr, ghost p: Path<Ptr>, ghost l: Shape<Ptr>, ghost c: bool,
                       ghost inner: Path<Ptr>, ghost u: Shape<Ptr>) returns (ghost m1: Memory)
      requires u.Fork? && u.left == Leaf && u.node == subst && temp == PtrOf(u.right, sentinel)
      requires At(mem, Compose(inner, InRight(l, node, c, p)), u, subst, sentinel, root)
      requires sentinel in mem
      modifies this`mem
      ensures var t := Fork(l, node, c, Plug(inner, u.right));
              && At(m1, p, t, node, sentinel, root) && mem.Keys == m1.Keys == old(mem).Keys
              && (forall x :: x in m1 && x != sentinel && !(t.right.Fork? && x == t.right.node) ==> mem[x] == m1[x])
              && (t.right.Fork? && t.right.node in m1 ==>
                    mem[t.right.node] == m1[t.right.node].(parent := mem[t.right.node].parent))
      ensures temp in mem && mem[temp].parent == if inner.Top? then subst else inner.node
      ensures forall x :: x in mem ==> mem[x].key == old(mem)[x].key && (x == sentinel ==> mem[x].red == old(mem)[x].red)
    {
      hide Plug, PathNodes, Nodes, RepPath;
      ghost var m0, base := mem, InRight(l, node, c, p);
      Detach(node, subst, temp, Compose(inner, base), u);
      m1 := DetachedMemory(m0, Compose(inner, base), temp);
      DetachedAt(m0, inner, base, u, sentinel, root);
      DetachedIs(m0, m1, mem, inner, base, u, sentinel, root);
    }

    /** The substitute goes from the bottom of the right subtree to the place of the node. */
    method Substitute(node: Ptr, subst: Ptr, temp: Ptr, ghost p: Path<Ptr>, ghost l: Shape<Ptr>, ghost c: bool,
                      ghost inner: Path<Ptr>, ghost u: Shape<Ptr>)
      requires u.Fork? && u.left == Leaf && u.node == subst && temp == PtrOf(u.right, sentinel)
      requires At(mem, Compose(inner, InRight(l, node, c, p)), u, subst, sentinel, root)
      requires sentinel in mem && !mem[sentinel].red
      modifies this`mem, this`root
      ensures At(mem, Compose(inner, InRight(l, subst, c, p)), u.right, temp, sentinel, root) && KeysKeptBut(node)
      ensures temp in mem && mem[temp].parent == if inner.Top? then subst else inner.node
    {
      hide Plug, RepPath;
      ghost var t := Fork(l, node, c, Plug(inner, u.right));
      SubstituteApart(inner, InRight(l, node, c, p), u, sentinel);
      RepIs(mem, u, subst, sentinel);
      ghost var m1 := DetachBelow(node, subst, temp, p, l, c, inner, u);
      TakePlaceAt(node, subst, m1, p, t);
      DownRight(mem, p, Fork(l, subst, c, t.right), subst, sentinel, root);
      UnzipFrom(mem, inner, InRight(l, subst, c, p), u.right, mem[subst].right, sentinel, root);
    }

    method TakePlaceAt(node: Ptr, subst: Ptr, ghost m1: Memory, ghost p: Path<Ptr>, ghost t: Shape<Ptr>)
      requires t.Fork? && At(m1, p, t, node, sentinel, root) && mem.Keys == m1.Keys && sentinel in mem
      requires subst in mem && subst != sentinel && subst !in Nodes(t) && subst !in PathNodes(p)
      requires forall x :: x in m1 && x != sentinel && !(t.right.Fork? && x == t.right.node) ==> mem[x] == m1[x]
      requires t.right.Fork? && t.right.node in m1 ==>
                 mem[t.right.node] == m1[t.right.node].(parent := mem[t.right.node].parent)
      modifies this`mem, this`root
      ensures At(mem, p, Fork(t.left, subst, t.red, t.right), subst, sentinel, root)
      ensures mem.Keys == old(mem.Keys) && mem[sentinel] == old(mem)[sentinel]
      ensures forall x :: x in mem && x != node ==> mem[x].key == old(mem)[x].key
    {
      ghost var b := mem;
      PlaceIsReady(m1, mem, p, t, subst, sentinel, root);
      TakePlace(node, subst);
      PlaceTaken(m1, b, mem, p, t, subst, sentinel, old(root));
      PlaceKeeps(b, mem, node, subst, sentinel, node == old(root));
    }

    /** Deletion of a node with at most one child. */
    method DeleteSingle(node: Ptr, temp: Ptr, ghost p: Path<Ptr>, ghost t: Shape<Ptr>, ghost u: Shape<Ptr>, ghost h: int)
        returns (ghost t': Shape<Ptr>, ghost h': int)
      requires OnlyChild(t, u) && At(mem, p, t, node, sentinel, root) && temp == PtrOf(u, sentinel)
      requires sentinel in mem && !mem[sentinel].red
      requires RedBlack(t, h) && RedBlackPath(p, h) && (UnderRed(p) || p.Top? ==> Black(t))
      modifies this`mem, this`root
      ensures At(mem, Top, t', root, sentinel, root) && RedBlack(t', h') && Black(t') && KeysKeptBut(node)
      ensures Inorder(t') == Inorder(Plug(p, u))
    {
      FocusReads(node, p, t);
      if node == root {
        DeleteRoot(node, temp, t, u);
        t', h' := if u.Fork? then Painted(u, false) else u, if u.Fork? && u.red then h else h - 1;
        return;
      }
      RepParts(mem, t, node, sentinel);
      var red := mem[node].red;
      Unlink(node, temp, p, t, u);
      if red {
        Zip(mem, p, u, temp, sentinel, root);
        PlugRedBlack(p, u, h);
        t', h' := Plug(p, u), HeightAtTop(p, h);
        return;
      }
      t', h' := DeleteFix(temp, p, u, h - 1);
    }

    /** Deletion of a node with two children: its successor takes its place. */
    method DeleteDouble(node: Ptr, ghost p: Path<Ptr>, ghost t: Shape<Ptr>, ghost H: int)
        returns (ghost t': Shape<Ptr>, ghost h': int)
      requires t.Fork? && t.left.Fork? && t.right.Fork? && At(mem, p, t, node, sentinel, root)
      requires sentinel in mem && !mem[sentinel].red
      requires RedBlack(Plug(p, t), H) && Black(Plug(p, t))
      modifies this`mem, this`root
      ensures At(mem, Top, t', root, sentinel, root) && RedBlack(t', h') && Black(t') && KeysKeptBut(node)
      ensures Inorder(t') == Before(p) + Inorder(t.left) + Inorder(t.right) + After(p)
    {
      hide Plug, Inorder, PathNodes, Nodes;
      RepParts(mem, t, node, sentinel);
      DownRight(mem, p, t, node, sentinel, root);
      ghost var base, inner, u := InRight(t.left, t.node, t.red, p), Top, t.right;
      var subst;
      subst, inner, u := NodeMin(mem[node].right, base, t.right);
      ghost var q := Compose(inner, InRight(t.left, subst, t.red, p));
      ghost var h := SuccessorHeights(p, t, inner, u, H);
      SuccessorOrder(p, t, inner, u);
      RepParts(mem, u, subst, sentinel);
      RepIs(mem, u.right, mem[subst].right, sentinel);
      var temp := mem[subst].right;
      var red := mem[subst].red;
      Substitute(node, subst, temp, p, t.left, t.red, inner, u);
      if red {
        Zip(mem, q, u.right, temp, sentinel, root);
        PlugRedBlack(q, u.right, h);
        t', h' := Plug(q, u.right), HeightAtTop(q, h);
        return;
      }
      t', h' := DeleteFix(temp, q, u.right, h - 1);
    }

    /**
     `rbtree_delete`: exactly the node is gone from the order, and the tree is a red-black tree
     again. The deleted node's own struct is reset.
     */
    method Delete(node: Ptr) returns (ghost i: nat)
      requires Valid() && node in Nodes(shape)
      modifies this
      ensures Valid() && i < |old(Content())| && old(Content())[i] == node
      ensures Content() == old(Content())[..i] + old(Content())[i + 1..]
      ensures mem.Keys == old(mem.Keys) && forall x :: x in mem && x != node ==> mem[x].key == old(mem)[x].key
    {
      ghost var p, t := FindNode(node);
      ghost var m := mem;
      ghost var t', h' := DeleteAt(node, p, t);
      i := DeletedTree(m, mem, p, t, shape, t');
      shape, height := t', h';
    }

    method DeleteAt(node: Ptr, ghost p: Path<Ptr>, ghost t: Shape<Ptr>) returns (ghost t': Shape<Ptr>, ghost h': int)
      requires Valid() && t.Fork? && Plug(p, t) == shape && At(mem, p, t, node, sentinel, root)
      requires node in mem && mem[node].left == PtrOf(t.left, sentinel) && mem[node].right == PtrOf(t.right, sentinel)
      requires (mem[node].left == sentinel <==> t.left == Leaf) && (mem[node].right == sentinel <==> t.right == Leaf)
      modifies this`mem, this`root
      ensures At(mem, Top, t', root, sentinel, root) && RedBlack(t', h') && Black(t') && KeysKeptBut(node)
      ensures Inorder(t') == Before(p) + Inorder(t.left) + Inorder(t.right) + After(p)
    {
      SpliceOrder(p, t);
      ghost var h := RedBlackPathTo(p, t, height);
      if mem[node].left == sentinel {
        t', h' := DeleteSingle(node, mem[node].right, p, t, t.right, h);
      } else if mem[node].right == sentinel {
        t', h' := DeleteSingle(node, mem[node].left, p, t, t.left, h);
      } else {
        t', h' := DeleteDouble(node, p, t, height);
      }
    }

    /** The focus on a node of the tree, and what the code finds there. */
    lemma FindNode(node: Ptr) returns (p: Path<Ptr>, t: Shape<Ptr>)
      requires Valid() && node in Nodes(shape)
      ensures t.Fork? && Plug(p, t) == shape && At(mem, p, t, node, sentinel, root) && node in mem
      ensures mem[node].left == PtrOf(t.left, sentinel) && mem[node].right == PtrOf(t.right, sentinel)
      ensures (mem[node].left == sentinel <==> t.left == Leaf) && (mem[node].right == sentinel <==> t.right == Leaf)
    {
      p, t := FocusOn(Top, shape, node);
      ComposeTop(p);
      UnzipFrom(mem, p, Top, t, root, sentinel, root);
      PlaceFacts(mem, p, t, sentinel, root);
    }
  }
}
