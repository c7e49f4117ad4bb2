/**
 The shapes red-black trees pass through, as values: trees of nodes with their colours, and the
 paths that lead from a place in such a tree up to its root. A path says what the rest of the
 tree looks like around a subtree, which is what a loop that climbs by parent links works on.
 */
module RbShapes {

  import opened Basics

  datatype Shape<X> = Leaf | Fork(left: Shape<X>, node: X, red: bool, right: Shape<X>)

  /** From a hole upwards: the hole is the left or right child of `node`, whose other subtree is
      given, and so on up to the root. */
  datatype Path<X> =
    | Top
    | InLeft(node: X, red: bool, right: Shape<X>, up: Path<X>)
    | InRight(left: Shape<X>, node: X, red: bool, up: Path<X>)

  function Plug<X>(p: Path<X>, t: Shape<X>): Shape<X>
    decreases p
  {
    match p
    case Top => t
    case InLeft(x, red, r, up) => Plug(up, Fork(t, x, red, r))
    case InRight(l, x, red, up) => Plug(up, Fork(l, x, red, t))
  }

  /** One step up: the subtree at the node above the hole. */
  function Lift<X>(p: Path<X>, t: Shape<X>): (r: Shape<X>)
    requires !p.Top?
    ensures r.Fork?
  {
    match p
    case InLeft(x, red, r, _) => Fork(t, x, red, r)
    case InRight(l, x, red, _) => Fork(l, x, red, t)
  }

  /** The other subtree of the node above the hole, and the path to it when the hole holds t. */
  function Sibling<X>(p: Path<X>): Shape<X>
    requires !p.Top?
  {
    if p.InLeft? then p.right else p.left
  }

  function ToSibling<X>(p: Path<X>, t: Shape<X>): Path<X>
    requires !p.Top?
  {
    match p
    case InLeft(x, red, r, up) => InRight(t, x, red, up)
    case InRight(l, x, red, up) => InLeft(x, red, t, up)
  }

  function Inorder<X>(t: Shape<X>): seq<X> {
    match t
    case Leaf => []
    case Fork(l, x, _, r) => Inorder(l) + [x] + Inorder(r)
  }

  /** The nodes before and after the hole, in order. */
  function Before<X>(p: Path<X>): seq<X> {
    match p
    case Top => []
    case InLeft(_, _, _, up) => Before(up)
    case InRight(l, x, _, up) => Before(up) + Inorder(l) + [x]
  }

  function After<X>(p: Path<X>): seq<X> {
    match p
    case Top => []
    case InLeft(x, _, r, up) => [x] + Inorder(r) + After(up)
    case InRight(_, _, _, up) => After(up)
  }

  lemma Regrouped<X>(a: seq<X>, b: seq<X>, x: X, c: seq<X>, d: seq<X>)
    ensures a + (b + [x] + c) + d == a + b + ([x] + c + d) == (a + b + [x]) + c + d
  {}

  lemma {:induction false} InorderPlug<X>(p: Path<X>, t: Shape<X>)
    ensures Inorder(Plug(p, t)) == Before(p) + Inorder(t) + After(p)
    decreases p
  {
    match p
    case Top =>
      assert Before(p) + Inorder(t) + After(p) == Inorder(t);
    case InLeft(x, red, r, up) =>
      InorderPlug(up, Fork(t, x, red, r));
      Regrouped(Before(up), Inorder(t), x, Inorder(r), After(up));
    case InRight(l, x, red, up) =>
      InorderPlug(up, Fork(l, x, red, t));
      Regrouped(Before(up), Inorder(l), x, Inorder(t), After(up));
  }

  lemma PlugSameOrder<X>(p: Path<X>, t: Shape<X>, t': Shape<X>)
    requires Inorder(t) == Inorder(t')
    ensures Inorder(Plug(p, t)) == Inorder(Plug(p, t'))
  {
    InorderPlug(p, t);
    InorderPlug(p, t');
  }

  // ----------------------------------------------------------- disjointness

  function Nodes<X(==)>(t: Shape<X>): set<X> {
    match t
    case Leaf => {}
    case Fork(l, x, _, r) => Nodes(l) + {x} + Nodes(r)
  }

  function PathNodes<X(==)>(p: Path<X>): set<X> {
    match p
    case Top => {}
    case InLeft(x, _, r, up) => {x} + Nodes(r) + PathNodes(up)
    case InRight(l, x, _, up) => Nodes(l) + {x} + PathNodes(up)
  }

  /** No node occurs twice. */
  predicate Apart<X(==)>(t: Shape<X>) {
    match t
    case Leaf => true
    case Fork(l, x, _, r) => x !in Nodes(l) && x !in Nodes(r) && Nodes(l) !! Nodes(r) && Apart(l) && Apart(r)
  }

  predicate PathApart<X(==)>(p: Path<X>) {
    match p
    case Top => true
    case InLeft(x, _, r, up) =>
      x !in Nodes(r) && x !in PathNodes(up) && Nodes(r) !! PathNodes(up) && Apart(r) && PathApart(up)
    case InRight(l, x, _, up) =>
      x !in Nodes(l) && x !in PathNodes(up) && Nodes(l) !! PathNodes(up) && Apart(l) && PathApart(up)
  }

  lemma {:induction false} PlugNodes<X>(p: Path<X>, t: Shape<X>)
    ensures Nodes(Plug(p, t)) == PathNodes(p) + Nodes(t)
    ensures Apart(Plug(p, t)) <==> Apart(t) && PathApart(p) && Nodes(t) !! PathNodes(p)
    decreases p
  {
    match p
    case Top =>
    case InLeft(x, red, r, up) => PlugNodes(up, Fork(t, x, red, r));
    case InRight(l, x, red, up) => PlugNodes(up, Fork(l, x, red, t));
  }

  // ------------------------------------------------------ the red-black rules

  predicate Black<X>(t: Shape<X>) {
    t.Leaf? || !t.red
  }

  /** Every way down meets h black nodes, and no red node has a red child. */
  predicate RedBlack<X>(t: Shape<X>, h: int) {
    match t
    case Leaf => h == 0
    case Fork(l, _, red, r) =>
      var h' := if red then h else h - 1;
      RedBlack(l, h') && RedBlack(r, h') && (red ==> Black(l) && Black(r))
  }

  /** The same of everything around a hole that is to hold a subtree of black height h, the edge
      into the hole excepted. The root is black. */
  predicate RedBlackPath<X>(p: Path<X>, h: int) {
    match p
    case Top => true
    case InLeft(_, red, r, up) =>
      && RedBlack(r, h) && (red ==> Black(r) && !up.Top? && !up.red)
      && RedBlackPath(up, if red then h else h + 1)
    case InRight(l, _, red, up) =>
      && RedBlack(l, h) && (red ==> Black(l) && !up.Top? && !up.red)
      && RedBlackPath(up, if red then h else h + 1)
  }

  /** The node above the hole is red, so the hole needs a black root. */
  predicate UnderRed<X>(p: Path<X>) {
    !p.Top? && p.red
  }

  function HeightAtTop<X>(p: Path<X>, h: int): int {
    if p.Top? then h else HeightAtTop(p.up, if p.red then h else h + 1)
  }

  lemma {:induction false} PlugRedBlack<X>(p: Path<X>, t: Shape<X>, h: int)
    requires RedBlack(t, h) && RedBlackPath(p, h)
    requires UnderRed(p) || p.Top? ==> Black(t)
    ensures RedBlack(Plug(p, t), HeightAtTop(p, h)) && Black(Plug(p, t))
    decreases p
  {
    match p
    case Top =>
    case InLeft(x, red, r, up) => PlugRedBlack(up, Fork(t, x, red, r), if red then h else h + 1);
    case InRight(l, x, red, up) => PlugRedBlack(up, Fork(l, x, red, t), if red then h else h + 1);
  }

  lemma {:induction false} HeightNotNegative<X>(t: Shape<X>, h: int)
    requires RedBlack(t, h)
    ensures h >= 0
  {
    if t.Fork? { HeightNotNegative(t.left, if t.red then h else h - 1); }
  }

  // ----------------------------------------------------------------- balance

  function Height<X>(t: Shape<X>): nat {
    match t
    case Leaf => 0
    case Fork(l, _, _, r) => 1 + if Height(l) > Height(r) then Height(l) else Height(r)
  }

  lemma {:induction false} BlackHeightBounds<X>(t: Shape<X>, h: nat)
    requires RedBlack(t, h)
    ensures Height(t) <= 2 * h + (if Black(t) then 0 else 1)
    ensures Pow2(h) <= |Inorder(t)| + 1
  {
    match t
    case Leaf =>
    case Fork(l, _, red, r) =>
      HeightNotNegative(l, if red then h else h - 1);
      BlackHeightBounds(l, if red then h else h - 1);
      BlackHeightBounds(r, if red then h else h - 1);
  }

  /** A red-black tree of n nodes is at most 2 * log2(n + 1) high. */
  lemma HeightBound<X>(t: Shape<X>, h: int)
    requires RedBlack(t, h) && Black(t)
    ensures Pow2((Height(t) + 1) / 2) <= |Inorder(t)| + 1
  {
    HeightNotNegative(t, h);
    BlackHeightBounds(t, h);
    Pow2Monotone((Height(t) + 1) / 2, h);
  }
}
