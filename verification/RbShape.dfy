/** Shapes of the intrusive red-black trees of mprofile/utils/tree.h.

    A node is an object with the four link fields of RB_ENTRY. The ghost datatypes below
    describe what a heap of such objects looks like: a `Tree` names the nodes of a subtree, a
    `Path` is the way from a position in the tree up to the root (a zipper). All pointer
    reasoning is about a pair (path, subtree), so one step of the algorithms touches one place. */
module RbShape {

  /** RB_ENTRY embedded in an element: `key` stands for the fields the comparator reads and
      `elem` for the element that contains the entry. */
  class Node<K, V> {
    var left: Node?<K, V>
    var right: Node?<K, V>
    var parent: Node?<K, V>
    var red: bool
    const key: K
    const elem: V

    constructor (key: K, elem: V)
      ensures this.key == key && this.elem == elem
      ensures left == null && right == null && parent == null && !red
    {
      this.key, this.elem := key, elem;
      left, right, parent, red := null, null, null, false;
    }
  }

  ghost function Elems<K, V>(s: seq<Node<K, V>>): set<Node<K, V>> {
    set n | n in s
  }

  datatype Tree<K, V> =
    | Leaf
    | Fork(left: Tree<K, V>, red: bool, node: Node<K, V>, right: Tree<K, V>)

  datatype Path<K, V> =
    | Top
    | InLeft(up: Path<K, V>, red: bool, node: Node<K, V>, other: Tree<K, V>)
    | InRight(up: Path<K, V>, red: bool, node: Node<K, V>, other: Tree<K, V>)

  ghost function Nodes<K, V>(t: Tree<K, V>): set<Node<K, V>> {
    match t
    case Leaf => {}
    case Fork(l, _, n, r) => Nodes(l) + {n} + Nodes(r)
  }

  ghost function Around<K, V>(k: Path<K, V>): set<Node<K, V>> {
    if k.Top? then {} else Around(k.up) + {k.node} + Nodes(k.other)
  }

  ghost function Inorder<K, V>(t: Tree<K, V>): seq<Node<K, V>> {
    match t
    case Leaf => []
    case Fork(l, _, n, r) => Inorder(l) + [n] + Inorder(r)
  }

  /** The nodes that precede, and that follow, the position at the end of a path. */
  ghost function Before<K, V>(k: Path<K, V>): seq<Node<K, V>> {
    match k
    case Top => []
    case InLeft(up, _, _, _) => Before(up)
    case InRight(up, _, n, o) => Before(up) + Inorder(o) + [n]
  }

  ghost function After<K, V>(k: Path<K, V>): seq<Node<K, V>> {
    match k
    case Top => []
    case InLeft(up, _, n, o) => [n] + Inorder(o) + After(up)
    case InRight(up, _, _, _) => After(up)
  }

  ghost function Whole<K, V>(k: Path<K, V>, t: Tree<K, V>): seq<Node<K, V>> {
    Before(k) + Inorder(t) + After(k)
  }

  /** The subtree rooted at the last node of a path, once `t` fills the hole. */
  ghost function Refill<K, V>(k: Path<K, V>, t: Tree<K, V>): Tree<K, V>
    requires !k.Top?
  {
    if k.InLeft? then Fork(t, k.red, k.node, k.other) else Fork(k.other, k.red, k.node, t)
  }

  ghost function Plug<K, V>(k: Path<K, V>, t: Tree<K, V>): Tree<K, V>
    decreases k
  {
    if k.Top? then t else Plug(k.up, Refill(k, t))
  }

  ghost function WithRed<K, V>(k: Path<K, V>, red: bool): Path<K, V>
    requires !k.Top?
  {
    match k
    case InLeft(up, _, n, o) => InLeft(up, red, n, o)
    case InRight(up, _, n, o) => InRight(up, red, n, o)
  }

  ghost function WithNode<K, V>(k: Path<K, V>, node: Node<K, V>): Path<K, V>
    requires !k.Top?
  {
    match k
    case InLeft(up, c, _, o) => InLeft(up, c, node, o)
    case InRight(up, c, _, o) => InRight(up, c, node, o)
  }

  ghost function WithOther<K, V>(k: Path<K, V>, other: Tree<K, V>): Path<K, V>
    requires !k.Top?
  {
    match k
    case InLeft(up, c, n, _) => InLeft(up, c, n, other)
    case InRight(up, c, n, _) => InRight(up, c, n, other)
  }

  /** The path `inner` continued by the path `outer`. */
  ghost function Append<K, V>(inner: Path<K, V>, outer: Path<K, V>): Path<K, V>
    decreases inner
  {
    match inner
    case Top => outer
    case InLeft(up, c, n, o) => InLeft(Append(up, outer), c, n, o)
    case InRight(up, c, n, o) => InRight(Append(up, outer), c, n, o)
  }

  ghost predicate AllLeft<K, V>(k: Path<K, V>) {
    !k.Top? ==> k.InLeft? && AllLeft(k.up)
  }

  ghost function Depth<K, V>(k: Path<K, V>): nat {
    if k.Top? then 0 else 1 + Depth(k.up)
  }

  ghost function Height<K, V>(t: Tree<K, V>): nat {
    if t.Leaf? then 0 else 1 + if Height(t.left) > Height(t.right) then Height(t.left) else Height(t.right)
  }

  // ---------------------------------------------------------------------------------
  // Heap shape

  ghost function Ptr<K, V>(t: Tree<K, V>): Node?<K, V> {
    if t.Leaf? then null else t.node
  }

  ghost function Par<K, V>(k: Path<K, V>): Node?<K, V> {
    if k.Top? then null else k.node
  }

  ghost function RootPtr<K, V>(k: Path<K, V>, hole: Node?<K, V>): Node?<K, V> {
    if k.Top? then hole else RootPtr(k.up, k.node)
  }

  /** No node occurs twice. */
  ghost predicate Apart<K, V>(t: Tree<K, V>) {
    t.Fork? ==>
      && Apart(t.left) && Apart(t.right)
      && t.node !in Nodes(t.left) && t.node !in Nodes(t.right)
      && Nodes(t.left) !! Nodes(t.right)
  }

  ghost predicate ApartPath<K, V>(k: Path<K, V>) {
    !k.Top? ==>
      && ApartPath(k.up) && Apart(k.other)
      && k.node !in Around(k.up) && k.node !in Nodes(k.other)
      && Around(k.up) !! Nodes(k.other)
  }

  /** The objects of `t` are linked as `t` says and the topmost one has parent `par`. */
  ghost predicate Stands<K, V>(t: Tree<K, V>, par: Node?<K, V>)
    reads Nodes(t)
  {
    t.Fork? ==>
      && t.node.parent == par && t.node.red == t.red
      && t.node.left == Ptr(t.left) && t.node.right == Ptr(t.right)
      && Stands(t.left, t.node) && Stands(t.right, t.node)
  }

  /** The objects along `k` are linked as `k` says, with `hole` at its end. */
  ghost predicate Hangs<K, V>(k: Path<K, V>, hole: Node?<K, V>)
    reads Around(k)
  {
    !k.Top? ==>
      && k.node.parent == Par(k.up) && k.node.red == k.red
      && k.node.left == (if k.InLeft? then hole else Ptr(k.other))
      && k.node.right == (if k.InLeft? then Ptr(k.other) else hole)
      && Stands(k.other, k.node) && Hangs(k.up, k.node)
  }

  ghost predicate Zip<K, V>(root: Node?<K, V>, k: Path<K, V>, t: Tree<K, V>)
    reads Around(k), Nodes(t)
  {
    && Apart(t) && ApartPath(k) && Around(k) !! Nodes(t)
    && Stands(t, Par(k)) && Hangs(k, Ptr(t))
    && root == RootPtr(k, Ptr(t))
  }

  // ---------------------------------------------------------------------------------
  // Colours

  ghost predicate IsRed<K, V>(t: Tree<K, V>) {
    t.Fork? && t.red
  }

  /** `t` has black height `h` and no red node with a red child. */
  ghost predicate RbOk<K, V>(t: Tree<K, V>, h: nat) {
    match t
    case Leaf => h == 0
    case Fork(l, red, _, r) =>
      if red then RbOk(l, h) && RbOk(r, h) && !IsRed(l) && !IsRed(r)
      else h > 0 && RbOk(l, h - 1) && RbOk(r, h - 1)
  }

  /** A red subtree may not stand at the end of this path (the root counts as such a place). */
  ghost predicate WantsBlack<K, V>(k: Path<K, V>) {
    k.Top? || k.red
  }

  /** The tree around `k` is well coloured once a subtree of black height `h` fills the hole. */
  ghost predicate PathOk<K, V>(k: Path<K, V>, h: nat) {
    !k.Top? ==>
      && RbOk(k.other, h)
      && (k.red ==> !IsRed(k.other) && !WantsBlack(k.up))
      && PathOk(k.up, if k.red then h else h + 1)
  }

  ghost predicate Fits<K, V>(k: Path<K, V>, t: Tree<K, V>, h: nat) {
    RbOk(t, h) && PathOk(k, h) && !(IsRed(t) && WantsBlack(k))
  }

  /** The whole tree is a red-black tree with a black root. */
  ghost predicate IsRedBlack<K, V>(t: Tree<K, V>) {
    !IsRed(t) && exists h: nat :: RbOk(t, h)
  }

  // ---------------------------------------------------------------------------------
  // Moving along a path

  lemma Join<T>(a: seq<T>, b: seq<T>, c: seq<T>, d: seq<T>, e: seq<T>)
    ensures a + (b + c + d) + e == a + b + (c + d + e)
    ensures a + (b + c + d) + e == (a + b + c) + d + e
    ensures a + (b + c + d) + e == a + b + c + d + e
  {
  }

  lemma WholeSplit<K, V>(k: Path<K, V>, t: Tree<K, V>)
    requires t.Fork?
    ensures Whole(k, t) == (Before(k) + Inorder(t.left)) + [t.node] + (Inorder(t.right) + After(k))
  {
    var l, r := Inorder(t.left), Inorder(t.right);
    Join(Before(k), l, [t.node], r, After(k));
    assert Before(k) + l + [t.node] + r + After(k) == (Before(k) + l) + [t.node] + (r + After(k));
  }

  lemma WholeUp<K, V>(k: Path<K, V>, t: Tree<K, V>)
    requires !k.Top?
    ensures Whole(k.up, Refill(k, t)) == Whole(k, t)
    ensures Around(k.up) + Nodes(Refill(k, t)) == Around(k) + Nodes(t)
  {
    var n, o, u := [k.node], Inorder(k.other), k.up;
    if k.InLeft? {
      assert Inorder(Refill(k, t)) == Inorder(t) + n + o;
      Join(Before(u), Inorder(t), n, o, After(u));
    } else {
      assert Inorder(Refill(k, t)) == o + n + Inorder(t);
      Join(Before(u), o, n, Inorder(t), After(u));
    }
  }

  lemma {:induction false} InorderNodes<K, V>(t: Tree<K, V>)
    ensures Elems(Inorder(t)) == Nodes(t)
  {
    if t.Fork? {
      InorderNodes(t.left);
      InorderNodes(t.right);
      assert Elems(Inorder(t)) == Elems(Inorder(t.left)) + {t.node} + Elems(Inorder(t.right));
    }
  }

  /** Moving the focus of the zipper one step up, or down again, describes the same heap. */
  lemma ZipUp<K, V>(root: Node?<K, V>, k: Path<K, V>, t: Tree<K, V>)
    requires !k.Top?
    ensures Zip(root, k, t) <==> Zip(root, k.up, Refill(k, t))
  {
  }

  lemma {:induction false} ZipPlug<K, V>(root: Node?<K, V>, k: Path<K, V>, t: Tree<K, V>)
    requires Zip(root, k, t)
    ensures Zip(root, Top, Plug(k, t))
    ensures Nodes(Plug(k, t)) == Around(k) + Nodes(t)
    ensures Inorder(Plug(k, t)) == Whole(k, t)
    decreases k
  {
    if !k.Top? {
      ZipUp(root, k, t);
      WholeUp(k, t);
      ZipPlug(root, k.up, Refill(k, t));
    }
  }

  /** A rotation regroups the same nodes in the same order, whatever the colours. */
  lemma Regroup<K, V>(a: Tree<K, V>, x: Node<K, V>, b: Tree<K, V>, y: Node<K, V>, d: Tree<K, V>,
                      c0: bool, c1: bool, c2: bool, c3: bool)
    ensures var r := Fork(a, c0, x, Fork(b, c1, y, d)); var l := Fork(Fork(a, c2, x, b), c3, y, d);
            Nodes(r) == Nodes(l) && (Apart(r) <==> Apart(l))
  {
  }

  lemma RegroupInorder<K, V>(a: Tree<K, V>, x: Node<K, V>, b: Tree<K, V>, y: Node<K, V>, d: Tree<K, V>,
                             c0: bool, c1: bool, c2: bool, c3: bool)
    ensures Inorder(Fork(a, c0, x, Fork(b, c1, y, d))) == Inorder(Fork(Fork(a, c2, x, b), c3, y, d))
  {
    Join([], Inorder(a), [x], Inorder(b), [y] + Inorder(d));
    assert Inorder(Fork(b, c1, y, d)) == Inorder(b) + [y] + Inorder(d);
    assert Inorder(Fork(a, c2, x, b)) == Inorder(a) + [x] + Inorder(b);
  }

  lemma {:induction false} PlugFits<K, V>(k: Path<K, V>, t: Tree<K, V>, h: nat)
    requires Fits(k, t, h)
    ensures IsRedBlack(Plug(k, t))
    decreases k
  {
    if !k.Top? {
      PlugFits(k.up, Refill(k, t), if k.red then h else h + 1);
    }
  }

  /** Every node of a tree is reached by a path. */
  lemma {:induction false} Locate<K, V>(root: Node?<K, V>, k: Path<K, V>, t: Tree<K, V>, h: nat, n: Node<K, V>)
    returns (k': Path<K, V>, t': Tree<K, V>, h': nat)
    requires Zip(root, k, t) && Fits(k, t, h) && n in Nodes(t)
    ensures Zip(root, k', t') && Fits(k', t', h') && t'.Fork? && t'.node == n
    ensures Around(k') + Nodes(t') == Around(k) + Nodes(t)
    ensures Whole(k', t') == Whole(k, t)
    decreases t
  {
    if n == t.node {
      k', t', h' := k, t, h;
    } else {
      var k1 := if n in Nodes(t.left) then InLeft(k, t.red, t.node, t.right)
                else InRight(k, t.red, t.node, t.left);
      var t1 := if n in Nodes(t.left) then t.left else t.right;
      assert Refill(k1, t1) == t;
      ZipUp(root, k1, t1);
      WholeUp(k1, t1);
      k', t', h' := Locate(root, k1, t1, if t.red then h else h - 1, n);
    }
  }

  /** The colours along a path do not depend on which node stands where. */
  lemma {:induction false} AppendOk<K, V>(inner: Path<K, V>, k1: Path<K, V>, k2: Path<K, V>, h: nat)
    requires k1.InRight? && k2.InRight? && k2 == WithNode(k1, k2.node)
    ensures PathOk(Append(inner, k1), h) <==> PathOk(Append(inner, k2), h)
    ensures WantsBlack(Append(inner, k1)) <==> WantsBlack(Append(inner, k2))
    decreases inner
  {
    if !inner.Top? {
      AppendOk(inner.up, k1, k2, if inner.red then h else h + 1);
    }
  }

  lemma {:induction false} AppendLeft<K, V>(inner: Path<K, V>, k1: Path<K, V>, k2: Path<K, V>)
    requires AllLeft(inner) && k1.InRight? && k2.InRight? && k2 == WithNode(k1, k2.node)
    ensures Before(Append(inner, k1)) == Before(k1)
    ensures After(Append(inner, k1)) == After(Append(inner, k2))
    decreases inner
  {
    if !inner.Top? {
      AppendLeft(inner.up, k1, k2);
    }
  }

  // ---------------------------------------------------------------------------------
  // Height

  ghost function Pow2(n: nat): nat {
    if n == 0 then 1 else 2 * Pow2(n - 1)
  }

  lemma {:induction false} Pow2Add(a: nat, b: nat)
    ensures Pow2(a + b) == Pow2(a) * Pow2(b)
  {
    if a > 0 {
      Pow2Add(a - 1, b);
    }
  }

  lemma {:induction false} Pow2Monotone(a: nat, b: nat)
    requires a <= b
    ensures 1 <= Pow2(a) <= Pow2(b)
  {
    if b > 0 {
      Pow2Monotone(if a == 0 then 0 else a - 1, b - 1);
    }
  }

  lemma {:induction false} BlackHeight<K, V>(t: Tree<K, V>, h: nat)
    requires RbOk(t, h)
    ensures Pow2(h) <= |Inorder(t)| + 1
    ensures Height(t) <= 2 * h + if IsRed(t) then 1 else 0
  {
    if t.Fork? {
      var h1 := if t.red then h else h - 1;
      BlackHeight(t.left, h1);
      BlackHeight(t.right, h1);
    }
  }

  lemma SquareMonotone(a: nat, b: nat)
    requires a <= b
    ensures a * a <= b * b
  {
  }

  /** The bound of the header comment: a height of at most 2 lg (n + 1). */
  lemma HeightBound<K, V>(t: Tree<K, V>, m: nat)
    requires IsRedBlack(t) && m <= Height(t)
    ensures Pow2(m) <= (|Inorder(t)| + 1) * (|Inorder(t)| + 1)
  {
    var h: nat :| RbOk(t, h);
    var n := |Inorder(t)| + 1;
    BlackHeight(t, h);
    Pow2Monotone(m, h + h);
    Pow2Add(h, h);
    SquareMonotone(Pow2(h), n);
  }
}
