/** The red-black trees of mprofile/utils/tree.h: searching, inserting, removing and iterating. */
module RbTree {
  import opened RbShape

  /** What the trees need of a comparator: keys that compare as zero are interchangeable in the order. */
  ghost predicate Ordering<K(!new)>(cmp: (K, K) -> int) {
    && (forall a, b :: cmp(a, b) < 0 <==> cmp(b, a) > 0)
    && (forall a, b, c :: cmp(a, b) < 0 && cmp(b, c) <= 0 ==> cmp(a, c) < 0)
    && (forall a, b, c :: cmp(a, b) <= 0 && cmp(b, c) < 0 ==> cmp(a, c) < 0)
  }

  class RbHead<K(!new), V> {
    var root: Node?<K, V>
    const compare: (K, K) -> int
    ghost var shape: Tree<K, V>
    ghost var nodes: set<Node<K, V>>

    /** RB_INIT. */
    constructor (compare: (K, K) -> int)
      requires Ordering(compare)
      ensures Valid() && this.compare == compare && nodes == {}
    {
      this.compare := compare;
      root, shape, nodes := null, Leaf, {};
      new;
      assert RbOk(shape, 0);
    }

    ghost predicate Ascending(s: seq<Node<K, V>>) {
      forall i, j :: 0 <= i < j < |s| ==> compare(s[i].key, s[j].key) < 0
    }

    /** A red-black tree, ordered by key, whose objects are `nodes`. */
    ghost predicate Valid()
      reads this, nodes
    {
      && Ordering(compare)
      && At(Top, shape) && IsRedBlack(shape)
      && Ascending(Inorder(shape))
    }

    /** The elements in the order of the tree. */
    ghost function Contents(): seq<Node<K, V>>
      reads this
    {
      Inorder(shape)
    }

    ghost predicate HasKey(key: K)
      reads this
    {
      exists n <- nodes :: compare(key, n.key) == 0
    }

    /** The objects of the tree are those of `t` and those around it on the path `k`. */
    ghost predicate At(k: Path<K, V>, t: Tree<K, V>)
      reads this, nodes
    {
      Around(k) + Nodes(t) == nodes && Zip(root, k, t)
    }

    // -------------------------------------------------------------------------------
    // What field updates do to a shape

    twostate lemma Untouched(t: Tree<K, V>)
      requires Nodes(t) <= old(nodes) && forall n <- Nodes(t) :: unchanged(n)
      requires t.Fork? ==> old(Stands(t, t.node.parent))
      ensures t.Fork? ==> Stands(t, t.node.parent)
    {
    }

    /** Only the parent field of the root of `t` has been written. */
    twostate lemma Adopted(t: Tree<K, V>)
      requires Nodes(t) <= old(nodes) && Apart(t) && forall n <- Nodes(t) :: n != t.node ==> unchanged(n)
      requires t.Fork? ==> old(Stands(t, t.node.parent))
      requires t.Fork? ==> unchanged(t.node`left) && unchanged(t.node`right) && unchanged(t.node`red)
      ensures t.Fork? ==> Stands(t, t.node.parent)
    {
      if t.Fork? {
        Untouched(t.left);
        Untouched(t.right);
      }
    }

    /** The link that leads to the end of `k`. */
    ghost function Hole(k: Path<K, V>): Node?<K, V>
      reads this, Around(k)
    {
      match k
      case Top => root
      case InLeft(_, _, n, _) => n.left
      case InRight(_, _, n, _) => n.right
    }

    /** Of the path `k`, only the link at its end has been written. */
    twostate predicate Moved(k: Path<K, V>)
      requires Around(k) <= old(nodes)
      reads this, Around(k)
    {
      && (forall n <- Around(k) :: n != k.node ==> unchanged(n))
      && (!k.Top? ==> root == old(root) && unchanged(k.node`parent) && unchanged(k.node`red))
      && (k.InLeft? ==> unchanged(k.node`right))
      && (k.InRight? ==> unchanged(k.node`left))
    }

    twostate lemma Rehung(k: Path<K, V>)
      requires Around(k) <= old(nodes) && ApartPath(k) && Moved(k) && old(Hangs(k, Hole(k)))
      ensures Hangs(k, Hole(k))
    {
      if !k.Top? {
        Untouched(k.other);
        assert old(Hangs(k.up, k.node));
      }
    }

    /** Redirects the link that leads to `was`: a child field of `par`, or the root. */
    method Relink(par: Node?<K, V>, was: Node<K, V>, now: Node?<K, V>)
      modifies this`root, Opt(par)
      ensures par == null ==> root == now
      ensures par != null ==> root == old(root) && par.parent == old(par.parent) && par.red == old(par.red)
      ensures par != null && was == old(par.left) ==> par.left == now && par.right == old(par.right)
      ensures par != null && was != old(par.left) ==> par.right == now && par.left == old(par.left)
    {
      if par != null {
        if was == par.left {
          par.left := now;
        } else {
          par.right := now;
        }
      } else {
        root := now;
      }
    }

    /** The fields a left rotation writes, read off after the writes. */
    twostate lemma TurnedLeft(t: Tree<K, V>)
      requires t.Fork? && t.right.Fork? && Apart(t) && Nodes(t) <= old(nodes) && old(Stands(t, t.node.parent))
      requires var elm, tmp, b := t.node, t.right.node, t.right.left;
        && elm.right == Ptr(b) && elm.parent == tmp && tmp.left == elm && tmp.parent == old(elm.parent)
        && unchanged(elm`left) && unchanged(elm`red) && unchanged(tmp`right) && unchanged(tmp`red)
        && (b.Fork? ==>
            b.node.parent == elm && unchanged(b.node`left) && unchanged(b.node`right) &&
            unchanged(b.node`red))
        && (forall n <- Nodes(t) :: n != elm && n != tmp && n != Ptr(b) ==> unchanged(n))
      ensures Stands(Fork(Fork(t.left, t.red, t.node, t.right.left), t.right.red, t.right.node, t.right.right),
                     t.right.node.parent)
    {
      var r := t.right;
      assert old(Stands(t.left, t.node)) && old(Stands(r, t.node)) && old(Stands(r.left, r.node)) &&
             old(Stands(r.right, r.node));
      assert Apart(r) && Nodes(r) <= Nodes(t);
      Untouched(t.left);
      Adopted(r.left);
      Untouched(r.right);
      assert Stands(Fork(t.left, t.red, t.node, r.left), r.node);
    }

    twostate lemma TurnedRight(t: Tree<K, V>)
      requires t.Fork? && t.left.Fork? && Apart(t) && Nodes(t) <= old(nodes) && old(Stands(t, t.node.parent))
      requires var elm, tmp, b := t.node, t.left.node, t.left.right;
        && elm.left == Ptr(b) && elm.parent == tmp && tmp.right == elm && tmp.parent == old(elm.parent)
        && unchanged(elm`right) && unchanged(elm`red) && unchanged(tmp`left) && unchanged(tmp`red)
        && (b.Fork? ==>
            b.node.parent == elm && unchanged(b.node`left) && unchanged(b.node`right) &&
            unchanged(b.node`red))
        && (forall n <- Nodes(t) :: n != elm && n != tmp && n != Ptr(b) ==> unchanged(n))
      ensures Stands(Fork(t.left.left, t.left.red, t.left.node, Fork(t.left.right, t.red, t.node, t.right)),
                     t.left.node.parent)
    {
      var l := t.left;
      assert old(Stands(t.right, t.node)) && old(Stands(l, t.node)) && old(Stands(l.left, l.node)) &&
             old(Stands(l.right, l.node));
      assert Apart(l) && Nodes(l) <= Nodes(t);
      Untouched(t.right);
      Adopted(l.right);
      Untouched(l.left);
      assert Stands(Fork(l.right, t.red, t.node, t.right), l.node);
    }

    static function Opt(n: Node?<K, V>): set<Node<K, V>> {
      if n == null then {} else {n}
    }

    /** The writes of RB_ROTATE_LEFT (tree.h:336-349). */
    method SpinLeft(elm: Node<K, V>, tmp: Node<K, V>)
      requires tmp == elm.right && tmp != elm && tmp.left != elm && tmp.left != tmp
      requires elm.parent != elm && elm.parent != tmp && (elm.parent != null ==> elm.parent != tmp.left)
      modifies this`root, elm, tmp, Opt(tmp.left), Opt(elm.parent)
      ensures elm.right == old(tmp.left) && elm.parent == tmp && elm.left == old(elm.left) && elm.red == old(elm.red)
      ensures tmp.left == elm && tmp.parent == old(elm.parent) && tmp.right == old(tmp.right) && tmp.red == old(tmp.red)
      ensures var b := old(tmp.left); b != null ==>
              b.parent == elm && b.left == old(tmp.left.left) && b.right == old(tmp.left.right) &&
                b.red == old(tmp.left.red)
      ensures var p := old(elm.parent); if p == null then root == tmp else
        && root == old(root) && p.parent == old(elm.parent.parent) && p.red == old(elm.parent.red)
        && (if elm == old(elm.parent.left) then p.left == tmp && p.right == old(elm.parent.right)
            else p.right == tmp && p.left == old(elm.parent.left))
    {
      elm.right := tmp.left;
      if tmp.left != null {
        tmp.left.parent := elm;
      }
      tmp.parent := elm.parent;
      Relink(elm.parent, elm, tmp);
      tmp.left := elm;
      elm.parent := tmp;
    }

    /** RB_ROTATE_LEFT at `elm`; `tmp` is its right child, which takes its place. */
    method RotateLeft(elm: Node<K, V>, ghost k: Path<K, V>, ghost t: Tree<K, V>)
      returns (tmp: Node<K, V>)
      requires t.Fork? && t.right.Fork? && t.node == elm && At(k, t)
      modifies this`root, nodes
      ensures tmp == t.right.node
      ensures At(k, Fork(Fork(t.left, t.red, elm, t.right.left), t.right.red, tmp, t.right.right))
    {
      ghost var b := t.right.left;
      assert Apart(t.right) && (b.Fork? ==> b.node in Nodes(b));
      assert Stands(t.right, elm) && Nodes(t) == Nodes(t.left) + {elm} + Nodes(t.right);
      assert Nodes(t.right) == Nodes(b) + {t.right.node} + Nodes(t.right.right);
      tmp := elm.right;
      assert tmp.left == Ptr(b) && elm.parent == Par(k);
      if !k.Top? {
        Look(k, t);
      }
      SpinLeft(elm, tmp);
      Regroup(t.left, elm, b, tmp, t.right.right, t.red, t.right.red, t.red, t.right.red);
      TurnedLeft(t);
      Rehung(k);
    }

    /** The writes of RB_ROTATE_RIGHT (tree.h:356-369). */
    method SpinRight(elm: Node<K, V>, tmp: Node<K, V>)
      requires tmp == elm.left && tmp != elm && tmp.right != elm && tmp.right != tmp
      requires elm.parent != elm && elm.parent != tmp && (elm.parent != null ==> elm.parent != tmp.right)
      modifies this`root, elm, tmp, Opt(tmp.right), Opt(elm.parent)
      ensures elm.left == old(tmp.right) && elm.parent == tmp && elm.right == old(elm.right) && elm.red == old(elm.red)
      ensures tmp.right == elm && tmp.parent == old(elm.parent) && tmp.left == old(tmp.left) && tmp.red == old(tmp.red)
      ensures var b := old(tmp.right); b != null ==>
              b.parent == elm && b.left == old(tmp.right.left) && b.right == old(tmp.right.right) &&
                b.red == old(tmp.right.red)
      ensures var p := old(elm.parent); if p == null then root == tmp else
        && root == old(root) && p.parent == old(elm.parent.parent) && p.red == old(elm.parent.red)
        && (if elm == old(elm.parent.left) then p.left == tmp && p.right == old(elm.parent.right)
            else p.right == tmp && p.left == old(elm.parent.left))
    {
      elm.left := tmp.right;
      if tmp.right != null {
        tmp.right.parent := elm;
      }
      tmp.parent := elm.parent;
      Relink(elm.parent, elm, tmp);
      tmp.right := elm;
      elm.parent := tmp;
    }

    /** RB_ROTATE_RIGHT at `elm`; `tmp` is its left child, which takes its place. */
    method RotateRight(elm: Node<K, V>, ghost k: Path<K, V>, ghost t: Tree<K, V>)
      returns (tmp: Node<K, V>)
      requires t.Fork? && t.left.Fork? && t.node == elm && At(k, t)
      modifies this`root, nodes
      ensures tmp == t.left.node
      ensures At(k, Fork(t.left.left, t.left.red, tmp, Fork(t.left.right, t.red, elm, t.right)))
    {
      ghost var b := t.left.right;
      assert Apart(t.left) && (b.Fork? ==> b.node in Nodes(b));
      assert Stands(t.left, elm) && Nodes(t) == Nodes(t.right) + {elm} + Nodes(t.left);
      assert Nodes(t.left) == Nodes(b) + {t.left.node} + Nodes(t.left.left);
      tmp := elm.left;
      assert tmp.right == Ptr(b) && elm.parent == Par(k);
      if !k.Top? {
        Look(k, t);
      }
      SpinRight(elm, tmp);
      Regroup(t.left.left, tmp, b, elm, t.right, t.left.red, t.red, t.left.red, t.red);
      TurnedRight(t);
      Rehung(k);
    }

    /** Moving the focus of the zipper one step. */
    lemma Climb(k: Path<K, V>, t: Tree<K, V>)
      requires !k.Top?
      ensures At(k, t) <==> At(k.up, Refill(k, t))
    {
      ZipUp(root, k, t);
      WholeUp(k, t);
    }

    /** RB_COLOR(n) = red, for the node at the focus. */
    method Paint(n: Node<K, V>, red: bool, ghost k: Path<K, V>, ghost t: Tree<K, V>)
      requires t.Fork? && t.node == n && At(k, t)
      modifies n
      ensures At(k, t.(red := red))
    {
      assert Stands(t.left, n) && Stands(t.right, n);
      n.red := red;
      Untouched(t.left);
      Untouched(t.right);
      Rehung(k);
    }

    /** Both children of `gparent` turn black and `gparent` turns red. */
    method Flip(gparent: Node<K, V>, ghost k: Path<K, V>, ghost t: Tree<K, V>)
      requires t.Fork? && t.left.Fork? && t.right.Fork? && t.node == gparent && At(k, t)
      modifies nodes
      ensures At(k, Fork(t.left.(red := false), true, gparent, t.right.(red := false)))
    {
      ghost var l, r := t.left, t.right;
      ghost var kl := InLeft(k, t.red, gparent, r);
      Climb(kl, l);
      Paint(gparent.left, false, kl, l);
      l := l.(red := false);
      Climb(kl, l);
      ghost var kr := InRight(k, t.red, gparent, l);
      Climb(kr, r);
      Paint(gparent.right, false, kr, r);
      r := r.(red := false);
      Climb(kr, r);
      Paint(gparent, true, k, Fork(l, t.red, gparent, r));
    }

    /** The state of RB_INSERT_COLOR: a red node `elm` whose parent may be red too. */
    ghost predicate RedAt(elm: Node<K, V>, k: Path<K, V>, t: Tree<K, V>, h: nat)
      reads this, nodes
    {
      elm in nodes && At(k, t) && t.Fork? && t.node == elm && t.red && RbOk(t, h) && PathOk(k, h)
    }

    lemma Blacken(t: Tree<K, V>, h: nat)
      requires t.Fork? && t.red && RbOk(t.left, h) && RbOk(t.right, h)
      ensures RbOk(t.(red := false), h + 1)
    {
    }

    /** A red parent and a red uncle: both turn black, the violation moves up two levels (tree.h:408-414, 424-430). */
    method InsertRecolor(gparent: Node<K, V>, ghost k: Path<K, V>, ghost t: Tree<K, V>, ghost h: nat)
      returns (ghost k': Path<K, V>, ghost t': Tree<K, V>)
      requires !k.Top? && t.Fork? && RedAt(t.node, k, t, h) && k.red
      requires !k.up.Top? && !k.up.red && k.up.node == gparent && IsRed(k.up.other)
      modifies nodes
      ensures RedAt(gparent, k', t', h + 1) && k' == k.up.up && Whole(k', t') == Whole(k, t)
    {
      hide At;
      ghost var p := Refill(k, t);
      ghost var g := Refill(k.up, p);
      Climb(k, t);
      WholeUp(k, t);
      Look(k.up, p);
      Climb(k.up, p);
      WholeUp(k.up, p);
      Flip(gparent, k.up.up, g);
      k', t' := k.up.up, Fork(g.left.(red := false), true, gparent, g.right.(red := false));
      assert Inorder(t') == Inorder(g);
      assert PathOk(k.up, h) && RbOk(k.up.other, h);
      Blacken(k.up.other, h);
      Blacken(p, h);
    }

    /** RB_SET_BLACKRED on parent and grandparent, then RB_ROTATE_RIGHT at the grandparent. */
    method HoistLeft(parent: Node<K, V>, gparent: Node<K, V>, ghost k: Path<K, V>, ghost p: Tree<K, V>)
      requires p.Fork? && p.node == parent && k.InLeft? && k.node == gparent && At(k, p)
      modifies this`root, nodes
      ensures At(InLeft(k.up, false, parent, Fork(p.right, true, gparent, k.other)), p.left)
    {
      Paint(parent, false, k, p);
      ghost var p' := p.(red := false);
      Climb(k, p');
      Paint(gparent, true, k.up, Refill(k, p'));
      var _ := RotateRight(gparent, k.up, Fork(p', true, gparent, k.other));
      Climb(InLeft(k.up, false, parent, Fork(p.right, true, gparent, k.other)), p.left);
    }

    lemma HoistedLeft(k: Path<K, V>, p: Tree<K, V>, h: nat)
      requires p.Fork? && k.InLeft?
      ensures var k' := InLeft(k.up, false, p.node, Fork(p.right, true, k.node, k.other));
        && Whole(k', p.left) == Whole(k, p)
        && (RbOk(p.right, h) && PathOk(k, h) && !k.red && !IsRed(p.right) && !IsRed(k.other) ==> PathOk(k', h))
    {
      var g := Fork(p.right, true, k.node, k.other);
      var k' := InLeft(k.up, false, p.node, g);
      WholeUp(k', p.left);
      WholeUp(k, p);
      RegroupInorder(p.left, p.node, p.right, k.node, k.other, false, true, p.red, k.red);
      if RbOk(p.right, h) && PathOk(k, h) && !k.red && !IsRed(p.right) && !IsRed(k.other) {
        assert RbOk(g, h);
      }
    }

    /** A red parent and a black uncle, on the left side: one or two rotations (tree.h:415-422). */
    method InsertRotateLeft(elm0: Node<K, V>, parent0: Node<K, V>, gparent: Node<K, V>,
                            ghost k: Path<K, V>, ghost t: Tree<K, V>, ghost h: nat)
      returns (elm: Node<K, V>, ghost k': Path<K, V>, ghost t': Tree<K, V>)
      requires !k.Top? && RedAt(elm0, k, t, h) && k.red && k.node == parent0
      requires k.up.InLeft? && !k.up.red && k.up.node == gparent && !IsRed(k.up.other)
      modifies this`root, nodes
      ensures RedAt(elm, k', t', h) && !WantsBlack(k') && Depth(k') < Depth(k) && Whole(k', t') == Whole(k, t)
    {
      elm := elm0;
      var parent := parent0;
      ghost var p, k1 := Refill(k, t), k.up;
      Climb(k, t);
      WholeUp(k, t);
      assert PathOk(k1, h);
      if parent.right == elm {
        var _ := RotateLeft(parent, k1, p);
        RegroupInorder(p.left, parent, t.left, elm, t.right, true, true, true, true);
        p := Fork(Fork(p.left, true, parent, t.left), true, elm, t.right);
        parent, elm := elm, parent;
      }
      HoistLeft(parent, gparent, k1, p);
      HoistedLeft(k1, p, h);
      t', k' := p.left, InLeft(k1.up, false, parent, Fork(p.right, true, gparent, k1.other));
    }

    method HoistRight(parent: Node<K, V>, gparent: Node<K, V>, ghost k: Path<K, V>, ghost p: Tree<K, V>)
      requires p.Fork? && p.node == parent && k.InRight? && k.node == gparent && At(k, p)
      modifies this`root, nodes
      ensures At(InRight(k.up, false, parent, Fork(k.other, true, gparent, p.left)), p.right)
    {
      Paint(parent, false, k, p);
      ghost var p' := p.(red := false);
      Climb(k, p');
      Paint(gparent, true, k.up, Refill(k, p'));
      var _ := RotateLeft(gparent, k.up, Fork(k.other, true, gparent, p'));
      Climb(InRight(k.up, false, parent, Fork(k.other, true, gparent, p.left)), p.right);
    }

    lemma HoistedRight(k: Path<K, V>, p: Tree<K, V>, h: nat)
      requires p.Fork? && k.InRight?
      ensures var k' := InRight(k.up, false, p.node, Fork(k.other, true, k.node, p.left));
        && Whole(k', p.right) == Whole(k, p)
        && (RbOk(p.left, h) && PathOk(k, h) && !k.red && !IsRed(p.left) && !IsRed(k.other) ==> PathOk(k', h))
    {
      var g := Fork(k.other, true, k.node, p.left);
      var k' := InRight(k.up, false, p.node, g);
      WholeUp(k', p.right);
      WholeUp(k, p);
      RegroupInorder(k.other, k.node, p.left, p.node, p.right, k.red, p.red, true, false);
      if RbOk(p.left, h) && PathOk(k, h) && !k.red && !IsRed(p.left) && !IsRed(k.other) {
        assert RbOk(g, h);
      }
    }

    /** The mirror image of InsertRotateLeft (tree.h:431-438). */
    method InsertRotateRight(elm0: Node<K, V>, parent0: Node<K, V>, gparent: Node<K, V>,
                             ghost k: Path<K, V>, ghost t: Tree<K, V>, ghost h: nat)
      returns (elm: Node<K, V>, ghost k': Path<K, V>, ghost t': Tree<K, V>)
      requires !k.Top? && RedAt(elm0, k, t, h) && k.red && k.node == parent0
      requires k.up.InRight? && !k.up.red && k.up.node == gparent && !IsRed(k.up.other)
      modifies this`root, nodes
      ensures RedAt(elm, k', t', h) && !WantsBlack(k') && Depth(k') < Depth(k) && Whole(k', t') == Whole(k, t)
    {
      elm := elm0;
      var parent := parent0;
      ghost var p, k1 := Refill(k, t), k.up;
      Climb(k, t);
      WholeUp(k, t);
      assert PathOk(k1, h);
      if parent.left == elm {
        var _ := RotateRight(parent, k1, p);
        RegroupInorder(t.left, elm, t.right, parent, p.right, true, true, true, true);
        p := Fork(t.left, true, elm, Fork(t.right, true, parent, p.right));
        parent, elm := elm, parent;
      }
      HoistRight(parent, gparent, k1, p);
      HoistedRight(k1, p, h);
      t', k' := p.right, InRight(k1.up, false, parent, Fork(k1.other, true, gparent, p.left));
    }

    /** The focus moved back to the root; `shape` records the result. */
    ghost method Settle(k: Path<K, V>, t: Tree<K, V>)
      requires At(k, t)
      modifies this`shape
      ensures At(Top, shape) && shape == Plug(k, t) && Inorder(shape) == Whole(k, t)
    {
      ZipPlug(root, k, t);
      shape := Plug(k, t);
    }

    lemma RedPathUp(k: Path<K, V>, h: nat)
      requires PathOk(k, h) && !k.Top? && k.red
      ensures !k.up.Top? && !k.up.red && PathOk(k.up, h)
    {
    }

    lemma {:induction false} PlugRed(k: Path<K, V>, t: Tree<K, V>, h: nat) returns (h': nat)
      requires RbOk(t, h) && PathOk(k, h) && (k.Top? || Fits(k, t, h))
      ensures RbOk(Plug(k, t), h')
      decreases k
    {
      h' := h;
      if !k.Top? {
        h' := PlugRed(k.up, Refill(k, t), if k.red then h else h + 1);
      }
    }

    /** What the links say about the last step of a path. */
    lemma Look(k: Path<K, V>, t: Tree<K, V>)
      requires At(k, t) && !k.Top?
      ensures k.InLeft? ==> k.node.left == Ptr(t) && k.node.right == Ptr(k.other)
      ensures k.InRight? ==> k.node.right == Ptr(t) && k.node.left == Ptr(k.other)
      ensures t.Fork? || k.other.Fork? ==> (k.InLeft? <==> k.node.left == Ptr(t))
      ensures t.Fork? ==> t.node.parent == k.node && t.node.red == t.red
      ensures k.other.Fork? ==> k.other.node in nodes && k.other.node.red == k.other.red
      ensures k.node.parent == Par(k.up) && k.node.red == k.red && k.node in nodes
    {
      assert t.Fork? ==> t.node in Nodes(t);
      assert k.other.Fork? ==> k.other.node in Nodes(k.other);
      assert Stands(k.other, k.node);
    }

    /** The sides and colours that RB_INSERT_COLOR looks at. */
    lemma LookTwice(k: Path<K, V>, t: Tree<K, V>, h: nat)
      requires At(k, t) && t.Fork? && PathOk(k, h) && !k.Top? && k.red
      ensures !k.up.Top? && !k.up.red
      ensures t.node.parent == k.node && k.node.parent == k.up.node
      ensures k.up.InLeft? <==> k.up.node.left == k.node
      ensures Ptr(k.up.other) == if k.up.InLeft? then k.up.node.right else k.up.node.left
      ensures k.up.other.Fork? ==> k.up.other.node.red == k.up.other.red
    {
      Look(k, t);
      RedPathUp(k, h);
      Climb(k, t);
      Look(k.up, Refill(k, t));
    }

    lemma HasParent(k: Path<K, V>, t: Tree<K, V>)
      requires At(k, t) && t.Fork?
      ensures t.node.parent == Par(k)
    {
    }

    /** One round of the loop of RB_INSERT_COLOR (tree.h:406-439). */
    method InsertRound(elm0: Node<K, V>, ghost k: Path<K, V>, ghost t: Tree<K, V>, ghost h: nat)
      returns (elm: Node<K, V>, ghost k': Path<K, V>, ghost t': Tree<K, V>, ghost h': nat)
      requires RedAt(elm0, k, t, h) && elm0.parent != null && elm0.parent.red
      modifies this`root, nodes
      ensures RedAt(elm, k', t', h') && Depth(k') < Depth(k) && Whole(k', t') == Whole(k, t)
    {
      hide At, Whole;
      elm, h' := elm0, h;
      HasParent(k, t);
      if !k.Top? {
        Look(k, t);
      }
      LookTwice(k, t, h);
      var parent := elm.parent;
      var gparent := parent.parent;
      if parent == gparent.left {
        var tmp := gparent.right;
        if tmp != null && tmp.red {
          k', t' := InsertRecolor(gparent, k, t, h);
          elm, h' := gparent, h + 1;
        } else {
          elm, k', t' := InsertRotateLeft(elm, parent, gparent, k, t, h);
        }
      } else {
        var tmp := gparent.left;
        if tmp != null && tmp.red {
          k', t' := InsertRecolor(gparent, k, t, h);
          elm, h' := gparent, h + 1;
        } else {
          elm, k', t' := InsertRotateRight(elm, parent, gparent, k, t, h);
        }
      }
    }

    /** RB_INSERT_COLOR (tree.h:401-442). */
    method InsertColor(elm0: Node<K, V>, ghost k0: Path<K, V>, ghost t0: Tree<K, V>)
      requires RedAt(elm0, k0, t0, 0)
      modifies this`root, this`shape, nodes
      ensures At(Top, shape) && IsRedBlack(shape) && Inorder(shape) == Whole(k0, t0)
    {
      var elm := elm0;
      ghost var k, t, h: nat := k0, t0, 0;
      while elm.parent != null && elm.parent.red
        invariant RedAt(elm, k, t, h) && Whole(k, t) == Whole(k0, t0)
        decreases Depth(k)
      {
        elm, k, t, h := InsertRound(elm, k, t, h);
      }
      InsertDone(elm, k, t, h);
    }

    /** The last line of RB_INSERT_COLOR: the root turns black. */
    method InsertDone(elm: Node<K, V>, ghost k: Path<K, V>, ghost t: Tree<K, V>, ghost h: nat)
      requires RedAt(elm, k, t, h) && (elm.parent == null || !elm.parent.red)
      modifies this`shape, nodes
      ensures At(Top, shape) && IsRedBlack(shape) && Inorder(shape) == Whole(k, t)
    {
      if !k.Top? {
        Look(k, t);
      }
      ghost var h' := PlugRed(k, t, h);
      Settle(k, t);
      Paint(root, false, Top, shape);
      shape := shape.(red := false);
      assert RbOk(shape, h') || RbOk(shape, h' + 1);
    }

    // -------------------------------------------------------------------------------
    // Searching

    /** `key` belongs at the end of `k`: after everything before it, before everything after it. */
    ghost predicate Between(k: Path<K, V>, key: K) {
      && (forall n <- Before(k) :: compare(n.key, key) < 0)
      && (forall n <- After(k) :: compare(key, n.key) < 0)
    }

    lemma BetweenLeft(k: Path<K, V>, t: Tree<K, V>, key: K)
      requires Ordering(compare) && t.Fork? && Between(k, key) && Ascending(Whole(k, t))
      requires compare(key, t.node.key) < 0
      ensures Between(InLeft(k, t.red, t.node, t.right), key)
    {
      var a, b := Before(k) + Inorder(t.left), Inorder(t.right) + After(k);
      WholeSplit(k, t);
      forall n <- b
        ensures compare(key, n.key) < 0
      {
        var j :| 0 <= j < |b| && b[j] == n;
        assert (a + [t.node] + b)[|a|] == t.node && (a + [t.node] + b)[|a| + 1 + j] == n;
      }
      assert After(InLeft(k, t.red, t.node, t.right)) == [t.node] + b;
    }

    lemma BetweenRight(k: Path<K, V>, t: Tree<K, V>, key: K)
      requires Ordering(compare) && t.Fork? && Between(k, key) && Ascending(Whole(k, t))
      requires compare(key, t.node.key) > 0
      ensures Between(InRight(k, t.red, t.node, t.left), key)
    {
      var a, b := Before(k) + Inorder(t.left), Inorder(t.right) + After(k);
      WholeSplit(k, t);
      forall n <- a
        ensures compare(n.key, key) < 0
      {
        var j :| 0 <= j < |a| && a[j] == n;
        assert (a + [t.node] + b)[|a|] == t.node && (a + [t.node] + b)[j] == n;
      }
    }

    /** The state of a search for `key` that has come down to `tmp`. */
    ghost predicate Searching(key: K, tmp: Node?<K, V>, k: Path<K, V>, t: Tree<K, V>, h: nat)
      reads this, nodes
    {
      && Ordering(compare) && tmp == Ptr(t) && At(k, t) && Fits(k, t, h)
      && Whole(k, t) == Contents() && Ascending(Contents()) && Between(k, key)
      && Depth(k) + Height(t) <= Height(shape)
    }

    /** The focus moved down to a child. */
    lemma Down(k: Path<K, V>, t: Tree<K, V>, h: nat) returns (h': nat)
      requires !k.Top? && At(k.up, Refill(k, t)) && Fits(k.up, Refill(k, t), h)
      ensures At(k, t) && Fits(k, t, h') && Whole(k, t) == Whole(k.up, Refill(k, t))
      ensures k.node in nodes && Ptr(t) == if k.InLeft? then k.node.left else k.node.right
      ensures Depth(k) + Height(t) <= Depth(k.up) + Height(Refill(k, t))
    {
      h' := if k.red then h else h - 1;
      Climb(k, t);
      WholeUp(k, t);
      Look(k, t);
    }

    lemma StepDown(key: K, k: Path<K, V>, t: Tree<K, V>, h: nat)
      returns (k': Path<K, V>, t': Tree<K, V>, h': nat)
      requires t.Fork? && Searching(key, t.node, k, t, h) && compare(key, t.node.key) != 0
      ensures k' == if compare(key, t.node.key) < 0 then InLeft(k, t.red, t.node, t.right)
              else InRight(k, t.red, t.node, t.left)
      ensures t' == if compare(key, t.node.key) < 0 then t.left else t.right
      ensures Ptr(t') == if compare(key, t.node.key) < 0 then t.node.left else t.node.right
      ensures Searching(key, Ptr(t'), k', t', h')
    {
      if compare(key, t.node.key) < 0 {
        k', t' := InLeft(k, t.red, t.node, t.right), t.left;
        BetweenLeft(k, t, key);
      } else {
        k', t' := InRight(k, t.red, t.node, t.left), t.right;
        BetweenRight(k, t, key);
      }
      h' := Down(k', t', h);
    }

    /** A search starts at the root. */
    lemma SearchStart(key: K) returns (h: nat)
      requires Valid()
      ensures Searching(key, root, Top, shape, h)
    {
      h :| RbOk(shape, h);
      assert Whole(Top, shape) == Contents();
    }

    lemma {:induction false} AroundNodes(k: Path<K, V>)
      ensures Around(k) == Elems(Before(k)) + Elems(After(k))
      decreases k
    {
      if !k.Top? {
        AroundNodes(k.up);
        InorderNodes(k.other);
        var o := Inorder(k.other);
        assert Elems([k.node]) == {k.node};
        if k.InLeft? {
          assert Elems([k.node] + o + After(k.up)) == {k.node} + Elems(o) + Elems(After(k.up));
        } else {
          assert Elems(Before(k.up) + o + [k.node]) == Elems(Before(k.up)) + Elems(o) + {k.node};
        }
      }
    }

    /** A search that has run into a missing child has passed every element. */
    lemma SearchMissed(key: K, k: Path<K, V>, h: nat)
      requires Searching(key, null, k, Leaf, h)
      ensures !HasKey(key)
      ensures Contents() == Before(k) + After(k)
    {
      hide Ordering, Ascending;
      assert Whole(k, Leaf) == Before(k) + After(k);
      AroundNodes(k);
      forall n | n in nodes
        ensures compare(key, n.key) != 0
      {
        assert n in Around(k) + Nodes<K, V>(Leaf);
        assert n in Before(k) || n in After(k);
        Opposite(n.key, key);
      }
    }

    lemma Opposite(a: K, b: K)
      requires Ordering(compare)
      ensures compare(a, b) < 0 <==> compare(b, a) > 0
    {
    }

    /** A search that meets an equal key is at an element. */
    lemma SearchHit(key: K, k: Path<K, V>, t: Tree<K, V>, h: nat)
      requires t.Fork? && Searching(key, t.node, k, t, h)
      ensures t.node in Contents() && t.node in nodes
    {
      assert Whole(k, t)[|Before(k)| + |Inorder(t.left)|] == t.node;
    }

    /** RB_FIND (tree.h:620-634); `visits` counts the nodes compared. */
    method Find(key: K) returns (r: Node?<K, V>, ghost visits: nat)
      requires Valid()
      ensures r != null ==> r in nodes && compare(key, r.key) == 0
      ensures r == null ==> !HasKey(key)
      ensures visits <= Height(shape) && Pow2(visits) <= (|Contents()| + 1) * (|Contents()| + 1)
    {
      r, visits := Search(key);
      HeightBound(shape, visits);
    }

    /** The loop of RB_FIND. */
    method Search(key: K) returns (r: Node?<K, V>, ghost visits: nat)
      requires Valid()
      ensures r != null ==> r in nodes && compare(key, r.key) == 0
      ensures r == null ==> !HasKey(key)
      ensures visits <= Height(shape)
    {
      var tmp := root;
      visits := 0;
      ghost var k, t := Path<K, V>.Top, shape;
      ghost var h := SearchStart(key);
      while tmp != null
        invariant Searching(key, tmp, k, t, h) && visits == Depth(k)
        decreases t
      {
        SearchHit(key, k, t, h);
        var comp := compare(key, tmp.key);
        visits := visits + 1;
        if comp == 0 {
          return tmp, visits;
        }
        k, t, h := StepDown(key, k, t, h);
        tmp := if comp < 0 then tmp.left else tmp.right;
      }
      SearchMissed(key, k, h);
      r := null;
    }

    /** The new leaf is linked below `parent` and coloured red (tree.h:605-613). */
    method Attach(elm: Node<K, V>, parent: Node?<K, V>, comp: int, ghost k: Path<K, V>, ghost h: nat)
      requires At(k, Leaf) && Fits(k, Leaf, h) && elm !in nodes
      requires parent == Par(k) && (!k.Top? ==> (comp < 0 <==> k.InLeft?))
      modifies this`root, this`nodes, nodes, elm
      ensures nodes == old(nodes) + {elm}
      ensures RedAt(elm, k, Fork(Leaf, true, elm, Leaf), 0)
    {
      if parent != null {
        Look(k, Leaf);
      }
      nodes := nodes + {elm};
      elm.parent, elm.left, elm.right, elm.red := parent, null, null, true;
      if parent != null {
        if comp < 0 {
          parent.left := elm;
        } else {
          parent.right := elm;
        }
      } else {
        root := elm;
      }
      Rehung(k);
      assert Stands(Fork(Leaf, true, elm, Leaf), Par(k));
    }

    /** An element whose key belongs at a position can be put there. */
    lemma AscendingInsert(s: seq<Node<K, V>>, i: nat, elm: Node<K, V>)
      requires Ordering(compare) && Ascending(s) && i <= |s|
      requires forall n <- s[..i] :: compare(n.key, elm.key) < 0
      requires forall n <- s[i..] :: compare(elm.key, n.key) < 0
      ensures Ascending(s[..i] + [elm] + s[i..])
    {
      var w := s[..i] + [elm] + s[i..];
      forall a, b | 0 <= a < b < |w|
        ensures compare(w[a].key, w[b].key) < 0
      {
        if b == i {
          assert w[a] in s[..i];
        } else if a == i {
          assert w[b] in s[i..];
        }
      }
    }

    /** The descent of RB_INSERT (tree.h:594-604): an equal element, or the place for a new one. */
    method Descend(key: K) returns (r: Node?<K, V>, parent: Node?<K, V>, comp: int, ghost k: Path<K, V>, ghost h: nat)
      requires Valid()
      ensures r != null ==> r in nodes && compare(key, r.key) == 0 && HasKey(key)
      ensures r == null ==> Searching(key, null, k, Leaf, h) && !HasKey(key)
      ensures r == null ==> parent == Par(k) && (!k.Top? ==> (comp < 0 <==> k.InLeft?))
    {
      var tmp := root;
      parent, comp := null, 0;
      k := Top;
      ghost var t := shape;
      h := SearchStart(key);
      while tmp != null
        invariant Searching(key, tmp, k, t, h) && parent == Par(k)
        invariant !k.Top? ==> (comp < 0 <==> k.InLeft?)
        decreases t
      {
        SearchHit(key, k, t, h);
        parent := tmp;
        comp := compare(key, parent.key);
        if comp == 0 {
          return tmp, parent, comp, k, h;
        }
        k, t, h := StepDown(key, k, t, h);
        tmp := if comp < 0 then tmp.left else tmp.right;
      }
      SearchMissed(key, k, h);
      r := null;
    }

    lemma PlaceFor(key: K, k: Path<K, V>, h: nat, elm: Node<K, V>)
      requires Searching(key, null, k, Leaf, h) && elm.key == key
      ensures Ascending(Before(k) + [elm] + After(k))
      ensures Contents() == Before(k) + After(k)
    {
      SearchMissed(key, k, h);
      var s, i := Contents(), |Before(k)|;
      assert s[..i] == Before(k) && s[i..] == After(k);
      AscendingInsert(s, i, elm);
    }

    /** RB_INSERT once its search has failed (tree.h:605-615). */
    method InsertMissed(elm: Node<K, V>, parent: Node?<K, V>, comp: int, ghost k: Path<K, V>, ghost h: nat)
      requires At(k, Leaf) && Fits(k, Leaf, h) && elm !in nodes
      requires parent == Par(k) && (!k.Top? ==> (comp < 0 <==> k.InLeft?))
      modifies this`root, this`shape, this`nodes, nodes
      modifies elm
      ensures At(Top, shape) && IsRedBlack(shape) && nodes == old(nodes) + {elm}
      ensures Contents() == Before(k) + [elm] + After(k)
    {
      Attach(elm, parent, comp, k, h);
      InsertColor(elm, k, Fork(Leaf, true, elm, Leaf));
      assert Inorder<K, V>(Fork(Leaf, true, elm, Leaf)) == [elm];
    }

    /** RB_INSERT (tree.h:589-616): the element with an equal key, or null once `elm` is in the tree. */
    method Insert(elm: Node<K, V>) returns (r: Node?<K, V>, ghost before: seq<Node<K, V>>, ghost after: seq<Node<K, V>>)
      requires Valid() && elm !in nodes
      modifies this`root, this`shape, this`nodes, nodes
      modifies elm
      ensures Valid()
      ensures r == null <==> !old(HasKey(elm.key))
      ensures r != null ==>
              r in nodes && compare(elm.key, r.key) == 0 && unchanged(this) && unchanged(old(nodes)) && unchanged(elm)
      ensures r == null ==> old(Contents()) == before + after && Contents() == before + [elm] + after
      ensures r == null ==> nodes == old(nodes) + {elm}
    {
      var parent, comp;
      ghost var k, h;
      r, parent, comp, k, h := Descend(elm.key);
      before, after := Before(k), After(k);
      if r == null {
        PlaceFor(elm.key, k, h, elm);
        InsertMissed(elm, parent, comp, k, h);
      }
    }

    // -------------------------------------------------------------------------------
    // Deleting: RB_REMOVE_COLOR

    /** From the hole of `k` to its sibling position. */
    ghost function Aside(k: Path<K, V>, t: Tree<K, V>): Path<K, V>
      requires !k.Top?
    {
      if k.InLeft? then InRight(k.up, k.red, k.node, t) else InLeft(k.up, k.red, k.node, t)
    }

    lemma Cross(k: Path<K, V>, t: Tree<K, V>)
      requires !k.Top?
      ensures At(k, t) <==> At(Aside(k, t), k.other)
      ensures Whole(k, t) == Whole(Aside(k, t), k.other)
    {
      Climb(k, t);
      Climb(Aside(k, t), k.other);
      WholeUp(k, t);
      WholeUp(Aside(k, t), k.other);
    }

    method PaintParent(parent: Node<K, V>, red: bool, ghost k: Path<K, V>, ghost t: Tree<K, V>)
      requires !k.Top? && k.node == parent && At(k, t)
      modifies parent
      ensures At(WithRed(k, red), t)
    {
      Climb(k, t);
      Paint(parent, red, k.up, Refill(k, t));
      Climb(WithRed(k, red), t);
    }

    method PaintSibling(tmp: Node<K, V>, red: bool, ghost k: Path<K, V>, ghost t: Tree<K, V>)
      requires !k.Top? && k.other.Fork? && k.other.node == tmp && At(k, t)
      modifies tmp
      ensures At(WithOther(k, k.other.(red := red)), t)
    {
      Cross(k, t);
      Paint(tmp, red, Aside(k, t), k.other);
      Cross(WithOther(k, k.other.(red := red)), t);
    }

    /** The subtree at the focus lacks one black node; a red root of it is due to turn black. */
    ghost predicate Short(k: Path<K, V>, t: Tree<K, V>, h: nat) {
      && PathOk(k, h + 1)
      && (if IsRed(t) then RbOk(t.left, h) && RbOk(t.right, h) else RbOk(t, h))
    }

    /** A red sibling is rotated above the parent (tree.h:452-456). */
    method LowerLeft(parent: Node<K, V>, tmp: Node<K, V>, ghost k: Path<K, V>, ghost t: Tree<K, V>)
      returns (ghost k': Path<K, V>)
      requires k.InLeft? && k.node == parent && IsRed(k.other) && k.other.node == tmp && At(k, t)
      modifies this`root, nodes
      ensures k' == InLeft(InLeft(k.up, false, tmp, k.other.right), true, parent, k.other.left)
      ensures At(k', t)
    {
      ghost var s := k.other;
      PaintSibling(tmp, false, k, t);
      ghost var k1 := WithOther(k, s.(red := false));
      PaintParent(parent, true, k1, t);
      Climb(WithRed(k1, true), t);
      var _ := RotateLeft(parent, k.up, Fork(t, true, parent, s.(red := false)));
      k' := InLeft(InLeft(k.up, false, tmp, s.right), true, parent, s.left);
      Climb(k'.up, Refill(k', t));
      Climb(k', t);
    }

    lemma LoweredLeft(k: Path<K, V>, t: Tree<K, V>, h: nat)
      requires k.InLeft? && IsRed(k.other) && Short(k, t, h)
      ensures var k' := InLeft(InLeft(k.up, false, k.other.node, k.other.right), true, k.node, k.other.left);
        Short(k', t, h) && Whole(k', t) == Whole(k, t) && !IsRed(k'.other)
    {
      var s := k.other;
      var k' := InLeft(InLeft(k.up, false, s.node, s.right), true, k.node, s.left);
      WholeUp(k', t);
      WholeUp(k'.up, Refill(k', t));
      WholeUp(k, t);
      RegroupInorder(t, k.node, s.left, s.node, s.right, k.red, s.red, true, false);
      assert !k.red && RbOk(s, h + 1);
    }

    /** A black sibling without red children turns red; the lack moves to the parent (tree.h:457-463, 489-495). */
    method RemoveRecolor(tmp: Node<K, V>, ghost k: Path<K, V>, ghost t: Tree<K, V>, ghost h: nat)
      returns (ghost t': Tree<K, V>, ghost h': nat)
      requires !k.Top? && k.other.Fork? && k.other.node == tmp && !k.other.red && At(k, t)
      requires Short(k, t, h) && !IsRed(t) && !IsRed(k.other.left) && !IsRed(k.other.right)
      modifies nodes
      ensures At(k.up, t') && Short(k.up, t', h') && Whole(k.up, t') == Whole(k, t)
      ensures t'.Fork? && t'.node == k.node && IsRed(t') == k.red
    {
      hide At;
      Look(k, t);
      Cross(k, t);
      PaintSibling(tmp, true, k, t);
      ghost var k1 := WithOther(k, k.other.(red := true));
      t', h' := Refill(k1, t), if k.red then h else h + 1;
      Climb(k1, t);
      WholeUp(k1, t);
      assert RbOk(k1.other, h);
      assert Inorder(k1.other) == Inorder(k.other);
    }

    /** A black sibling whose red child is the near one: that child is rotated above it (tree.h:465-473). */
    method StraightenLeft(tmp: Node<K, V>, ghost k: Path<K, V>, ghost t: Tree<K, V>)
      returns (ghost k': Path<K, V>)
      requires k.InLeft? && k.other.Fork? && k.other.node == tmp && k.other.left.Fork? && At(k, t)
      modifies this`root, nodes
      ensures var s := k.other;
        k' == WithOther(k, Fork(s.left.left, false, s.left.node, Fork(s.left.right, true, tmp, s.right)))
      ensures At(k', t)
    {
      ghost var s, a := k.other, Aside(k, t);
      Cross(k, t);
      ghost var b := InLeft(a, s.red, tmp, s.right);
      Climb(b, s.left);
      Look(a, s);
      Look(b, s.left);
      var oleft := tmp.left;
      if oleft != null {
        Paint(oleft, false, b, s.left);
      }
      PaintParent(tmp, true, b, s.left.(red := false));
      Climb(WithRed(b, true), s.left.(red := false));
      var _ := RotateRight(tmp, a, Fork(s.left.(red := false), true, tmp, s.right));
      k' := WithOther(k, Fork(s.left.left, false, s.left.node, Fork(s.left.right, true, tmp, s.right)));
      Cross(k', t);
    }

    lemma StraightenedLeft(k: Path<K, V>, t: Tree<K, V>, h: nat)
      requires k.InLeft? && k.other.Fork? && !k.other.red && Short(k, t, h)
      requires IsRed(k.other.left) && !IsRed(k.other.right)
      ensures var s := k.other;
        var k' := WithOther(k, Fork(s.left.left, false, s.left.node, Fork(s.left.right, true, s.node, s.right)));
        Short(k', t, h) && Whole(k', t) == Whole(k, t)
    {
      var s := k.other;
      var s' := Fork(s.left.left, false, s.left.node, Fork(s.left.right, true, s.node, s.right));
      RegroupInorder(s.left.left, s.left.node, s.left.right, s.node, s.right, false, true, s.left.red, s.red);
      assert RbOk(s, h + 1) && RbOk(s.left, h) && RbOk(s.right, h);
      assert RbOk(Fork(s.left.right, true, s.node, s.right), h);
      assert RbOk(s', h + 1);
    }

    /** A black sibling whose far child is red: one rotation at the parent ends the repair (tree.h:474-478). */
    method FinishLeft(parent: Node<K, V>, tmp: Node<K, V>, ghost k: Path<K, V>, ghost t: Tree<K, V>)
      returns (ghost t': Tree<K, V>)
      requires k.InLeft? && k.node == parent && k.other.Fork? && k.other.node == tmp && k.other.right.Fork? && At(k, t)
      modifies this`root, nodes
      ensures var s := k.other;
        t' == Fork(Fork(t, false, parent, s.left), k.red, tmp, s.right.(red := false))
      ensures At(k.up, t')
    {
      Look(k, t);
      ghost var s, c := k.other, k.red;
      PaintSibling(tmp, parent.red, k, t);
      ghost var k1 := WithOther(k, s.(red := c));
      PaintParent(parent, false, k1, t);
      ghost var k2 := WithRed(k1, false);
      Cross(k2, t);
      ghost var b := InRight(Aside(k2, t), c, tmp, s.left);
      Climb(b, s.right);
      Look(b, s.right);
      if tmp.right != null {
        Paint(tmp.right, false, b, s.right);
      }
      ghost var r := s.right.(red := false);
      Climb(b, r);
      ghost var k3 := WithOther(k2, Fork(s.left, c, tmp, r));
      Cross(k3, t);
      Climb(k3, t);
      var _ := RotateLeft(parent, k.up, Fork(t, false, parent, Fork(s.left, c, tmp, r)));
      t' := Fork(Fork(t, false, parent, s.left), c, tmp, r);
    }

    lemma FinishedLeft(k: Path<K, V>, t: Tree<K, V>, h: nat) returns (h': nat)
      requires k.InLeft? && k.other.Fork? && !k.other.red && IsRed(k.other.right) && Short(k, t, h) && !IsRed(t)
      ensures var s := k.other;
        var t' := Fork(Fork(t, false, k.node, s.left), k.red, s.node, s.right.(red := false));
        Fits(k.up, t', h') && Whole(k.up, t') == Whole(k, t)
    {
      var s := k.other;
      var r := s.right.(red := false);
      h' := if k.red then h + 1 else h + 2;
      WholeUp(k, t);
      RegroupInorder(t, k.node, s.left, s.node, s.right, k.red, s.red, false, k.red);
      assert Inorder(r) == Inorder(s.right);
      assert RbOk(s, h + 1) && RbOk(s.left, h) && RbOk(s.right, h);
      Blacken(s.right, h);
      assert RbOk(Fork(t, false, k.node, s.left), h + 1);
    }

    // The mirror images, for a hole on the right (tree.h:483-513).

    method LowerRight(parent: Node<K, V>, tmp: Node<K, V>, ghost k: Path<K, V>, ghost t: Tree<K, V>)
      returns (ghost k': Path<K, V>)
      requires k.InRight? && k.node == parent && IsRed(k.other) && k.other.node == tmp && At(k, t)
      modifies this`root, nodes
      ensures k' == InRight(InRight(k.up, false, tmp, k.other.left), true, parent, k.other.right)
      ensures At(k', t)
    {
      ghost var s := k.other;
      PaintSibling(tmp, false, k, t);
      ghost var k1 := WithOther(k, s.(red := false));
      PaintParent(parent, true, k1, t);
      Climb(WithRed(k1, true), t);
      var _ := RotateRight(parent, k.up, Fork(s.(red := false), true, parent, t));
      k' := InRight(InRight(k.up, false, tmp, s.left), true, parent, s.right);
      Climb(k'.up, Refill(k', t));
      Climb(k', t);
    }

    lemma LoweredRight(k: Path<K, V>, t: Tree<K, V>, h: nat)
      requires k.InRight? && IsRed(k.other) && Short(k, t, h)
      ensures var k' := InRight(InRight(k.up, false, k.other.node, k.other.left), true, k.node, k.other.right);
        Short(k', t, h) && Whole(k', t) == Whole(k, t) && !IsRed(k'.other)
    {
      var s := k.other;
      var k' := InRight(InRight(k.up, false, s.node, s.left), true, k.node, s.right);
      WholeUp(k', t);
      WholeUp(k'.up, Refill(k', t));
      WholeUp(k, t);
      RegroupInorder(s.left, s.node, s.right, k.node, t, false, true, s.red, k.red);
      assert !k.red && RbOk(s, h + 1);
    }

    method StraightenRight(tmp: Node<K, V>, ghost k: Path<K, V>, ghost t: Tree<K, V>)
      returns (ghost k': Path<K, V>)
      requires k.InRight? && k.other.Fork? && k.other.node == tmp && k.other.right.Fork? && At(k, t)
      modifies this`root, nodes
      ensures var s := k.other;
        k' == WithOther(k, Fork(Fork(s.left, true, tmp, s.right.left), false, s.right.node, s.right.right))
      ensures At(k', t)
    {
      ghost var s, a := k.other, Aside(k, t);
      Cross(k, t);
      ghost var b := InRight(a, s.red, tmp, s.left);
      Climb(b, s.right);
      Look(a, s);
      Look(b, s.right);
      var oright := tmp.right;
      if oright != null {
        Paint(oright, false, b, s.right);
      }
      PaintParent(tmp, true, b, s.right.(red := false));
      Climb(WithRed(b, true), s.right.(red := false));
      var _ := RotateLeft(tmp, a, Fork(s.left, true, tmp, s.right.(red := false)));
      k' := WithOther(k, Fork(Fork(s.left, true, tmp, s.right.left), false, s.right.node, s.right.right));
      Cross(k', t);
    }

    lemma StraightenedRight(k: Path<K, V>, t: Tree<K, V>, h: nat)
      requires k.InRight? && k.other.Fork? && !k.other.red && Short(k, t, h)
      requires IsRed(k.other.right) && !IsRed(k.other.left)
      ensures var s := k.other;
        var k' := WithOther(k, Fork(Fork(s.left, true, s.node, s.right.left), false, s.right.node, s.right.right));
        Short(k', t, h) && Whole(k', t) == Whole(k, t)
    {
      var s := k.other;
      var s' := Fork(Fork(s.left, true, s.node, s.right.left), false, s.right.node, s.right.right);
      RegroupInorder(s.left, s.node, s.right.left, s.right.node, s.right.right, s.red, s.right.red, true, false);
      assert RbOk(s, h + 1) && RbOk(s.left, h) && RbOk(s.right, h);
      assert RbOk(Fork(s.left, true, s.node, s.right.left), h);
      assert RbOk(s', h + 1);
    }

    method FinishRight(parent: Node<K, V>, tmp: Node<K, V>, ghost k: Path<K, V>, ghost t: Tree<K, V>)
      returns (ghost t': Tree<K, V>)
      requires k.InRight? && k.node == parent && k.other.Fork? && k.other.node == tmp && k.other.left.Fork? && At(k, t)
      modifies this`root, nodes
      ensures var s := k.other;
        t' == Fork(s.left.(red := false), k.red, tmp, Fork(s.right, false, parent, t))
      ensures At(k.up, t')
    {
      Look(k, t);
      ghost var s, c := k.other, k.red;
      PaintSibling(tmp, parent.red, k, t);
      ghost var k1 := WithOther(k, s.(red := c));
      PaintParent(parent, false, k1, t);
      ghost var k2 := WithRed(k1, false);
      Cross(k2, t);
      ghost var b := InLeft(Aside(k2, t), c, tmp, s.right);
      Climb(b, s.left);
      Look(b, s.left);
      if tmp.left != null {
        Paint(tmp.left, false, b, s.left);
      }
      ghost var l := s.left.(red := false);
      Climb(b, l);
      ghost var k3 := WithOther(k2, Fork(l, c, tmp, s.right));
      Cross(k3, t);
      Climb(k3, t);
      var _ := RotateRight(parent, k.up, Fork(Fork(l, c, tmp, s.right), false, parent, t));
      t' := Fork(l, c, tmp, Fork(s.right, false, parent, t));
    }

    lemma FinishedRight(k: Path<K, V>, t: Tree<K, V>, h: nat) returns (h': nat)
      requires k.InRight? && k.other.Fork? && !k.other.red && IsRed(k.other.left) && Short(k, t, h) && !IsRed(t)
      ensures var s := k.other;
        var t' := Fork(s.left.(red := false), k.red, s.node, Fork(s.right, false, k.node, t));
        Fits(k.up, t', h') && Whole(k.up, t') == Whole(k, t)
    {
      var s := k.other;
      var l := s.left.(red := false);
      h' := if k.red then h + 1 else h + 2;
      WholeUp(k, t);
      RegroupInorder(s.left, s.node, s.right, k.node, t, k.red, false, s.red, k.red);
      assert Inorder(l) == Inorder(s.left);
      assert RbOk(s, h + 1) && RbOk(s.left, h) && RbOk(s.right, h);
      Blacken(s.left, h);
      assert RbOk(Fork(s.right, false, k.node, t), h + 1);
    }

    lemma SiblingExists(k: Path<K, V>, t: Tree<K, V>, h: nat)
      requires At(k, t) && Short(k, t, h) && !k.Top?
      ensures k.other.Fork? && RbOk(k.other, h + 1) && k.other.node in nodes
      ensures k.other.node.left == Ptr(k.other.left) && k.other.node.right == Ptr(k.other.right)
      ensures k.other.left.Fork? ==> k.other.left.node in nodes && k.other.left.node.red == k.other.left.red
      ensures k.other.right.Fork? ==> k.other.right.node in nodes && k.other.right.node.red == k.other.right.red
    {
      var s := k.other;
      assert Stands(s, k.node);
      assert s.node in Nodes(s) && (s.left.Fork? ==> s.left.node in Nodes(s.left)) &&
             (s.right.Fork? ==> s.right.node in Nodes(s.right));
      assert Stands(s.left, s.node) && Stands(s.right, s.node);
    }

    /** A red sibling is brought down first (tree.h:451-456). */
    method BlackSiblingLeft(parent: Node<K, V>, ghost k0: Path<K, V>, ghost t: Tree<K, V>, ghost h: nat)
      returns (tmp: Node<K, V>, ghost k: Path<K, V>)
      requires k0.InLeft? && k0.node == parent && At(k0, t) && Short(k0, t, h)
      modifies this`root, nodes
      ensures k.InLeft? && k.node == parent && At(k, t) && Short(k, t, h) && Whole(k, t) == Whole(k0, t)
      ensures k.other.Fork? && !k.other.red && k.other.node == tmp && tmp in nodes
      ensures k == k0 || (k.red && Depth(k) == Depth(k0) + 1)
    {
      k := k0;
      SiblingExists(k, t, h);
      Look(k, t);
      tmp := parent.right;
      if tmp.red {
        LoweredLeft(k, t, h);
        k := LowerLeft(parent, tmp, k, t);
        SiblingExists(k, t, h);
        Look(k, t);
        tmp := parent.right;
      }
    }

    /** One round of RB_REMOVE_COLOR with the hole on the left (tree.h:451-481); `done` is its `break`. */
    method RemoveRoundLeft(parent0: Node<K, V>, ghost k0: Path<K, V>, ghost t0: Tree<K, V>, ghost h0: nat)
      returns (done: bool, elm: Node?<K, V>, parent: Node?<K, V>, ghost k: Path<K, V>, ghost t: Tree<K, V>,
               ghost h: nat)
      requires k0.InLeft? && k0.node == parent0 && At(k0, t0) && Short(k0, t0, h0) && !IsRed(t0)
      modifies this`root, nodes
      ensures At(k, t) && Whole(k, t) == Whole(k0, t0) && elm == Ptr(t)
      ensures if done then Fits(k, t, h) else Short(k, t, h) && parent == Par(k) && (IsRed(t) || Depth(k) < Depth(k0))
    {
      hide At, Whole, Fits, Short;
      parent := parent0;
      t, h := t0, h0;
      var tmp;
      tmp, k := BlackSiblingLeft(parent, k0, t, h);
      SiblingExists(k, t, h);
      if (tmp.left == null || !tmp.left.red) && (tmp.right == null || !tmp.right.red) {
        Look(k, t);
        elm := parent;
        parent := elm.parent;
        t, h := RemoveRecolor(tmp, k, t, h);
        k := k.up;
        done := false;
      } else {
        if tmp.right == null || !tmp.right.red {
          StraightenedLeft(k, t, h);
          k := StraightenLeft(tmp, k, t);
          SiblingExists(k, t, h);
          Look(k, t);
          tmp := parent.right;
        }
        h := FinishedLeft(k, t, h);
        t := FinishLeft(parent, tmp, k, t);
        k, elm, done := k.up, tmp, true;
      }
    }

    /** A red sibling is brought down first (tree.h:483-488). */
    method BlackSiblingRight(parent: Node<K, V>, ghost k0: Path<K, V>, ghost t: Tree<K, V>, ghost h: nat)
      returns (tmp: Node<K, V>, ghost k: Path<K, V>)
      requires k0.InRight? && k0.node == parent && At(k0, t) && Short(k0, t, h)
      modifies this`root, nodes
      ensures k.InRight? && k.node == parent && At(k, t) && Short(k, t, h) && Whole(k, t) == Whole(k0, t)
      ensures k.other.Fork? && !k.other.red && k.other.node == tmp && tmp in nodes
      ensures k == k0 || (k.red && Depth(k) == Depth(k0) + 1)
    {
      k := k0;
      SiblingExists(k, t, h);
      Look(k, t);
      tmp := parent.left;
      if tmp.red {
        LoweredRight(k, t, h);
        k := LowerRight(parent, tmp, k, t);
        SiblingExists(k, t, h);
        Look(k, t);
        tmp := parent.left;
      }
    }

    method RemoveRoundRight(parent0: Node<K, V>, ghost k0: Path<K, V>, ghost t0: Tree<K, V>, ghost h0: nat)
      returns (done: bool, elm: Node?<K, V>, parent: Node?<K, V>, ghost k: Path<K, V>, ghost t: Tree<K, V>,
               ghost h: nat)
      requires k0.InRight? && k0.node == parent0 && At(k0, t0) && Short(k0, t0, h0) && !IsRed(t0)
      modifies this`root, nodes
      ensures At(k, t) && Whole(k, t) == Whole(k0, t0) && elm == Ptr(t)
      ensures if done then Fits(k, t, h) else Short(k, t, h) && parent == Par(k) && (IsRed(t) || Depth(k) < Depth(k0))
    {
      hide At, Whole, Fits, Short;
      parent := parent0;
      t, h := t0, h0;
      var tmp;
      tmp, k := BlackSiblingRight(parent, k0, t, h);
      SiblingExists(k, t, h);
      if (tmp.left == null || !tmp.left.red) && (tmp.right == null || !tmp.right.red) {
        Look(k, t);
        elm := parent;
        parent := elm.parent;
        t, h := RemoveRecolor(tmp, k, t, h);
        k := k.up;
        done := false;
      } else {
        if tmp.left == null || !tmp.left.red {
          StraightenedRight(k, t, h);
          k := StraightenRight(tmp, k, t);
          SiblingExists(k, t, h);
          Look(k, t);
          tmp := parent.left;
        }
        h := FinishedRight(k, t, h);
        t := FinishRight(parent, tmp, k, t);
        k, elm, done := k.up, tmp, true;
      }
    }

    /** Which of the two halves of RB_REMOVE_COLOR runs. */
    lemma LookHole(k: Path<K, V>, t: Tree<K, V>, h: nat)
      requires At(k, t) && Short(k, t, h)
      ensures k.Top? <==> Ptr(t) == root
      ensures !k.Top? ==> (k.InLeft? <==> k.node.left == Ptr(t))
      ensures t.Fork? ==> t.node in nodes && t.node.red == t.red
    {
      RootAbove(k, Ptr(t));
      if !k.Top? {
        SiblingExists(k, t, h);
        Look(k, t);
      }
    }

    lemma {:induction false} RootAbove(k: Path<K, V>, hole: Node?<K, V>)
      ensures k.Top? ==> RootPtr(k, hole) == hole
      ensures !k.Top? ==> RootPtr(k, hole) != null && RootPtr(k, hole) in Around(k)
      decreases k
    {
      if !k.Top? {
        RootAbove(k.up, k.node);
      }
    }

    /** The state of RB_REMOVE_COLOR: `elm`, possibly null, stands one black node short below `parent`. */
    ghost predicate Lacking(parent: Node?<K, V>, elm: Node?<K, V>, k: Path<K, V>, t: Tree<K, V>, h: nat)
      reads this, nodes
    {
      && At(k, t) && Short(k, t, h) && parent == Par(k) && elm == Ptr(t)
      && (k.Top? <==> elm == root) && (elm != null ==> elm in nodes && elm.red == IsRed(t))
    }

    /** One round of the loop; in its last round `elm` is the root of the repaired tree. */
    method RemoveRound(parent0: Node?<K, V>, elm0: Node?<K, V>, ghost k0: Path<K, V>, ghost t0: Tree<K, V>,
                       ghost h0: nat)
      returns (done: bool, elm: Node?<K, V>, parent: Node?<K, V>, ghost k: Path<K, V>, ghost t: Tree<K, V>,
               ghost h: nat)
      requires Lacking(parent0, elm0, k0, t0, h0) && !IsRed(t0) && !k0.Top?
      modifies this`root, nodes
      ensures Lacking(parent, elm, k, t, h) && Whole(k, t) == Whole(k0, t0)
      ensures if done then k.Top? else IsRed(t) || Depth(k) < Depth(k0)
    {
      LookHole(k0, t0, h0);
      if parent0.left == elm0 {
        done, elm, parent, k, t, h := RemoveRoundLeft(parent0, k0, t0, h0);
      } else {
        done, elm, parent, k, t, h := RemoveRoundRight(parent0, k0, t0, h0);
      }
      if done {
        elm, parent := root, null;
        h := Surface(k, t, h);
        k, t := Top, Plug(k, t);
      }
      LookHole(k, t, h);
    }

    lemma Surface(k: Path<K, V>, t: Tree<K, V>, h: nat) returns (h': nat)
      requires At(k, t) && Fits(k, t, h)
      ensures At(Top, Plug(k, t)) && Short(Top, Plug(k, t), h') && !IsRed(Plug(k, t))
      ensures Whole(Top, Plug(k, t)) == Whole(k, t) && root == Ptr(Plug(k, t))
    {
      ZipPlug(root, k, t);
      PlugFits(k, t, h);
      h' :| RbOk(Plug(k, t), h');
    }

    /** RB_REMOVE_COLOR (tree.h:445-518). */
    method RemoveColor(parent0: Node?<K, V>, elm0: Node?<K, V>, ghost k0: Path<K, V>, ghost t0: Tree<K, V>,
                       ghost h0: nat)
      requires At(k0, t0) && Short(k0, t0, h0) && parent0 == Par(k0) && elm0 == Ptr(t0)
      modifies this`root, this`shape, nodes
      ensures At(Top, shape) && IsRedBlack(shape) && Inorder(shape) == Whole(k0, t0)
    {
      var elm, parent, done := elm0, parent0, false;
      ghost var k, t, h: nat := k0, t0, h0;
      LookHole(k, t, h);
      while (elm == null || !elm.red) && elm != root
        invariant Lacking(parent, elm, k, t, h) && Whole(k, t) == Whole(k0, t0)
        decreases if IsRed(t) then 0 else Depth(k) + 1
      {
        done, elm, parent, k, t, h := RemoveRound(parent, elm, k, t, h);
        if done {
          break;
        }
      }
      RemoveDone(elm, k, t, h);
    }

    /** The last lines of RB_REMOVE_COLOR: the node where the loop stopped turns black. */
    method RemoveDone(elm: Node?<K, V>, ghost k: Path<K, V>, ghost t: Tree<K, V>, ghost h: nat)
      requires At(k, t) && Short(k, t, h) && elm == Ptr(t) && (IsRed(t) || k.Top?)
      requires elm != null ==> elm in nodes
      modifies this`shape, nodes
      ensures At(Top, shape) && IsRedBlack(shape) && Inorder(shape) == Whole(k, t)
    {
      ghost var t' := t;
      if elm != null {
        Paint(elm, false, k, t);
        t' := t.(red := false);
      }
      assert Inorder(t') == Inorder(t);
      ghost var h' := if IsRed(t) then h + 1 else h;
      assert Fits(k, t', h');
      PlugFits(k, t', h');
      Settle(k, t');
    }

    // -------------------------------------------------------------------------------
    // Deleting: RB_REMOVE

    lemma {:induction false} AppendAt(inner: Path<K, V>, outer: Path<K, V>, t: Tree<K, V>)
      ensures At(Append(inner, outer), t) <==> At(outer, Plug(inner, t))
      decreases inner
    {
      if !inner.Top? {
        Climb(Append(inner, outer), t);
        AppendAt(inner.up, outer, Refill(inner, t));
      }
    }

    /** The only child of a node, which takes its place (tree.h:537-546, 571-580). */
    ghost function OnlyChild(t: Tree<K, V>): Tree<K, V>
      requires t.Fork?
    {
      if t.left.Leaf? then t.right else t.left
    }

    method Unlink(elm: Node<K, V>, child: Node?<K, V>, parent: Node?<K, V>, ghost k: Path<K, V>, ghost t: Tree<K, V>)
      requires At(k, t) && t.Fork? && t.node == elm && (t.left.Leaf? || t.right.Leaf?)
      requires child == Ptr(OnlyChild(t)) && parent == Par(k)
      modifies this`root, this`nodes, nodes
      ensures At(k, OnlyChild(t)) && nodes == old(nodes) - {elm} && unchanged(elm)
    {
      ghost var c := OnlyChild(t);
      assert Stands(c, elm) && Nodes(t) == Nodes(c) + {elm} && Apart(c);
      assert c.Fork? ==> c.node in Nodes(c);
      if !k.Top? {
        Look(k, t);
      }
      nodes := nodes - {elm};
      if child != null {
        child.parent := parent;
      }
      Relink(parent, elm, child);
      Adopted(c);
      Rehung(k);
    }

    lemma SwapNodes(all: set<Node<K, V>>, k: Path<K, V>, t: Tree<K, V>, elm: Node<K, V>)
      requires t.Fork? && Apart(t) && Around(k) !! Nodes(t) && elm !in all && Around(k) + Nodes(t) == all
      ensures Around(k) + Nodes(t.(node := elm)) == all - {t.node} + {elm}
    {
      assert Nodes(t) == Nodes(t.left) + {t.node} + Nodes(t.right);
    }

    /** The writes of tree.h:549-560: four fields and the three links to the old node. */
    method CopyEntry(elm: Node<K, V>, old': Node<K, V>)
      requires elm != old' && old'.left != null && old'.left != elm && old'.right != elm && old'.parent != elm
      requires old'.left != old'.right && old'.left != old' && old'.right != old' && old'.parent != old'
      requires old'.parent != null ==> old'.parent != old'.left && old'.parent != old'.right
      modifies this`root, elm, old'.left, Opt(old'.right), Opt(old'.parent)
      ensures elm.left == old'.left && elm.right == old'.right && elm.parent == old'.parent && elm.red == old'.red
      ensures var l := old'.left;
              l.parent == elm && l.left == old(l.left) && l.right == old(l.right) &&
              l.red == old(l.red)
      ensures var r := old'.right; r != null ==>
              r.parent == elm && r.left == old(r.left) && r.right == old(r.right) && r.red == old(r.red)
      ensures var p := old'.parent; if p == null then root == elm else
        && root == old(root) && p.parent == old(p.parent) && p.red == old(p.red)
        && (if old' == old(p.left) then p.left == elm && p.right == old(p.right)
            else p.right == elm && p.left == old(p.left))
    {
      elm.left, elm.right, elm.parent, elm.red := old'.left, old'.right, old'.parent, old'.red;
      Relink(old'.parent, old', elm);
      old'.left.parent := elm;
      if old'.right != null {
        old'.right.parent := elm;
      }
    }

    /** What the copied fields mean for the subtree: its root has been exchanged. */
    twostate lemma TookRoot(t: Tree<K, V>)
      requires t.Fork? && t.left.Fork? && Apart(t) && Nodes(t) <= old(nodes) && old(Stands(t, t.node.parent))
      requires var l, r, elm := t.left, t.right, t.left.node.parent;
        && elm != null && elm.left == l.node && elm.right == Ptr(r) && elm.red == t.red
        && unchanged(l.node`left) && unchanged(l.node`right) && unchanged(l.node`red)
        && (r.Fork? ==>
            r.node.parent == elm && unchanged(r.node`left) && unchanged(r.node`right) &&
            unchanged(r.node`red))
      requires forall n <- Nodes(t) :: n != t.left.node && n != Ptr(t.right) && n != t.node ==> unchanged(n)
      ensures Stands(Fork(t.left, t.red, t.left.node.parent, t.right), t.left.node.parent.parent)
    {
      assert old(Stands(t.left, t.node)) && old(Stands(t.right, t.node));
      Adopted(t.left);
      Adopted(t.right);
    }

    /** `elm` takes the place of the node `old'` with all that hangs below it. */
    method TakePlace(elm: Node<K, V>, old': Node<K, V>, ghost k: Path<K, V>, ghost t: Tree<K, V>)
      requires At(k, t) && t.Fork? && t.node == old' && t.left.Fork? && elm !in nodes
      modifies this`root, this`nodes, nodes, elm
      ensures At(k, t.(node := elm)) && nodes == old(nodes) - {old'} + {elm}
    {
      Entry(k, t);
      SwapNodes(nodes, k, t, elm);
      nodes := nodes - {old'} + {elm};
      CopyEntry(elm, old');
      TookRoot(t);
      Rehung(k);
    }

    /** Where the links of a node lead. */
    lemma Entry(k: Path<K, V>, t: Tree<K, V>)
      requires At(k, t) && t.Fork? && t.left.Fork?
      ensures var n, l, r := t.node, t.left, t.right;
        && n.left == l.node && n.right == Ptr(r) && n.parent == Par(k) && n.red == t.red
        && n in nodes && l.node in nodes && l.node != n &&
           (r.Fork? ==> r.node in nodes && r.node != n && r.node != l.node)
        && l.node in Nodes(t) && (r.Fork? ==> r.node in Nodes(t))
      ensures !k.Top? ==> k.node in nodes && k.node !in Nodes(t) && (k.InLeft? <==> k.node.left == t.node)
    {
      var l, r := t.left, t.right;
      assert Nodes(t) == Nodes(l) + {t.node} + Nodes(r);
      assert l.node in Nodes(l) && (r.Fork? ==> r.node in Nodes(r));
      assert Stands(l, t.node) && Stands(r, t.node);
      if !k.Top? {
        Look(k, t);
      }
    }

    /** The next element in a nonempty right subtree (tree.h:531-533). */
    method Successor(elm0: Node<K, V>, ghost k1: Path<K, V>, ghost t1: Tree<K, V>, ghost h1: nat)
      returns (elm: Node<K, V>, ghost inner: Path<K, V>, ghost t: Tree<K, V>, ghost h: nat)
      requires At(k1, t1) && Fits(k1, t1, h1) && t1.Fork? && t1.node == elm0
      ensures At(Append(inner, k1), t) && Fits(Append(inner, k1), t, h) && AllLeft(inner)
      ensures t.Fork? && t.node == elm && t.left.Leaf?
      ensures Whole(Append(inner, k1), t) == Whole(k1, t1)
    {
      elm := elm0;
      inner, t, h := Top, t1, h1;
      var left := elm.left;
      while left != null
        invariant At(Append(inner, k1), t) && Fits(Append(inner, k1), t, h) && AllLeft(inner)
        invariant t.Fork? && t.node == elm && left == elm.left
        invariant Whole(Append(inner, k1), t) == Whole(k1, t1)
        decreases t
      {
        elm := left;
        ghost var k := InLeft(inner, t.red, t.node, t.right);
        assert Append(k, k1) == InLeft(Append(inner, k1), t.red, t.node, t.right);
        assert Refill(Append(k, k1), t.left) == t;
        h := Down(Append(k, k1), t.left, h);
        inner, t := k, t.left;
        left := elm.left;
      }
    }

    /** What a hole asks for once a node with at most one child has left it (tree.h:581-583). */
    lemma HoleColour(k: Path<K, V>, t: Tree<K, V>, h: nat) returns (h': nat)
      requires Fits(k, t, h) && t.Fork? && (t.left.Leaf? || t.right.Leaf?)
      ensures if t.red then OnlyChild(t).Leaf? && Fits(k, Leaf, h') else Short(k, OnlyChild(t), h')
    {
      h' := if t.red then h else h - 1;
      if t.red {
        assert RbOk(t.left, h) && RbOk(t.right, h) && !IsRed(t.left) && !IsRed(t.right);
      } else {
        assert RbOk(OnlyChild(t), h - 1);
      }
    }

    /** The end of RB_REMOVE: repair the colours if a black node has gone (tree.h:581-583). */
    method Repair(color: bool, parent: Node?<K, V>, child: Node?<K, V>, ghost k: Path<K, V>, ghost t: Tree<K, V>,
                  ghost h: nat)
      requires At(k, t) && parent == Par(k) && child == Ptr(t)
      requires if color then Fits(k, t, h) else Short(k, t, h)
      modifies this`root, this`shape, nodes
      ensures At(Top, shape) && IsRedBlack(shape) && Inorder(shape) == Whole(k, t)
    {
      if !color {
        RemoveColor(parent, child, k, t, h);
      } else {
        PlugFits(k, t, h);
        Settle(k, t);
      }
    }

    lemma WithoutSimple(k: Path<K, V>, t: Tree<K, V>) returns (a: seq<Node<K, V>>, b: seq<Node<K, V>>)
      requires t.Fork? && (t.left.Leaf? || t.right.Leaf?)
      ensures Whole(k, t) == a + [t.node] + b && Whole(k, OnlyChild(t)) == a + b
    {
      a, b := Before(k) + Inorder(t.left), Inorder(t.right) + After(k);
      WholeSplit(k, t);
      if t.left.Leaf? {
        assert Before(k) + Inorder(t.right) + After(k) == (Before(k) + []) + (Inorder(t.right) + After(k));
      } else {
        assert [] + After(k) == After(k);
      }
    }

    /** RB_REMOVE of a node with at most one child (tree.h:525-528, 569-583). */
    method RemoveSimple(elm: Node<K, V>, ghost k: Path<K, V>, ghost t: Tree<K, V>, ghost h: nat)
      returns (ghost a: seq<Node<K, V>>, ghost b: seq<Node<K, V>>)
      requires At(k, t) && Fits(k, t, h) && t.Fork? && t.node == elm && (t.left.Leaf? || t.right.Leaf?)
      modifies this`root, this`shape, this`nodes, nodes
      ensures At(Top, shape) && IsRedBlack(shape) && nodes == old(nodes) - {elm}
      ensures Whole(k, t) == a + [elm] + b && Contents() == a + b
    {
      a, b := WithoutSimple(k, t);
      var child := if elm.left == null then elm.right else elm.left;
      var parent, color := elm.parent, elm.red;
      ghost var h' := HoleColour(k, t, h);
      Unlink(elm, child, parent, k, t);
      Repair(color, parent, child, k, OnlyChild(t), h');
    }

    lemma JoinAt<T>(a: seq<T>, o: seq<T>, n: seq<T>, r: seq<T>, x: seq<T>)
      ensures a + o + (n + r) + x == a + o + ((n + r) + x)
      ensures a + n + r + x == a + ((n + r) + x)
    {
    }

    lemma WithoutLeft(t: Tree<K, V>)
      requires t.Fork? && t.left.Leaf?
      ensures Inorder(t) == [t.node] + Inorder(t.right)
    {
    }

    /** The order of the nodes when the successor at the end of `inner` has replaced the node above it. */
    lemma Replaced(inner: Path<K, V>, k: Path<K, V>, old': Tree<K, V>, t: Tree<K, V>)
      requires old'.Fork? && t.Fork? && t.left.Leaf? && AllLeft(inner)
      ensures var above := InRight(k, old'.red, old'.node, old'.left);
        var below := Append(inner, WithNode(above, t.node));
        && Whole(Append(inner, above), t) == Before(k) + Inorder(old'.left) + [old'.node] + (Inorder(t) + After(below))
        && Whole(below, t.right) == Before(k) + Inorder(old'.left) + (Inorder(t) + After(below))
    {
      var above := InRight(k, old'.red, old'.node, old'.left);
      var above' := InRight(k, old'.red, t.node, old'.left);
      AppendLeft(inner, above, above');
      AppendLeft(inner, above', above');
      WithoutLeft(t);
      var a := Before(k) + Inorder(old'.left);
      JoinAt(a, [old'.node], [t.node], Inorder(t.right), After(Append(inner, above')));
      assert Before(Append(inner, above)) == a + [old'.node];
      assert Before(Append(inner, above')) == a + [t.node];
    }

    /** Seen from `outer`, the hole at the end of `inner` is a hole in the subtree below `outer`. */
    lemma InnerOuter(inner: Path<K, V>, k: Path<K, V>, top: Tree<K, V>, t: Tree<K, V>)
      requires top.Fork?
      ensures var outer := InRight(k, top.red, top.node, top.left);
        At(Append(inner, outer), t) <==> At(k, top.(right := Plug(inner, t)))
    {
      var outer := InRight(k, top.red, top.node, top.left);
      AppendAt(inner, outer, t);
      Climb(outer, Plug(inner, t));
    }

    /** The successor of `old'` leaves its place (tree.h:534-548). */
    method Detach(old': Node<K, V>, ghost k: Path<K, V>, ghost t: Tree<K, V>, ghost inner: Path<K, V>,
                  ghost e: Tree<K, V>, elm: Node<K, V>)
      returns (child: Node?<K, V>, parent: Node?<K, V>, color: bool, ghost t': Tree<K, V>)
      requires t.Fork? && t.node == old' && e.Fork? && e.node == elm && e.left.Leaf?
      requires At(Append(inner, InRight(k, t.red, old', t.left)), e)
      modifies this`root, this`nodes, nodes
      ensures parent == (if inner.Top? then elm else inner.node) && child == Ptr(e.right) && color == e.red
      ensures t' == t.(right := Plug(inner, e.right)) && At(k, t')
      ensures elm in old(nodes) && elm != old' && old' in old(nodes) && nodes == old(nodes) - {elm}
    {
      ghost var above := InRight(k, t.red, old', t.left);
      Distinct(inner, above, e);
      assert e.node in Nodes(e);
      child, parent, color := elm.right, elm.parent, elm.red;
      Unlink(elm, child, parent, Append(inner, above), e);
      InnerOuter(inner, k, t, e.right);
      if elm.parent == old' {
        parent := elm;
      }
      t' := t.(right := Plug(inner, e.right));
    }

    /** The successor of `old'` leaves its place and takes that of `old'` (tree.h:529-560). */
    method MoveUp(old': Node<K, V>, ghost k: Path<K, V>, ghost t: Tree<K, V>, ghost inner: Path<K, V>,
                  ghost e: Tree<K, V>, elm: Node<K, V>)
      returns (child: Node?<K, V>, parent: Node?<K, V>, color: bool)
      requires t.Fork? && t.node == old' && t.left.Fork? && e.Fork? && e.node == elm && e.left.Leaf?
      requires At(Append(inner, InRight(k, t.red, old', t.left)), e)
      modifies this`root, this`nodes, nodes
      ensures var below := Append(inner, InRight(k, t.red, elm, t.left));
        At(below, e.right) && parent == Par(below) && child == Ptr(e.right) && color == e.red
      ensures nodes == old(nodes) - {old'}
    {
      hide At, Plug;
      ghost var t';
      child, parent, color, t' := Detach(old', k, t, inner, e, elm);
      TakePlace(elm, old', k, t');
      InnerOuter(inner, k, t.(node := elm), e.right);
    }

    /** The node of `outer` differs from those inside, and is the parent of `t` exactly if nothing is between. */
    lemma {:induction false} Distinct(inner: Path<K, V>, outer: Path<K, V>, t: Tree<K, V>)
      requires !outer.Top? && ApartPath(Append(inner, outer)) && Around(Append(inner, outer)) !! Nodes(t)
      ensures outer.node in Around(Append(inner, outer)) && outer.node !in Nodes(t)
      ensures Par(Append(inner, outer)) == outer.node <==> inner.Top?
      decreases inner
    {
      if !inner.Top? {
        Distinct(inner.up, outer, Leaf);
      }
    }

    lemma FitsRenamed(inner: Path<K, V>, above: Path<K, V>, above': Path<K, V>, t: Tree<K, V>, h: nat)
      requires above.InRight? && above'.InRight? && above' == WithNode(above, above'.node)
      requires Fits(Append(inner, above), t, h)
      ensures Fits(Append(inner, above'), t, h)
    {
      AppendOk(inner, above, above', h);
    }

    /** RB_REMOVE of a node with two children (tree.h:529-568, 581-583). */
    method RemoveInner(old': Node<K, V>, ghost k: Path<K, V>, ghost t: Tree<K, V>, ghost h: nat)
      returns (ghost a: seq<Node<K, V>>, ghost b: seq<Node<K, V>>)
      requires At(k, t) && Fits(k, t, h) && t.Fork? && t.node == old' && t.left.Fork? && t.right.Fork?
      modifies this`root, this`shape, this`nodes, nodes
      ensures At(Top, shape) && IsRedBlack(shape) && nodes == old(nodes) - {old'}
      ensures Whole(k, t) == a + [old'] + b && Contents() == a + b
    {
      hide At, Fits, Short, Whole, IsRedBlack, AllLeft;
      ghost var above := InRight(k, t.red, old', t.left);
      ghost var h1 := Down(above, t.right, h);
      var elm;
      ghost var inner, e, he;
      elm, inner, e, he := Successor(old'.right, above, t.right, h1);
      ghost var above' := WithNode(above, elm);
      ghost var below := Append(inner, above');
      FitsRenamed(inner, above, above', e, he);
      ghost var h' := HoleColour(below, e, he);
      Replaced(inner, k, t, e);
      var child, parent, color := MoveUp(old', k, t, inner, e, elm);
      Repair(color, parent, child, below, e.right, h');
      a, b := Before(k) + Inorder(t.left), Inorder(e) + After(below);
    }

    lemma Elements()
      requires At(Top, shape)
      ensures Elems(Contents()) == nodes
    {
      InorderNodes(shape);
      assert Around<K, V>(Top) + Nodes(shape) == Nodes(shape);
    }

    lemma AscendingWithout(a: seq<Node<K, V>>, x: Node<K, V>, b: seq<Node<K, V>>)
      requires Ascending(a + [x] + b)
      ensures Ascending(a + b)
    {
      var s, w := a + [x] + b, a + b;
      forall i, j | 0 <= i < j < |w|
        ensures compare(w[i].key, w[j].key) < 0
      {
        var i', j' := if i < |a| then i else i + 1, if j < |a| then j else j + 1;
        assert w[i] == s[i'] && w[j] == s[j'];
      }
    }

    /** RB_REMOVE, whichever number of children `elm` has. */
    method RemoveNode(elm: Node<K, V>) returns (ghost before: seq<Node<K, V>>, ghost after: seq<Node<K, V>>)
      requires At(Top, shape) && IsRedBlack(shape) && elm in nodes
      modifies this`root, this`shape, this`nodes, nodes
      ensures At(Top, shape) && IsRedBlack(shape) && nodes == old(nodes) - {elm}
      ensures old(Contents()) == before + [elm] + after && Contents() == before + after
    {
      ghost var h: nat :| RbOk(shape, h);
      ghost var k, t;
      assert Around<K, V>(Top) + Nodes(shape) == Nodes(shape);
      k, t, h := Locate(root, Top, shape, h, elm);
      assert Contents() == Whole(Top, shape);
      if elm.left == null || elm.right == null {
        before, after := RemoveSimple(elm, k, t, h);
      } else {
        before, after := RemoveInner(elm, k, t, h);
      }
    }

    /** RB_REMOVE (tree.h:521-585): exactly `elm` leaves the tree. */
    method Remove(elm: Node<K, V>) returns (ghost before: seq<Node<K, V>>, ghost after: seq<Node<K, V>>)
      requires Valid() && elm in nodes
      modifies this`root, this`shape, this`nodes, nodes
      ensures Valid() && nodes == old(nodes) - {elm}
      ensures old(Contents()) == before + [elm] + after && Contents() == before + after
    {
      before, after := RemoveNode(elm);
      AscendingWithout(before, elm, after);
    }

    /** The elements have different keys. */
    lemma Unique(m: Node<K, V>, n: Node<K, V>)
      requires Valid() && m in nodes && n in nodes && compare(m.key, n.key) == 0
      ensures m == n
    {
      Elements();
      assert m in Elems(Contents()) && n in Elems(Contents());
    }

    // -------------------------------------------------------------------------------
    // Iterating

    ghost function First(s: seq<Node<K, V>>): Node?<K, V> {
      if s == [] then null else s[0]
    }

    /** RB_MIN (tree.h:700-712 with val < 0). */
    method Min() returns (r: Node?<K, V>)
      requires Valid()
      ensures r == First(Contents())
    {
      var tmp := root;
      r := null;
      ghost var k, t := Path<K, V>.Top, shape;
      ghost var h: nat :| RbOk(shape, h);
      assert Whole(Top, shape) == Contents();
      while tmp != null
        invariant At(k, t) && Fits(k, t, h) && tmp == Ptr(t) && AllLeft(k) && r == Par(k)
        invariant Whole(k, t) == Contents() && Before(k) == []
        decreases t
      {
        r := tmp;
        ghost var k' := InLeft(k, t.red, t.node, t.right);
        assert Refill(k', t.left) == t;
        h := Down(k', t.left, h);
        k, t := k', t.left;
        tmp := tmp.left;
      }
    }

    /** Where an element stands in the order determines its split. */
    lemma SameSplit(s: seq<Node<K, V>>, x: Node<K, V>, a: seq<Node<K, V>>, b: seq<Node<K, V>>,
                    a': seq<Node<K, V>>, b': seq<Node<K, V>>)
      requires Ordering(compare) && Ascending(s) && s == a + [x] + b && s == a' + [x] + b'
      ensures a == a' && b == b'
    {
      assert s[|a|] == x && s[|a'|] == x;
      assert |a| == |a'|;
      assert a == s[..|a|] && a' == s[..|a'|] && b == s[|a| + 1..] && b' == s[|a'| + 1..];
    }

    /** RB_NEXT within a right subtree (tree.h:660-663). */
    method NextBelow(elm0: Node<K, V>, ghost k0: Path<K, V>, ghost t0: Tree<K, V>) returns (elm: Node<K, V>)
      requires At(k0, t0) && t0.Fork? && t0.node == elm0
      ensures Inorder(t0) != [] && elm == Inorder(t0)[0]
    {
      elm := elm0;
      ghost var k, t := k0, t0;
      while elm.left != null
        invariant At(k, t) && t.Fork? && t.node == elm
        invariant Inorder(t0) != [] && Inorder(t) != [] && Inorder(t)[0] == Inorder(t0)[0]
        decreases t
      {
        ghost var k' := InLeft(k, t.red, t.node, t.right);
        assert Refill(k', t.left) == t;
        Climb(k', t.left);
        assert t.left.Fork? ==> Inorder(t.left) != [];
        elm, k, t := elm.left, k', t.left;
      }
    }

    /** RB_NEXT of a node without right child (tree.h:665-673). */
    method NextAbove(elm0: Node<K, V>, ghost k0: Path<K, V>, ghost t0: Tree<K, V>) returns (elm: Node?<K, V>)
      requires At(k0, t0) && t0.Fork? && t0.node == elm0
      ensures elm == First(After(k0))
    {
      elm := elm0;
      if !k0.Top? {
        Look(k0, t0);
      }
      if elm.parent != null && elm == elm.parent.left {
        elm := elm.parent;
      } else {
        ghost var k, t := k0, t0;
        while elm.parent != null && elm == elm.parent.right
          invariant elm != null && At(k, t) && t.Fork? && t.node == elm && After(k) == After(k0)
          decreases k
        {
          Look(k, t);
          Climb(k, t);
          elm := elm.parent;
          k, t := k.up, Refill(k, t);
        }
        if !k.Top? {
          Look(k, t);
        }
        elm := elm.parent;
      }
    }

    /** The place of an element in the tree and in the order. */
    lemma Place(elm: Node<K, V>, before: seq<Node<K, V>>, after: seq<Node<K, V>>)
      returns (k: Path<K, V>, t: Tree<K, V>)
      requires Valid() && Contents() == before + [elm] + after
      ensures At(k, t) && t.Fork? && t.node == elm && elm in nodes
      ensures before == Before(k) + Inorder(t.left) && after == Inorder(t.right) + After(k)
    {
      var h: nat :| RbOk(shape, h);
      Elements();
      assert (before + [elm] + after)[|before|] in Elems(Contents());
      assert Whole(Top, shape) == Contents();
      k, t, h := Locate(root, Top, shape, h, elm);
      WholeSplit(k, t);
      SameSplit(Contents(), elm, before, after, Before(k) + Inorder(t.left), Inorder(t.right) + After(k));
    }

    /** RB_NEXT (tree.h:658-676): the element that follows in the order, or null after the last one. */
    method Next(elm: Node<K, V>, ghost before: seq<Node<K, V>>, ghost after: seq<Node<K, V>>) returns (r: Node?<K, V>)
      requires Valid() && Contents() == before + [elm] + after
      ensures r == First(after)
    {
      ghost var k, t := Place(elm, before, after);
      if elm.right != null {
        ghost var k' := InRight(k, t.red, elm, t.left);
        Climb(k', t.right);
        r := NextBelow(elm.right, k', t.right);
      } else {
        r := NextAbove(elm, k, t);
        assert [] + After(k) == After(k);
      }
    }

    /** RB_FOREACH (tree.h:726-729): every element once, in ascending order. */
    method Walk() returns (visited: seq<Node<K, V>>)
      requires Valid()
      ensures visited == Contents()
    {
      visited := [];
      ghost var rest := Contents();
      var x := Min();
      while x != null
        invariant Contents() == visited + rest && x == First(rest)
        decreases |rest|
      {
        Regain(visited, rest);
        var y := Next(x, visited, rest[1..]);
        visited, rest, x := visited + [x], rest[1..], y;
      }
    }

    lemma Regain(a: seq<Node<K, V>>, b: seq<Node<K, V>>)
      requires b != []
      ensures a + b == a + [b[0]] + b[1..]
    {
    }
  }
}
