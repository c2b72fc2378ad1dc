/** The top-down splay trees of mprofile/utils/tree.h. */
module SplayTree {
  import opened RbTree

  /** SPLAY_ENTRY embedded in the element `elem`. */
  class SNode<K, V> {
    var left: SNode?<K, V>
    var right: SNode?<K, V>
    const key: K
    const elem: V

    constructor (key: K, elem: V)
      ensures this.key == key && this.elem == elem && left == null && right == null
    {
      this.key, this.elem, left, right := key, elem, null, null;
    }
  }

  datatype Shape<K, V> = Empty | Bin(left: Shape<K, V>, node: SNode<K, V>, right: Shape<K, V>)

  ghost function Nodes<K, V>(t: Shape<K, V>): set<SNode<K, V>> {
    if t.Empty? then {} else Nodes(t.left) + {t.node} + Nodes(t.right)
  }

  ghost function Inorder<K, V>(t: Shape<K, V>): seq<SNode<K, V>> {
    if t.Empty? then [] else Inorder(t.left) + [t.node] + Inorder(t.right)
  }

  ghost function Ptr<K, V>(t: Shape<K, V>): SNode?<K, V> {
    if t.Empty? then null else t.node
  }

  ghost predicate Apart<K, V>(t: Shape<K, V>) {
    t.Bin? ==>
      && Apart(t.left) && Apart(t.right)
      && t.node !in Nodes(t.left) && t.node !in Nodes(t.right) && Nodes(t.left) !! Nodes(t.right)
  }

  /** The objects of `t` are linked as `t` says. */
  ghost predicate Stands<K, V>(t: Shape<K, V>)
    reads Nodes(t)
  {
    t.Bin? ==> t.node.left == Ptr(t.left) && t.node.right == Ptr(t.right) && Stands(t.left) && Stands(t.right)
  }

  // ---------------------------------------------------------------------------------
  // The two trees that a splay collects

  /** A tree that is still open at one end: the last node taken in, with the subtree it keeps. In the left tree
      the open end is the right link of that node, in the right tree it is the left link. */
  datatype Spine<K, V> = Bare | Grown(up: Spine<K, V>, node: SNode<K, V>, sub: Shape<K, V>)

  ghost function SpineNodes<K, V>(k: Spine<K, V>): set<SNode<K, V>> {
    if k.Bare? then {} else SpineNodes(k.up) + {k.node} + Nodes(k.sub)
  }

  ghost predicate ApartSpine<K, V>(k: Spine<K, V>) {
    k.Grown? ==>
      && ApartSpine(k.up) && Apart(k.sub)
      && k.node !in SpineNodes(k.up) && k.node !in Nodes(k.sub) && SpineNodes(k.up) !! Nodes(k.sub)
  }

  ghost function LeftOrder<K, V>(k: Spine<K, V>): seq<SNode<K, V>> {
    if k.Bare? then [] else LeftOrder(k.up) + Inorder(k.sub) + [k.node]
  }

  ghost function RightOrder<K, V>(k: Spine<K, V>): seq<SNode<K, V>> {
    if k.Bare? then [] else [k.node] + Inorder(k.sub) + RightOrder(k.up)
  }

  /** The node with the open link; `header` before there is any. */
  ghost function End<K, V>(k: Spine<K, V>, header: SNode<K, V>): (e: SNode<K, V>)
    ensures e in SpineNodes(k) + {header}
  {
    if k.Bare? then header else k.node
  }

  /** The left tree hangs on the right link of the header. */
  ghost predicate LeftHangs<K, V>(k: Spine<K, V>, header: SNode<K, V>)
    reads SpineNodes(k), header`right
  {
    k.Grown? ==>
      && End(k.up, header).right == k.node && k.node.left == Ptr(k.sub) && Stands(k.sub) && LeftHangs(k.up, header)
  }

  /** The right tree hangs on the left link of the header. */
  ghost predicate RightHangs<K, V>(k: Spine<K, V>, header: SNode<K, V>)
    reads SpineNodes(k), header`left
  {
    k.Grown? ==>
      && End(k.up, header).left == k.node && k.node.right == Ptr(k.sub) && Stands(k.sub) && RightHangs(k.up, header)
  }

  /** The tree that arises when `t` fills the open end. */
  ghost function LeftFilled<K, V>(k: Spine<K, V>, t: Shape<K, V>): Shape<K, V>
    decreases k
  {
    if k.Bare? then t else LeftFilled(k.up, Bin(k.sub, k.node, t))
  }

  ghost function RightFilled<K, V>(k: Spine<K, V>, t: Shape<K, V>): Shape<K, V>
    decreases k
  {
    if k.Bare? then t else RightFilled(k.up, Bin(t, k.node, k.sub))
  }

  lemma Assoc<T>(a: seq<T>, b: seq<T>, c: seq<T>, d: seq<T>)
    ensures a + (b + c + d) == (a + b + c) + d && a + b + c + d == a + (b + (c + d))
  {
  }

  lemma {:induction false} LeftFilledOk<K, V>(k: Spine<K, V>, header: SNode<K, V>, t: Shape<K, V>)
    requires ApartSpine(k) && Apart(t) && SpineNodes(k) !! Nodes(t) && header !in SpineNodes(k) && header !in Nodes(t)
    requires LeftHangs(k, header) && Stands(t) && End(k, header).right == Ptr(t)
    ensures Apart(LeftFilled(k, t)) && Stands(LeftFilled(k, t)) && header.right == Ptr(LeftFilled(k, t))
    ensures Nodes(LeftFilled(k, t)) == SpineNodes(k) + Nodes(t)
    ensures Inorder(LeftFilled(k, t)) == LeftOrder(k) + Inorder(t)
    decreases k
  {
    if k.Grown? {
      var t' := Bin(k.sub, k.node, t);
      Assoc(LeftOrder(k.up), Inorder(k.sub), [k.node], Inorder(t));
      LeftFilledOk(k.up, header, t');
    }
  }

  lemma {:induction false} RightFilledOk<K, V>(k: Spine<K, V>, header: SNode<K, V>, t: Shape<K, V>)
    requires ApartSpine(k) && Apart(t) && SpineNodes(k) !! Nodes(t) && header !in SpineNodes(k) && header !in Nodes(t)
    requires RightHangs(k, header) && Stands(t) && End(k, header).left == Ptr(t)
    ensures Apart(RightFilled(k, t)) && Stands(RightFilled(k, t)) && header.left == Ptr(RightFilled(k, t))
    ensures Nodes(RightFilled(k, t)) == SpineNodes(k) + Nodes(t)
    ensures Inorder(RightFilled(k, t)) == Inorder(t) + RightOrder(k)
    decreases k
  {
    if k.Grown? {
      var t' := Bin(t, k.node, k.sub);
      Assoc(Inorder(t), [k.node], Inorder(k.sub), RightOrder(k.up));
      RightFilledOk(k.up, header, t');
    }
  }

  /** A rotation keeps the nodes and their order. */
  lemma Regroup<K, V>(a: Shape<K, V>, x: SNode<K, V>, b: Shape<K, V>, y: SNode<K, V>, c: Shape<K, V>)
    ensures var t, t' := Bin(Bin(a, x, b), y, c), Bin(a, x, Bin(b, y, c));
            Nodes(t) == Nodes(t') && (Apart(t) <==> Apart(t')) && Inorder(t) == Inorder(t')
  {
    Assoc(Inorder(a), [x], Inorder(b), [y] + Inorder(c));
  }

  /** The places that a rotation does not touch. */
  lemma Parts<K, V>(a: Shape<K, V>, x: SNode<K, V>, b: Shape<K, V>, y: SNode<K, V>, c: Shape<K, V>)
    requires Apart(Bin(Bin(a, x, b), y, c)) || Apart(Bin(a, x, Bin(b, y, c)))
    ensures x != y
    ensures x !in Nodes(a) && x !in Nodes(b) && x !in Nodes(c)
    ensures y !in Nodes(a) && y !in Nodes(b) && y !in Nodes(c)
  {
    Regroup(a, x, b, y, c);
    assert Nodes(Bin(a, x, b)) == Nodes(a) + {x} + Nodes(b);
    assert Nodes(Bin(b, y, c)) == Nodes(b) + {y} + Nodes(c);
  }

  class SplayHead<K(!new), V> {
    var root: SNode?<K, V>
    const compare: (K, K) -> int
    ghost var shape: Shape<K, V>
    ghost var nodes: set<SNode<K, V>>

    /** SPLAY_INIT. */
    constructor (compare: (K, K) -> int)
      requires Ordering(compare)
      ensures Valid() && this.compare == compare && nodes == {}
    {
      this.compare := compare;
      root, shape, nodes := null, Empty, {};
    }

    ghost predicate Ascending(s: seq<SNode<K, V>>) {
      forall i, j :: 0 <= i < j < |s| ==> compare(s[i].key, s[j].key) < 0
    }

    ghost predicate Linked()
      reads this, nodes
    {
      nodes == Nodes(shape) && Apart(shape) && Stands(shape) && root == Ptr(shape)
    }

    /** A tree ordered by key. */
    ghost predicate Valid()
      reads this, nodes
    {
      Linked() && Ordering(compare) && Ascending(Inorder(shape))
    }

    ghost function Contents(): seq<SNode<K, V>>
      reads this
    {
      Inorder(shape)
    }

    /** All of `s` come before, or after, the key. */
    ghost predicate Below(s: seq<SNode<K, V>>, key: K) {
      forall i :: 0 <= i < |s| ==> compare(key, s[i].key) > 0
    }

    ghost predicate Above(s: seq<SNode<K, V>>, key: K) {
      forall i :: 0 <= i < |s| ==> compare(key, s[i].key) < 0
    }

    /** The two collected trees and the header, while the loop runs. */
    ghost predicate Collected(l: Spine<K, V>, r: Spine<K, V>, header: SNode<K, V>)
      reads SpineNodes(l), SpineNodes(r), header
    {
      && ApartSpine(l) && ApartSpine(r) && SpineNodes(l) !! SpineNodes(r)
      && header !in SpineNodes(l) && header !in SpineNodes(r) && LeftHangs(l, header) && RightHangs(r, header)
    }

    /** Besides, the tree in the middle. */
    ghost predicate Splaying(t: Shape<K, V>, l: Spine<K, V>, r: Spine<K, V>, header: SNode<K, V>)
      reads this, Nodes(t), SpineNodes(l), SpineNodes(r), header
    {
      && Collected(l, r, header) && Apart(t) && Stands(t) && root == Ptr(t)
      && Nodes(t) !! SpineNodes(l) && Nodes(t) !! SpineNodes(r) && header !in Nodes(t)
    }

    /** SPLAY_ROTATE_RIGHT. */
    method RotateRight(tmp: SNode<K, V>, ghost t: Shape<K, V>, ghost l: Spine<K, V>, ghost r: Spine<K, V>,
                       ghost header: SNode<K, V>)
      returns (ghost t': Shape<K, V>)
      requires Splaying(t, l, r, header) && t.Bin? && t.left.Bin? && tmp == t.left.node
      modifies this`root, t.node, t.left.node
      ensures t' == Bin(t.left.left, t.left.node, Bin(t.left.right, t.node, t.right))
      ensures Splaying(t', l, r, header) && Nodes(t') == Nodes(t) && Inorder(t') == Inorder(t)
    {
      hide Collected;
      assert t == Bin(Bin(t.left.left, t.left.node, t.left.right), t.node, t.right);
      Parts(t.left.left, t.left.node, t.left.right, t.node, t.right);
      Regroup(t.left.left, t.left.node, t.left.right, t.node, t.right);
      assert Stands(t.left);
      root.left := tmp.right;
      tmp.right := root;
      root := tmp;
      t' := Bin(t.left.left, t.left.node, Bin(t.left.right, t.node, t.right));
      assert Stands(t.left.left) == old(Stands(t.left.left));
      assert Stands(t.left.right) == old(Stands(t.left.right));
      assert Stands(t.right) == old(Stands(t.right));
      assert Collected(l, r, header) == old(Collected(l, r, header));
      assert Stands(t') && Apart(t');
    }

    /** SPLAY_ROTATE_LEFT. */
    method RotateLeft(tmp: SNode<K, V>, ghost t: Shape<K, V>, ghost l: Spine<K, V>, ghost r: Spine<K, V>,
                      ghost header: SNode<K, V>)
      returns (ghost t': Shape<K, V>)
      requires Splaying(t, l, r, header) && t.Bin? && t.right.Bin? && tmp == t.right.node
      modifies this`root, t.node, t.right.node
      ensures t' == Bin(Bin(t.left, t.node, t.right.left), t.right.node, t.right.right)
      ensures Splaying(t', l, r, header) && Nodes(t') == Nodes(t) && Inorder(t') == Inorder(t)
    {
      hide Collected;
      assert t == Bin(t.left, t.node, Bin(t.right.left, t.right.node, t.right.right));
      Parts(t.left, t.node, t.right.left, t.right.node, t.right.right);
      Regroup(t.left, t.node, t.right.left, t.right.node, t.right.right);
      assert Stands(t.right);
      root.right := tmp.left;
      tmp.left := root;
      root := tmp;
      t' := Bin(Bin(t.left, t.node, t.right.left), t.right.node, t.right.right);
      assert Stands(t.left) == old(Stands(t.left));
      assert Stands(t.right.left) == old(Stands(t.right.left));
      assert Stands(t.right.right) == old(Stands(t.right.right));
      assert Collected(l, r, header) == old(Collected(l, r, header));
      assert Stands(t') && Apart(t');
    }

    /** SPLAY_LINKLEFT: the root and what is right of it join the right tree. */
    method LinkLeft(right: SNode<K, V>, ghost t: Shape<K, V>, ghost l: Spine<K, V>, ghost r: Spine<K, V>,
                    ghost header: SNode<K, V>)
      returns (right': SNode<K, V>, ghost r': Spine<K, V>)
      requires Splaying(t, l, r, header) && t.Bin? && right == End(r, header)
      modifies this`root, right`left
      ensures r' == Grown(r, t.node, t.right) && right' == End(r', header) && Splaying(t.left, l, r', header)
    {
      hide LeftHangs, Inorder;
      right.left := root;
      right' := root;
      root := root.left;
      r' := Grown(r, t.node, t.right);
      assert Stands(t.left) == old(Stands(t.left));
      assert Stands(t.right) == old(Stands(t.right));
      assert LeftHangs(l, header) == old(LeftHangs(l, header));
      if r.Grown? {
        assert RightHangs(r.up, header) == old(RightHangs(r.up, header));
        assert Stands(r.sub) == old(Stands(r.sub));
      }
      assert RightHangs(r, header);
    }

    /** SPLAY_LINKRIGHT: the root and what is left of it join the left tree. */
    method LinkRight(left: SNode<K, V>, ghost t: Shape<K, V>, ghost l: Spine<K, V>, ghost r: Spine<K, V>,
                     ghost header: SNode<K, V>)
      returns (left': SNode<K, V>, ghost l': Spine<K, V>)
      requires Splaying(t, l, r, header) && t.Bin? && left == End(l, header)
      modifies this`root, left`right
      ensures l' == Grown(l, t.node, t.left) && left' == End(l', header) && Splaying(t.right, l', r, header)
    {
      hide RightHangs, Inorder;
      left.right := root;
      left' := root;
      root := root.right;
      l' := Grown(l, t.node, t.left);
      assert Stands(t.left) == old(Stands(t.left));
      assert Stands(t.right) == old(Stands(t.right));
      assert RightHangs(r, header) == old(RightHangs(r, header));
      if l.Grown? {
        assert LeftHangs(l.up, header) == old(LeftHangs(l.up, header));
        assert Stands(l.sub) == old(Stands(l.sub));
      }
      assert LeftHangs(l, header);
    }

    // -------------------------------------------------------------------------------
    // The search

    /** The three trees hold `all` in its order, cut where the key belongs. */
    ghost predicate Cut(key: K, t: Shape<K, V>, l: Spine<K, V>, r: Spine<K, V>, all: seq<SNode<K, V>>) {
      && all == LeftOrder(l) + Inorder(t) + RightOrder(r) && Ordering(compare) && Ascending(all)
      && Below(LeftOrder(l), key) && Above(RightOrder(r), key)
    }

    lemma AboveFrom(all: seq<SNode<K, V>>, a: seq<SNode<K, V>>, x: SNode<K, V>, b: seq<SNode<K, V>>, key: K)
      requires Ordering(compare) && Ascending(all) && all == a + ([x] + b) && compare(key, x.key) < 0
      ensures Above([x] + b, key)
    {
      forall i | 0 <= i < |[x] + b|
        ensures compare(key, ([x] + b)[i].key) < 0
      {
        assert ([x] + b)[i] == all[|a| + i] && x == all[|a|];
      }
    }

    lemma BelowFrom(all: seq<SNode<K, V>>, a: seq<SNode<K, V>>, x: SNode<K, V>, b: seq<SNode<K, V>>, key: K)
      requires Ordering(compare) && Ascending(all) && all == (a + [x]) + b && compare(key, x.key) > 0
      ensures Below(a + [x], key)
    {
      forall i | 0 <= i < |a + [x]|
        ensures compare(key, (a + [x])[i].key) > 0
      {
        assert (a + [x])[i] == all[i] && x == all[|a|];
      }
    }

    lemma Regrouped<T>(l: seq<T>, a: seq<T>, x: T, b: seq<T>, r: seq<T>)
      ensures l + (a + [x] + b) + r == (l + a) + ([x] + (b + r))
      ensures l + (a + [x] + b) + r == (l + a + [x]) + (b + r)
      ensures l + (a + [x] + b) + r == l + a + ([x] + b + r) && l + (a + [x] + b) + r == (l + a + [x]) + b + r
      ensures [x] + b + r == [x] + (b + r)
    {
    }

    lemma CutLeft(key: K, t: Shape<K, V>, l: Spine<K, V>, r: Spine<K, V>, all: seq<SNode<K, V>>)
      requires t.Bin? && Cut(key, t, l, r, all) && compare(key, t.node.key) < 0
      ensures Cut(key, t.left, l, Grown(r, t.node, t.right), all)
    {
      var a, b := Inorder(t.left), Inorder(t.right);
      Regrouped(LeftOrder(l), a, t.node, b, RightOrder(r));
      AboveFrom(all, LeftOrder(l) + a, t.node, b + RightOrder(r), key);
    }

    lemma CutRight(key: K, t: Shape<K, V>, l: Spine<K, V>, r: Spine<K, V>, all: seq<SNode<K, V>>)
      requires t.Bin? && Cut(key, t, l, r, all) && compare(key, t.node.key) > 0
      ensures Cut(key, t.right, Grown(l, t.node, t.left), r, all)
    {
      var a, b := Inorder(t.left), Inorder(t.right);
      Regrouped(LeftOrder(l), a, t.node, b, RightOrder(r));
      BelowFrom(all, LeftOrder(l) + a, t.node, b + RightOrder(r), key);
    }

    /** The loop of SPLAY stops here: the key is found, or there is nothing on its side. */
    ghost predicate Stopped(key: K, t: Shape<K, V>) {
      && t.Bin?
      && (compare(key, t.node.key) < 0 ==> t.left.Empty?)
      && (compare(key, t.node.key) > 0 ==> t.right.Empty?)
    }

    /** A turn of the loop towards smaller keys (tree.h:212-221). */
    method TurnLeft(key: K, right: SNode<K, V>, ghost t: Shape<K, V>, ghost l: Spine<K, V>, ghost r: Spine<K, V>,
                    ghost header: SNode<K, V>, ghost all: seq<SNode<K, V>>)
      returns (stop: bool, right': SNode<K, V>, ghost t': Shape<K, V>, ghost r': Spine<K, V>)
      requires Splaying(t, l, r, header) && t.Bin? && right == End(r, header) && Cut(key, t, l, r, all) &&
               compare(key, t.node.key) < 0
      modifies this`root, Nodes(t), SpineNodes(r), header
      ensures Splaying(t', l, r', header) && right' == End(r', header) && Cut(key, t', l, r', all) && t'.Bin?
      ensures stop ==> Stopped(key, t')
      ensures !stop ==> Nodes(t') < Nodes(t)
      ensures SpineNodes(r') + Nodes(t') == SpineNodes(r) + Nodes(t)
    {
      hide Ordering, Ascending, Below, Above, Splaying, LeftOrder, RightOrder;
      AtRoot(t, l, r, header);
      right', t', r' := right, t, r;
      var tmp := root.left;
      if tmp == null {
        return true, right, t, r;
      }
      if compare(key, tmp.key) < 0 {
        t' := RotateRight(tmp, t, l, r, header);
        AtRoot(t', l, r, header);
        if root.left == null {
          return true, right, t', r;
        }
      }
      CutLeft(key, t', l, r, all);
      right', r' := LinkLeft(right, t', l, r, header);
      t' := t'.left;
      stop := false;
    }

    /** A turn of the loop towards larger keys (tree.h:222-231). */
    method TurnRight(key: K, left: SNode<K, V>, ghost t: Shape<K, V>, ghost l: Spine<K, V>, ghost r: Spine<K, V>,
                     ghost header: SNode<K, V>, ghost all: seq<SNode<K, V>>)
      returns (stop: bool, left': SNode<K, V>, ghost t': Shape<K, V>, ghost l': Spine<K, V>)
      requires Splaying(t, l, r, header) && t.Bin? && left == End(l, header) && Cut(key, t, l, r, all) &&
               compare(key, t.node.key) > 0
      modifies this`root, Nodes(t), SpineNodes(l), header
      ensures Splaying(t', l', r, header) && left' == End(l', header) && Cut(key, t', l', r, all) && t'.Bin?
      ensures stop ==> Stopped(key, t')
      ensures !stop ==> Nodes(t') < Nodes(t)
      ensures SpineNodes(l') + Nodes(t') == SpineNodes(l) + Nodes(t)
    {
      hide Ordering, Ascending, Below, Above, Splaying, LeftOrder, RightOrder;
      AtRoot(t, l, r, header);
      left', t', l' := left, t, l;
      var tmp := root.right;
      if tmp == null {
        return true, left, t, l;
      }
      if compare(key, tmp.key) > 0 {
        t' := RotateLeft(tmp, t, l, r, header);
        AtRoot(t', l, r, header);
        if root.right == null {
          return true, left, t', l;
        }
      }
      CutRight(key, t', l, r, all);
      left', l' := LinkRight(left, t', l, r, header);
      t' := t'.right;
      stop := false;
    }

    /** Closing the left tree does not disturb the rest. */
    method CloseLeft(left: SNode<K, V>, ghost t: Shape<K, V>, ghost l: Spine<K, V>, ghost r: Spine<K, V>,
                     ghost header: SNode<K, V>)
      requires Splaying(t, l, r, header) && t.Bin? && left == End(l, header)
      modifies left`right
      ensures Splaying(t, l, r, header) && left.right == Ptr(t.left)
    {
      left.right := root.left;
      assert Stands(t) == old(Stands(t));
      assert RightHangs(r, header) == old(RightHangs(r, header));
      if l.Grown? {
        assert LeftHangs(l.up, header) == old(LeftHangs(l.up, header));
        assert Stands(l.sub) == old(Stands(l.sub));
      }
      assert LeftHangs(l, header);
    }

    method CloseRight(right: SNode<K, V>, ghost t: Shape<K, V>, ghost l: Spine<K, V>, ghost r: Spine<K, V>,
                      ghost header: SNode<K, V>)
      requires Splaying(t, l, r, header) && t.Bin? && right == End(r, header)
      modifies right`left
      ensures Splaying(t, l, r, header) && right.left == Ptr(t.right)
    {
      right.left := root.right;
      assert Stands(t) == old(Stands(t));
      assert LeftHangs(l, header) == old(LeftHangs(l, header));
      if r.Grown? {
        assert RightHangs(r.up, header) == old(RightHangs(r.up, header));
        assert Stands(r.sub) == old(Stands(r.sub));
      }
      assert RightHangs(r, header);
    }

    lemma Closed(t: Shape<K, V>, l: Spine<K, V>, r: Spine<K, V>, header: SNode<K, V>)
      requires Splaying(t, l, r, header) && t.Bin? && End(l, header).right == Ptr(t.left) &&
               End(r, header).left == Ptr(t.right)
      ensures Apart(LeftFilled(l, t.left)) && Stands(LeftFilled(l, t.left)) &&
              header.right == Ptr(LeftFilled(l, t.left))
      ensures Apart(RightFilled(r, t.right)) && Stands(RightFilled(r, t.right)) &&
              header.left == Ptr(RightFilled(r, t.right))
      ensures Nodes(LeftFilled(l, t.left)) == SpineNodes(l) + Nodes(t.left)
      ensures Nodes(RightFilled(r, t.right)) == SpineNodes(r) + Nodes(t.right)
      ensures Inorder(LeftFilled(l, t.left)) == LeftOrder(l) + Inorder(t.left)
      ensures Inorder(RightFilled(r, t.right)) == Inorder(t.right) + RightOrder(r)
    {
      LeftFilledOk(l, header, t.left);
      RightFilledOk(r, header, t.right);
    }

    lemma PartsApart(t: Shape<K, V>, l: Spine<K, V>, r: Spine<K, V>)
      requires t.Bin? && Apart(t) && Nodes(t) !! SpineNodes(l) && Nodes(t) !! SpineNodes(r) &&
               SpineNodes(l) !! SpineNodes(r)
      ensures t.node !in SpineNodes(l) + Nodes(t.left) && t.node !in SpineNodes(r) + Nodes(t.right)
      ensures SpineNodes(l) + Nodes(t.left) !! SpineNodes(r) + Nodes(t.right)
      ensures (SpineNodes(l) + Nodes(t.left)) + {t.node} + (SpineNodes(r) + Nodes(t.right)) ==
              Nodes(t) + SpineNodes(l) + SpineNodes(r)
    {
    }

    /** SPLAY_ASSEMBLE: the root keeps its place, and its subtrees fill the two collected trees. */
    method Assemble(header: SNode<K, V>, left: SNode<K, V>, right: SNode<K, V>, ghost t: Shape<K, V>,
                    ghost l: Spine<K, V>, ghost r: Spine<K, V>)
      requires Splaying(t, l, r, header) && t.Bin? && left == End(l, header) && right == End(r, header)
      modifies this`shape, Nodes(t), SpineNodes(l), SpineNodes(r), header
      ensures shape == Bin(LeftFilled(l, t.left), t.node, RightFilled(r, t.right))
      ensures Apart(shape) && Stands(shape) && root == Ptr(shape)
      ensures Nodes(shape) == Nodes(t) + SpineNodes(l) + SpineNodes(r)
      ensures Inorder(LeftFilled(l, t.left)) == LeftOrder(l) + Inorder(t.left)
      ensures Inorder(RightFilled(r, t.right)) == Inorder(t.right) + RightOrder(r)
    {
      hide Splaying, LeftFilled, RightFilled, LeftHangs, RightHangs, ApartSpine, Stands;
      CollectedApart(t, l, r, header);
      CloseLeft(left, t, l, r, header);
      CloseRight(right, t, l, r, header);
      Closed(t, l, r, header);
      PartsApart(t, l, r);
      ghost var a, b := LeftFilled(l, t.left), RightFilled(r, t.right);
      shape := Bin(a, t.node, b);
      assert Stands(a) && Stands(b);
      Graft(root, header.right, header.left, a, b);
    }

    lemma CollectedApart(t: Shape<K, V>, l: Spine<K, V>, r: Spine<K, V>, header: SNode<K, V>)
      requires Splaying(t, l, r, header) && t.Bin?
      ensures root == t.node && Apart(t)
      ensures Nodes(t) !! SpineNodes(l) && Nodes(t) !! SpineNodes(r) && SpineNodes(l) !! SpineNodes(r)
    {
    }

    method Graft(x: SNode<K, V>, left: SNode?<K, V>, right: SNode?<K, V>, ghost a: Shape<K, V>, ghost b: Shape<K, V>)
      requires Stands(a) && Stands(b) && x !in Nodes(a) && x !in Nodes(b) && left == Ptr(a) && right == Ptr(b)
      modifies x
      ensures Stands(Bin(a, x, b))
    {
      x.left := left;
      x.right := right;
      assert Stands(a) == old(Stands(a));
      assert Stands(b) == old(Stands(b));
    }

    /** The key, or else a neighbour of the place where it is missing, is at the root. */
    ghost predicate Near(key: K)
      reads this
    {
      && shape.Bin?
      && (compare(key, shape.node.key) < 0 ==> Below(Inorder(shape.left), key))
      && (compare(key, shape.node.key) > 0 ==> Above(Inorder(shape.right), key))
    }

    lemma Assembled(key: K, t: Shape<K, V>, l: Spine<K, V>, r: Spine<K, V>, all: seq<SNode<K, V>>)
      requires Cut(key, t, l, r, all) && Stopped(key, t) && shape.Bin? && shape.node == t.node
      requires Inorder(shape.left) == LeftOrder(l) + Inorder(t.left) &&
               Inorder(shape.right) == Inorder(t.right) + RightOrder(r)
      ensures Inorder(shape) == all && Near(key) && Ascending(all)
    {
      Regrouped(LeftOrder(l), Inorder(t.left), t.node, Inorder(t.right), RightOrder(r));
      if t.left.Empty? {
        assert Inorder(shape.left) == LeftOrder(l);
      }
      if t.right.Empty? {
        assert Inorder(shape.right) == RightOrder(r);
      }
    }

    /** SPLAY (tree.h:203-235): the same elements in the same order, with the key or a neighbour at the root. */
    method Splay(key: K)
      requires Valid() && root != null
      modifies this`root, this`shape, nodes
      ensures Valid() && nodes == old(nodes) && Contents() == old(Contents()) && Near(key)
    {
      hide Ordering, Ascending, Below, Above, Splaying, Cut, Near, Stands, Apart, LeftFilled, RightFilled, Linked,
        LeftOrder, RightOrder;
      StartCut(key);
      RootFirst();
      ghost var all := Contents();
      var header := new SNode(root.key, root.elem);
      var left, right := header, header;
      ghost var t, l, r: Spine<K, V> := shape, Bare, Bare;
      assert Linked() == old(Linked());
      StartSplaying(header);
      var comp := compare(key, root.key);
      while comp != 0
        invariant Splaying(t, l, r, header) && t.Bin? && left == End(l, header) && right == End(r, header)
        invariant Cut(key, t, l, r, all) && comp == compare(key, t.node.key)
        invariant Nodes(t) + SpineNodes(l) + SpineNodes(r) == nodes
        decreases Nodes(t)
      {
        var stop;
        stop, left, right, t, l, r := Turn(comp, key, left, right, t, l, r, header, all);
        if stop {
          break;
        }
        AtRoot(t, l, r, header);
        comp := compare(key, root.key);
      }
      assert Stopped(key, t);
      Assemble(header, left, right, t, l, r);
      LinkedAgain();
      Assembled(key, t, l, r, all);
    }

    /** A turn of the loop (tree.h:211-233). */
    method Turn(comp: int, key: K, left: SNode<K, V>, right: SNode<K, V>, ghost t: Shape<K, V>, ghost l: Spine<K, V>,
                ghost r: Spine<K, V>, ghost header: SNode<K, V>, ghost all: seq<SNode<K, V>>)
      returns (stop: bool, left': SNode<K, V>, right': SNode<K, V>, ghost t': Shape<K, V>, ghost l': Spine<K, V>,
               ghost r': Spine<K, V>)
      requires Splaying(t, l, r, header) && t.Bin? && left == End(l, header) && right == End(r, header)
      requires Cut(key, t, l, r, all) && comp == compare(key, t.node.key) != 0
      modifies this`root, Nodes(t), SpineNodes(l), SpineNodes(r), header
      ensures Splaying(t', l', r', header) && t'.Bin? && left' == End(l', header) && right' == End(r', header)
      ensures Cut(key, t', l', r', all)
      ensures Nodes(t') + SpineNodes(l') + SpineNodes(r') == Nodes(t) + SpineNodes(l) + SpineNodes(r)
      ensures if stop then Stopped(key, t') else Nodes(t') < Nodes(t)
    {
      hide Ordering, Ascending, Below, Above, Splaying, Cut, Stopped, Apart, Stands;
      left', right', t', l', r' := left, right, t, l, r;
      if comp < 0 {
        stop, right', t', r' := TurnLeft(key, right, t, l, r, header, all);
        Swapped(Nodes(t), SpineNodes(r), Nodes(t'), SpineNodes(r'), SpineNodes(l));
      } else {
        stop, left', t', l' := TurnRight(key, left, t, l, r, header, all);
        Swapped(Nodes(t), SpineNodes(l), Nodes(t'), SpineNodes(l'), SpineNodes(r));
      }
    }

    lemma Swapped<T>(a: set<T>, b: set<T>, a': set<T>, b': set<T>, c: set<T>)
      requires b' + a' == b + a
      ensures a' + b' + c == a + b + c && a' + c + b' == a + c + b
    {
      assert a' + b' == b' + a' && a + b == b + a;
      assert a' + c + b' == a' + b' + c;
    }

    lemma LinkedAgain()
      requires nodes == Nodes(shape) && Apart(shape) && Stands(shape) && root == Ptr(shape)
      ensures Linked()
    {
    }

    lemma StartSplaying(header: SNode<K, V>)
      requires Linked() && header !in nodes
      ensures Splaying(shape, Bare, Bare, header) && nodes == Nodes(shape)
    {
    }

    lemma AtRoot(t: Shape<K, V>, l: Spine<K, V>, r: Spine<K, V>, header: SNode<K, V>)
      requires Splaying(t, l, r, header) && t.Bin?
      ensures root == t.node && root.left == Ptr(t.left) && root.right == Ptr(t.right)
      ensures t.node !in Nodes(t.left) && t.node !in Nodes(t.right)
    {
    }

    lemma StartCut(key: K)
      requires Valid()
      ensures Cut(key, shape, Bare, Bare, Contents()) && Ordering(compare) && Ascending(Contents())
    {
      assert [] + Contents() + [] == Contents();
    }

    // -------------------------------------------------------------------------------
    // Inserting and removing

    /** The new element splits the order where its key belongs. */
    lemma AscendingWith(a: seq<SNode<K, V>>, elm: SNode<K, V>, b: seq<SNode<K, V>>)
      requires Ordering(compare) && Ascending(a + b) && Below(a, elm.key) && Above(b, elm.key)
      ensures Ascending(a + [elm] + b)
    {
      var s, w := a + b, a + [elm] + b;
      forall i, j | 0 <= i < j < |w|
        ensures compare(w[i].key, w[j].key) < 0
      {
        assert i != |a| ==> w[i] == s[if i < |a| then i else i - 1];
        assert j != |a| ==> w[j] == s[if j < |a| then j else j - 1];
        assert i == |a| ==> w[j] == b[j - |a| - 1];
        assert j == |a| ==> w[i] == a[i];
      }
    }

    /** SPLAY_INSERT (tree.h:158-179): the element with an equal key, or null once `elm` is in the tree. */
    method Insert(elm: SNode<K, V>)
      returns (r: SNode?<K, V>, ghost before: seq<SNode<K, V>>, ghost after: seq<SNode<K, V>>)
      requires Valid() && elm !in nodes
      modifies this`root, this`shape, this`nodes, nodes, elm
      ensures Valid() && old(Contents()) == before + after
      ensures r != null ==>
              r in nodes && compare(elm.key, r.key) == 0 && nodes == old(nodes) && Contents() == before + after
      ensures r == null ==> nodes == old(nodes) + {elm} && Contents() == before + [elm] + after
      ensures r == null ==> Below(before, elm.key) && Above(after, elm.key)
    {
      r, before, after := null, [], [];
      hide Ordering, Ascending, Below, Above, Near, Stands, Apart;
      if root == null {
        InsertFirst(elm);
      } else {
        Splay(elm.key);
        RootFirst();
        var comp := compare(elm.key, root.key);
        if comp < 0 {
          before, after := Inorder(shape.left), [shape.node] + Inorder(shape.right);
          InsertLeft(elm);
        } else if comp > 0 {
          before, after := Inorder(shape.left) + [shape.node], Inorder(shape.right);
          InsertRight(elm);
        } else {
          before := Contents();
          r := root;
        }
      }
    }

    method InsertFirst(elm: SNode<K, V>)
      requires Valid() && root == null
      modifies this`root, this`shape, this`nodes, elm
      ensures Valid() && old(Contents()) == [] && old(nodes) == {} && nodes == {elm} && Contents() == [elm]
      ensures Below([], elm.key) && Above([], elm.key)
    {
      elm.left, elm.right := null, null;
      root, shape, nodes := elm, Bin(Empty, elm, Empty), {elm};
    }

    lemma RootFirst()
      requires Linked() && root != null
      ensures shape.Bin? && root == shape.node && root in nodes
      ensures Contents() == Inorder(shape.left) + [root] + Inorder(shape.right)
      ensures Contents() == Inorder(shape.left) + ([root] + Inorder(shape.right))
    {
    }

    /** What a missing key at the root's side tells. */
    lemma NearSide(key: K)
      requires Valid() && Near(key)
      ensures Ordering(compare) && Ascending(Inorder(shape))
      ensures compare(key, shape.node.key) < 0 ==> Below(Inorder(shape.left), key)
      ensures compare(key, shape.node.key) > 0 ==> Above(Inorder(shape.right), key)
    {
    }

    /** The new root takes the left subtree, and the old root becomes its right child (tree.h:167-169, 177). */
    method HangLeft(elm: SNode<K, V>)
      requires Linked() && elm !in nodes && shape.Bin?
      modifies this`root, this`shape, this`nodes, nodes, elm
      ensures Linked() && nodes == old(nodes) + {elm}
      ensures var t := old(shape); shape == Bin(t.left, elm, Bin(Empty, t.node, t.right))
    {
      ghost var t := shape;
      elm.left := root.left;
      elm.right := root;
      root.left := null;
      root := elm;
      ghost var u := Bin(Empty, t.node, t.right);
      shape := Bin(t.left, elm, u);
      nodes := nodes + {elm};
      assert Stands(t.left) == old(Stands(t.left));
      assert Stands(t.right) == old(Stands(t.right));
      assert Nodes(u) == {t.node} + Nodes(t.right) && Apart(u) && Stands(u);
    }

    /** The new root takes the right subtree, and the old root becomes its left child (tree.h:171-173, 177). */
    method HangRight(elm: SNode<K, V>)
      requires Linked() && elm !in nodes && shape.Bin?
      modifies this`root, this`shape, this`nodes, nodes, elm
      ensures Linked() && nodes == old(nodes) + {elm}
      ensures var t := old(shape); shape == Bin(Bin(t.left, t.node, Empty), elm, t.right)
    {
      ghost var t := shape;
      elm.right := root.right;
      elm.left := root;
      root.right := null;
      root := elm;
      ghost var u := Bin(t.left, t.node, Empty);
      shape := Bin(u, elm, t.right);
      nodes := nodes + {elm};
      assert Stands(t.left) == old(Stands(t.left));
      assert Stands(t.right) == old(Stands(t.right));
      assert Nodes(u) == Nodes(t.left) + {t.node} && Apart(u) && Stands(u);
    }

    method InsertLeft(elm: SNode<K, V>)
      requires Valid() && elm !in nodes && shape.Bin? && Near(elm.key) && compare(elm.key, shape.node.key) < 0
      modifies this`root, this`shape, this`nodes, nodes, elm
      ensures Valid() && nodes == old(nodes) + {elm}
      ensures Contents() == Inorder(old(shape).left) + [elm] + ([old(shape).node] + Inorder(old(shape).right))
      ensures Below(Inorder(old(shape).left), elm.key) && Above([old(shape).node] + Inorder(old(shape).right), elm.key)
    {
      hide Ordering, Ascending, Below, Above, Linked;
      NearSide(elm.key);
      ghost var t := shape;
      Regrouped([], Inorder(t.left), t.node, Inorder(t.right), []);
      AboveFrom(Inorder(t), Inorder(t.left), t.node, Inorder(t.right), elm.key);
      AscendingWith(Inorder(t.left), elm, [t.node] + Inorder(t.right));
      HangLeft(elm);
      assert Inorder(Bin(Empty, t.node, t.right)) == [t.node] + Inorder(t.right);
    }

    method InsertRight(elm: SNode<K, V>)
      requires Valid() && elm !in nodes && shape.Bin? && Near(elm.key) && compare(elm.key, shape.node.key) > 0
      modifies this`root, this`shape, this`nodes, nodes, elm
      ensures Valid() && nodes == old(nodes) + {elm}
      ensures Contents() == (Inorder(old(shape).left) + [old(shape).node]) + [elm] + Inorder(old(shape).right)
      ensures Below(Inorder(old(shape).left) + [old(shape).node], elm.key) && Above(Inorder(old(shape).right), elm.key)
    {
      hide Ordering, Ascending, Below, Above, Linked;
      NearSide(elm.key);
      ghost var t := shape;
      BelowFrom(Inorder(t), Inorder(t.left), t.node, Inorder(t.right), elm.key);
      AscendingWith(Inorder(t.left) + [t.node], elm, Inorder(t.right));
      HangRight(elm);
      assert Inorder(Bin(t.left, t.node, Empty)) == Inorder(t.left) + [t.node];
    }

    ghost predicate HasKey(key: K)
      reads this
    {
      exists n <- nodes :: compare(key, n.key) == 0
    }

    lemma {:induction false} InorderNodes(t: Shape<K, V>)
      ensures forall n :: n in Inorder(t) <==> n in Nodes(t)
    {
      if t.Bin? {
        InorderNodes(t.left);
        InorderNodes(t.right);
      }
    }

    lemma Misses(s: seq<SNode<K, V>>, key: K)
      requires Below(s, key) || Above(s, key)
      ensures forall n <- s :: compare(key, n.key) != 0
    {
    }

    /** A key that the splay did not bring to the root is not in the tree. */
    lemma NearMisses(key: K)
      requires Valid() && Near(key) && compare(key, shape.node.key) != 0
      ensures !HasKey(key)
    {
      hide Ordering, Ascending, Below, Above, Stands, Apart;
      var a, x, b := Inorder(shape.left), shape.node, Inorder(shape.right);
      InorderNodes(shape);
      Regrouped([], a, x, b, []);
      if compare(key, x.key) < 0 {
        AboveFrom(Inorder(shape), a, x, b, key);
        Misses(a, key);
        Misses([x] + b, key);
      } else {
        BelowFrom(Inorder(shape), a, x, b, key);
        Misses(a + [x], key);
        Misses(b, key);
      }
    }

    /** The two subtrees of a node whose key is equal. */
    lemma Halves(key: K)
      requires Valid() && shape.Bin? && compare(key, shape.node.key) == 0
      ensures Ascending(Inorder(shape.left)) && Ascending(Inorder(shape.right)) && Below(Inorder(shape.left), key)
      ensures Ascending(Inorder(shape.left) + Inorder(shape.right))
    {
      AscendingParts(Inorder(shape.left), shape.node, Inorder(shape.right), key);
    }

    lemma AscendingParts(a: seq<SNode<K, V>>, x: SNode<K, V>, b: seq<SNode<K, V>>, key: K)
      requires Ordering(compare) && Ascending(a + [x] + b) && compare(key, x.key) == 0
      ensures Ascending(a) && Ascending(b) && Ascending(a + b) && Below(a, key)
    {
      hide Ordering, Below;
      var all, w := a + [x] + b, a + b;
      forall i, j | 0 <= i < j < |w|
        ensures compare(w[i].key, w[j].key) < 0
      {
        assert w[i] == all[if i < |a| then i else i + 1] && w[j] == all[if j < |a| then j else j + 1];
      }
      forall i, j | 0 <= i < j < |a|
        ensures compare(a[i].key, a[j].key) < 0
      {
        assert w[i] == a[i] && w[j] == a[j];
      }
      forall i, j | 0 <= i < j < |b|
        ensures compare(b[i].key, b[j].key) < 0
      {
        assert w[|a| + i] == b[i] && w[|a| + j] == b[j];
      }
      BelowEqual(all, a, x, b, key);
    }

    lemma BelowEqual(all: seq<SNode<K, V>>, a: seq<SNode<K, V>>, x: SNode<K, V>, b: seq<SNode<K, V>>, key: K)
      requires Ordering(compare) && Ascending(all) && all == a + [x] + b && compare(key, x.key) == 0
      ensures Below(a, key)
    {
      forall i | 0 <= i < |a|
        ensures compare(key, a[i].key) > 0
      {
        assert a[i] == all[i] && x == all[|a|];
      }
    }

    /** The left subtree alone. */
    method Separate()
      requires Valid() && shape.Bin? && Ascending(Inorder(shape.left))
      modifies this`root, this`shape, this`nodes
      ensures Valid() && shape == old(shape).left && nodes <= old(nodes)
      ensures nodes == Nodes(shape)
    {
      root := root.left;
      shape := shape.left;
      nodes := Nodes(shape);
    }

    lemma NoneBothSides(s: seq<SNode<K, V>>, x: SNode<K, V>, key: K)
      requires Below(s, key) && Above(s, key)
      ensures s == []
    {
      var first := (s + [x])[0];
    }

    /** The element with the largest key has no right child. */
    lemma NothingRight(key: K)
      requires Valid() && Near(key) && Below(Contents(), key)
      ensures shape.right.Empty? && Contents() == Inorder(shape.left) + [shape.node]
    {
      var a, x, b := Inorder(shape.left), shape.node, Inorder(shape.right);
      assert Contents()[|a|] == x;
      assert forall i :: 0 <= i < |b| ==> Contents()[|a| + 1 + i] == b[i];
      NoneBothSides(b, x, key);
    }

    /** The right subtree is linked back (tree.h:195). */
    method Rejoin(tmp: SNode?<K, V>, ghost right: Shape<K, V>)
      requires Valid() && shape.Bin? && shape.right.Empty? && tmp == Ptr(right) && Apart(right) && Stands(right)
      requires Nodes(right) !! nodes && Ascending(Inorder(shape) + Inorder(right))
      modifies this`shape, this`nodes, root
      ensures Valid() && nodes == old(nodes) + Nodes(right) && Contents() == old(Contents()) + Inorder(right)
    {
      ghost var t := shape;
      assert Inorder(t) == Inorder(t.left) + [t.node];
      root.right := tmp;
      shape := Bin(t.left, t.node, right);
      nodes := nodes + Nodes(right);
      assert Stands(t.left) == old(Stands(t.left));
      assert Stands(right) == old(Stands(right));
    }

    /** SPLAY_REMOVE (tree.h:182-200): the element with an equal key leaves the tree, if there is one. */
    method Remove(key: K)
      returns (found: bool, ghost gone: SNode?<K, V>, ghost before: seq<SNode<K, V>>, ghost after: seq<SNode<K, V>>)
      requires Valid()
      modifies this`root, this`shape, this`nodes, nodes
      ensures Valid() && found == old(HasKey(key)) && (found <==> gone != null)
      ensures found ==> gone in old(nodes) && compare(key, gone.key) == 0 && nodes == old(nodes) - {gone}
      ensures found ==> old(Contents()) == before + [gone] + after && Contents() == before + after
      ensures !found ==> nodes == old(nodes) && Contents() == old(Contents())
    {
      hide Ordering, Ascending, Below, Above, Near, Stands, Apart;
      found, gone, before, after := false, null, [], [];
      if root == null {
        return;
      }
      Splay(key);
      RootFirst();
      if compare(key, root.key) != 0 {
        NearMisses(key);
        return;
      }
      found, gone, before, after := true, root, Inorder(shape.left), Inorder(shape.right);
      RemoveRoot(key);
    }

    /** The root leaves the tree (tree.h:189-196). */
    method RemoveRoot(key: K)
      requires Valid() && shape.Bin? && compare(key, shape.node.key) == 0
      modifies this`root, this`shape, this`nodes, nodes
      ensures Valid() && nodes == old(nodes) - {old(shape).node}
      ensures Contents() == Inorder(old(shape).left) + Inorder(old(shape).right)
    {
      hide Ordering, Ascending, Below, Above, Near;
      ghost var t := shape;
      Halves(key);
      if root.left == null {
        root, shape, nodes := root.right, t.right, nodes - {t.node};
      } else {
        var tmp := root.right;
        Separate();
        Splay(key);
        NothingRight(key);
        Rejoin(tmp, t.right);
      }
    }
  }
}
