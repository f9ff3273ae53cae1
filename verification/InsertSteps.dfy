/** The steps that RB_INSERT_COLOR (nty_tree.h) and rbtree_insert_fixup (kvs_rbtree.c) have in common.
    `d` is the arm of the code: L when the parent is a left child. */
module InsertSteps {
  import opened Trees
  import opened RedBlack
  import opened LinkedTrees
  import opened SearchOrder

  type Place<K> = Spot<Node?<K>, K>

  /** Red uncle: recolour and go two levels up. */
  method RecolorUncle<K>(head: Head<K>, uncle: Node<K>, parent: Node<K>, gparent: Node<K>, ghost z: Place<K>, ghost h: nat)
    returns (ghost z': Place<K>)
    requires Rising(z, h) && z.path.Step? && z.path.color.Red? && HasGrandparent(z) && !IsBlack(z.path.up.sib) && head.Holds(z.path, z.tree)
    requires parent == z.path.item.id && gparent == z.path.up.item.id && uncle == z.path.up.sib.item.id
    modifies uncle`color, parent`color, gparent`color
    ensures Depth(z'.path) < Depth(z.path) && z'.tree.Node? && z'.tree.item.id == gparent
    ensures head.Holds(z'.path, z'.tree) && Rising(z', h + 1) && z'.Same(z)
  {
    ghost var p, g, gg := z.path, z.path.up, z.path.up.up;
    ghost var mid := z.Up().tree;
    head.Refocus(g, p.d, p.item, p.color, p.sib, z.tree);
    head.Refocus(gg, g.d, g.item, g.color, g.sib, mid);
    head.Refocus(gg, g.d.Opp(), g.item, g.color, mid, g.sib);
    head.Recolor(uncle, Black, Step(gg, g.d.Opp(), g.item, g.color, mid), g.sib);
    ghost var un := Paint(g.sib, Black);
    head.Refocus(gg, g.d.Opp(), g.item, g.color, mid, un);
    head.Refocus(gg, g.d, g.item, g.color, un, mid);
    head.Recolor(parent, Black, Step(gg, g.d, g.item, g.color, un), mid);
    ghost var mid' := Paint(mid, Black);
    head.Refocus(gg, g.d, g.item, g.color, un, mid');
    head.Recolor(gparent, Red, gg, Make(g.d, mid', g.item, g.color, un));
    z' := UncleRecolored(z);
    InsertRecolor(z, h);
    UncleRecoloredSame(z);
  }

  /** The inner-grandchild case: rotate the parent, so that the old parent hangs outside. */
  method RotateInner<K>(head: Head<K>, d: Dir, parent: Node<K>, ghost z: Place<K>, ghost h: nat)
    returns (ghost z': Place<K>)
    requires Rising(z, h) && z.path.Step? && z.path.color.Red? && HasGrandparent(z) && head.Holds(z.path, z.tree)
    requires z.path.d == d.Opp() && z.path.up.d == d && parent == z.path.item.id
    modifies head`root, z.All()`left, z.All()`right, z.All()`parent, z.All()`color
    ensures head.Holds(z'.path, z'.tree) && Rising(z', h) && z'.Same(z)
    ensures z'.path.Step? && z'.path.color.Red? && HasGrandparent(z') && z'.path.d == z'.path.up.d == d
    ensures z'.tree.item.id == parent && z'.path.item.id == z.tree.item.id && z'.path.up == z.path.up
  {
    ghost var p, t := z.path, z.tree;
    head.Refocus(p.up, p.d, p.item, p.color, p.sib, t);
    var _ := head.Rotate(d, parent, p.up, z.Up().tree);
    z' := InnerTurned(z);
    head.Refocus(p.up, d, t.item, t.color, Child(t, p.d), z'.tree);
    InsertInner(z, h);
    InnerTurnedSame(z);
  }

  /** The outer-grandchild case: recolour parent and grandparent, rotate the grandparent. */
  method RotateOuter<K>(head: Head<K>, d: Dir, parent: Node<K>, gparent: Node<K>, ghost z: Place<K>, ghost h: nat)
    returns (ghost z': Place<K>)
    requires Rising(z, h) && z.path.Step? && z.path.color.Red? && HasGrandparent(z) && head.Holds(z.path, z.tree)
    requires z.path.d == d && z.path.up.d == d && IsBlack(z.path.up.sib)
    requires parent == z.path.item.id && gparent == z.path.up.item.id
    modifies head`root, z.All()`left, z.All()`right, z.All()`parent, z.All()`color
    ensures head.Holds(z'.path, z'.tree) && Rising(z', h) && z'.Same(z)
    ensures z'.tree == z.tree && z'.path.Step? && z'.path.color.Black? && Depth(z'.path) < Depth(z.path)
  {
    hide Bal, BalPath, Items, Head.Holds;
    ghost var p, g := z.path, z.path.up;
    head.Refocus(g, d, p.item, p.color, p.sib, z.tree);
    head.Recolor(parent, Black, g, z.Up().tree);
    ghost var mid := Paint(z.Up().tree, Black);
    head.Refocus(g.up, d, g.item, g.color, g.sib, mid);
    ghost var big := Make(d, mid, g.item, g.color, g.sib);
    head.Recolor(gparent, Red, g.up, big);
    var _ := head.Rotate(d.Opp(), gparent, g.up, Paint(big, Red));
    z' := OuterTurned(z);
    head.Refocus(g.up, d, p.item, Black, z'.path.sib, z.tree);
    InsertOuter(z, h);
    OuterTurnedSame(z);
  }

  /** What the loops of the two fixups test. */
  lemma TopFields<K>(head: Head<K>, z: Place<K>)
    requires head.Holds(z.path, z.tree) && z.tree.Node?
    ensures var n := z.tree.item.id;
            && n != null && (n.parent == head.nil <==> z.path.Top?)
            && (n.parent != head.nil ==> n.parent != null && n.parent.color == z.path.color)
  {
    head.Reads(z.path, z.tree);
  }

  /** What the two fixups read above a node with a red parent. */
  lemma UncleFields<K>(head: Head<K>, z: Place<K>, h: nat)
    requires head.Holds(z.path, z.tree) && Rising(z, h) && z.path.Step? && z.path.color.Red?
    ensures HasGrandparent(z)
    ensures var n, parent, g := z.tree.item.id, z.path.item.id, z.path.up.item.id;
            && n != null && parent != null && g != null && n.parent == parent && parent.parent == g
            && (parent == g.left <==> z.path.up.d.L?) && (parent.Kid(z.path.d.Opp()) != n) && parent.Kid(z.path.d) == n
            && g.Kid(z.path.up.d.Opp()) == Ptr(z.path.up.sib, head.nil)
            && (z.path.up.sib.Node? ==> z.path.up.sib.item.id != null && z.path.up.sib.item.id.color == z.path.up.sib.color)
    ensures {z.tree.item.id, z.path.item.id, z.path.up.item.id} <= z.All()
    ensures z.path.up.sib.Node? ==> z.path.up.sib.item.id in z.All()
  {
    RedHasParent(z, h);
    head.Reads(z.path, z.tree);
    head.Refocus(z.path.up, z.path.d, z.path.item, z.path.color, z.path.sib, z.tree);
    head.Reads(z.path.up, z.Up().tree);
  }

  /** The last line of both fixups. */
  method BlackenRoot<K>(head: Head<K>, ghost z: Place<K>, ghost h: nat)
    requires head.Holds(z.path, z.tree) && Rising(z, h) && ColorAbove(z.path).Black?
    modifies head`tree, z.All()`color
    ensures head.Holds(Top, head.tree) && RedBlackTree(head.tree)
    ensures Items(head.tree) == Items(z.Whole()) && Ids(head.tree) == z.All()
  {
    hide Bal, BalPath, Items, Head.Holds;
    ghost var t := z.Whole();
    head.Rise(z.path, z.tree);
    PlugItems(z.path, z.tree);
    head.Reads(Top, t);
    head.Recolor(head.root, Black, Top, t);
    head.tree := Paint(t, Black);
    PaintKeeps(t, Black);
    InsertEnds(z, h);
  }

  function RedLeaf<K>(it: Item<Node?<K>, K>): Shape<K> {
    Tree.Node(Leaf, it, Red, Leaf)
  }

  /** Hanging a red node where the search for its key ended. */
  lemma LinkShape<K(!new)>(p: Route<K>, it: Item<Node?<K>, K>, lt: (K, K) -> bool) returns (h: nat)
    requires StrictTotal(lt) && RedBlackTree(Plug(p, Leaf)) && Ascending(Items(Plug(p, Leaf)), lt)
    requires Between(p, it.key, lt)
    ensures Rising(Spot(p, RedLeaf(it)), h)
    ensures Items(Plug(p, RedLeaf(it))) == Insort(Items(Plug(p, Leaf)), it, lt)
    ensures Ascending(Items(Plug(p, RedLeaf(it))), lt) && !HasKey(Items(Plug(p, Leaf)), it.key)
    ensures Spot(p, RedLeaf(it)).All() == PathIds(p) + {it.id} && Ids(Plug(p, Leaf)) == PathIds(p)
  {
    hide Plug, StrictTotal;
    h := PlugBalInv(p, Leaf);
    PlugIds(p, Leaf);
    PlugItems(p, Leaf);
    PlugItems(p, RedLeaf(it));
    assert Items(Plug(p, Leaf)) == Before(p) + After(p);
    assert Items(Plug(p, RedLeaf(it))) == Before(p) + [it] + After(p);
    AscendingSplice(Before(p), After(p), it, lt);
    InsortSplit(Before(p), After(p), it, lt);
  }
}
