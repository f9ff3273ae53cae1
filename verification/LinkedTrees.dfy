/** The linked nodes that nty_tree.h and kvs_rbtree.c share, and the pointer program both use to rotate. */
module LinkedTrees {
  import opened Trees
  import opened CStrings

  class Node<K> {
    var key: K
    var value: CString  // the payload of the structure the links sit in; no tree operation touches it
    var left: Node?<K>
    var right: Node?<K>
    var parent: Node?<K>
    var color: Color

    constructor (key: K)
      ensures this.key == key
    {
      this.key, value := key, [];
      left, right, parent, color := null, null, null, Red;
    }

    function Kid(d: Dir): Node?<K>
      reads this
    {
      if d.L? then left else right
    }

    method SetKid(d: Dir, n: Node?<K>)
      modifies this`left, this`right
      ensures if d.L? then left == n && right == old(right) else right == n && left == old(left)
    {
      if d.L? { left := n; } else { right := n; }
    }

    function Content(): Cell<Node?<K>, K>
      reads this
    {
      Cell(left, right, parent, color, key)
    }
  }

  type Shape<K> = Tree<Node?<K>, K>
  function Entry<K>(n: Node?<K>, k: K): Item<Node?<K>, K> { Item(n, k) }

  type Route<K> = Path<Node?<K>, K>

  ghost function Snap<K>(s: set<Node?<K>>): (m: map<Node?<K>, Cell<Node?<K>, K>>)
    reads s
  {
    map n | n in s && n != null :: n.Content()
  }

  lemma SnapHolds<K>(s: set<Node?<K>>)
    requires null !in s
    ensures Snap(s).Keys == s && forall n :: n in s ==> Snap(s)[n] == n.Content()
  {
  }

  class Head<K> {
    var root: Node?<K>
    const nil: Node?<K>
    ghost var tree: Shape<K>  // the tree the nodes form between operations

    constructor (nil: Node?<K>)
      ensures this.nil == nil && root == nil && tree == Leaf
    {
      this.nil := nil;
      root := nil;
      tree := Leaf;
    }

    ghost predicate Holds(p: Route<K>, t: Shape<K>)
      reads this`root, Ids(t), PathIds(p)
    {
      At(Snap(Ids(t) + PathIds(p)), p, t, root, nil)
    }

    lemma Refocus(up: Route<K>, d: Dir, it: Item<Node?<K>, K>, c: Color, sib: Shape<K>, t: Shape<K>)
      ensures Holds(Step(up, d, it, c, sib), t) <==> Holds(up, Make(d, t, it, c, sib))
    {
      assert Ids(t) + PathIds(Step(up, d, it, c, sib)) == Ids(Make(d, t, it, c, sib)) + PathIds(up);
      UpDown(Snap(Ids(t) + PathIds(Step(up, d, it, c, sib))), up, d, it, c, sib, t, root, nil);
    }

    lemma Rise(p: Route<K>, t: Shape<K>)
      ensures Holds(p, t) <==> Holds(Top, Plug(p, t))
      ensures Ids(Plug(p, t)) == Ids(t) + PathIds(p)
    {
      PlugIds(p, t);
      assert Ids(Plug(p, t)) + PathIds<Node?<K>, K>(Top) == Ids(t) + PathIds(p);
      PlugAt(Snap(Ids(t) + PathIds(p)), p, t, root, nil);
    }

    lemma Rejoin(q: Route<K>, base: Route<K>, t: Shape<K>)
      ensures Holds(Join(q, base), t) <==> Holds(base, Plug(q, t))
      ensures Ids(Plug(q, t)) + PathIds(base) == Ids(t) + PathIds(Join(q, base))
    {
      JoinAt(Snap(Ids(t) + PathIds(Join(q, base))), q, base, t, root, nil);
    }

    /** The keys of `Items` are the keys in the nodes. */
    lemma Keys(t: Shape<K>)
      requires Holds(Top, t)
      ensures forall i :: 0 <= i < |Items(t)| ==>
        var n := Items(t)[i].id; n != null && n in Ids(t) && n.key == Items(t)[i].key
    {
      RepItems(Snap(Ids(t) + PathIds<Node?<K>, K>(Top)), t, nil, nil);
    }

    /** What the fields around the focus hold. */
    lemma Reads(p: Route<K>, t: Shape<K>)
      requires Holds(p, t)
      ensures null !in Ids(t) && null !in PathIds(p) && nil !in Ids(t) && nil !in PathIds(p)
      ensures p.Top? ==> root == Ptr(t, nil)
      ensures t.Node? ==> t.item.id.Content() == Cell(Ptr(t.left, nil), Ptr(t.right, nil), Above(p, nil), t.color, t.item.key)
      ensures t.Node? ==> (t.left.Node? <==> Ptr(t.left, nil) != nil) && (t.right.Node? <==> Ptr(t.right, nil) != nil)
      ensures p.Step? ==>
        p.item.id.Content() == Cell(if p.d.L? then Ptr(t, nil) else Ptr(p.sib, nil),
                                    if p.d.L? then Ptr(p.sib, nil) else Ptr(t, nil),
                                    Above(p.up, nil), p.color, p.item.key)
      ensures p.Step? ==> p.item.id != Ptr(t, nil) && (t.Node? ==> Ptr(t, nil) != Ptr(p.sib, nil))
      ensures p.Step? && p.sib.Node? ==>
        p.sib.item.id.Content() ==
        Cell(Ptr(p.sib.left, nil), Ptr(p.sib.right, nil), p.item.id, p.sib.color, p.sib.item.key)
    {
      ghost var m := Snap(Ids(t) + PathIds(p));
      assert m.Keys == Ids(t) + PathIds(p);
      if t.Node? { FocusReads(m, p, t, root, nil); }
      if p.Step? && p.sib.Node? { Open(m, p.sib, L, p.item.id, nil); }
    }

    /** Records the shape of the whole tree once the focus is done with. */
    ghost method Close(p: Route<K>, t: Shape<K>)
      requires Holds(p, t)
      modifies this`tree
      ensures tree == Plug(p, t) && Holds(Top, tree) && Ids(tree) == Ids(t) + PathIds(p)
    {
      Rise(p, t);
      tree := Plug(p, t);
    }

    /** Colours the top node of the subtree in focus. */
    method Recolor(x: Node<K>, c: Color, ghost p: Route<K>, ghost t: Shape<K>)
      requires t.Node? && t.item.id == x && Holds(p, t)
      modifies x`color
      ensures Holds(p, Paint(t, c))
    {
      ghost var s := Ids(t) + PathIds(p);
      ghost var m := Snap(s);
      x.color := c;
      PaintAt(m, Snap(s), p, t, c, root, nil);
      PaintKeeps(t, c);
    }

    /** Lets whatever points down at `x` (a child link of `up`, or the head) point at `y` instead. */
    method Replace(up: Node?<K>, x: Node<K>, y: Node?<K>)
      requires up != nil ==> up != null
      modifies this`root, (if up == nil then {} else {up})`left, (if up == nil then {} else {up})`right
      ensures up == nil ==> root == y
      ensures up != nil ==>
        root == old(root) && up.Content() == WithKid(old(up.Content()), if old(up.left) == x then L else R, y)
    {
      if up != nil {
        if x == up.left {
          up.left := y;
        } else {
          up.right := y;
        }
      } else {
        root := y;
      }
    }

    /** The rotation as both files write it, told by the fields of the nodes `s`. */
    method TurnFields(d: Dir, x: Node<K>, ghost s: set<Node?<K>>) returns (y: Node<K>)
      requires nil !in s && null !in s
      requires x in s && x.Kid(d.Opp()) in s && x.Kid(d.Opp()) != x
      requires var y := x.Kid(d.Opp());
               && x.parent != x && x.parent != y && (x.parent != nil ==> x.parent in s)
               && (y.Kid(d) != nil ==> y.Kid(d) in s && y.Kid(d) !in {x, y, x.parent})
      modifies this`root, s`left, s`right, s`parent
      ensures y == old(x.Kid(d.Opp()))
      ensures x.Content() == WithParent(WithKid(old(x.Content()), d.Opp(), old(x.Kid(d.Opp()).Kid(d))), y)
      ensures y.Content() == WithParent(WithKid(old(x.Kid(d.Opp()).Content()), d, x), old(x.parent))
      ensures var b := old(x.Kid(d.Opp()).Kid(d)); b != nil ==> b.Content() == WithParent(old(x.Kid(d.Opp()).Kid(d).Content()), x)
      ensures var up := old(x.parent); up != nil ==>
        up.Content() == WithKid(old(x.parent.Content()), if old(x.parent.left) == x then L else R, y)
      ensures forall n :: n in s && n != x && n != y && n != old(x.Kid(d.Opp()).Kid(d)) && n != old(x.parent) ==>
        n.Content() == old(n.Content())
      ensures root == if old(x.parent) == nil then y else old(root)
    {
      y := x.Kid(d.Opp());
      var b := y.Kid(d);
      x.SetKid(d.Opp(), b);
      if b != nil {
        b.parent := x;
      }
      y.parent := x.parent;
      Replace(y.parent, x, y);
      y.SetKid(d, x);
      x.parent := y;
    }

    /** The same, told by the cells. */
    method Turn(d: Dir, x: Node<K>, ghost s: set<Node?<K>>) returns (y: Node<K>)
      requires nil !in s && null !in s
      requires x in s && x.Kid(d.Opp()) in s && x.Kid(d.Opp()) != x
      requires var y := x.Kid(d.Opp());
               && x.parent != x && x.parent != y && (x.parent != nil ==> x.parent in s)
               && (y.Kid(d) != nil ==> y.Kid(d) in s && y.Kid(d) !in {x, y, x.parent})
      modifies this`root, s`left, s`right, s`parent
      ensures y == old(x.Kid(d.Opp()))
      ensures Snap(s).Keys == old(Snap(s)).Keys
      ensures var m, m', b, up := old(Snap(s)), Snap(s), old(x.Kid(d.Opp()).Kid(d)), old(x.parent);
              && m'[x] == WithParent(WithKid(m[x], d.Opp(), b), y)
              && m'[y] == WithParent(WithKid(m[y], d, x), up)
              && (b != nil ==> m'[b] == WithParent(m[b], x))
              && (up != nil ==> m'[up] == WithKid(m[up], if m[up].left == x then L else R, y))
              && (forall i :: i in m && i != x && i != y && i != b && i != up ==> m'[i] == m[i])
              && root == if up == nil then y else old(root)
    {
      SnapHolds(s);
      hide Snap, Node.Content, WithKid, WithParent;
      y := TurnFields(d, x, s);
      SnapHolds(s);
    }

    method Rotate(d: Dir, x: Node<K>, ghost p: Route<K>, ghost t: Shape<K>) returns (y: Node<K>)
      requires t.Node? && t.item.id == x && Child(t, d.Opp()).Node? && Holds(p, t)
      modifies this`root, Ids(t)`left, Ids(t)`right, Ids(t)`parent
      modifies PathIds(p)`left, PathIds(p)`right, PathIds(p)`parent
      ensures Holds(p, Rotated(t, d))
      ensures y == Rotated(t, d).item.id
    {
      ghost var s := Ids(t) + PathIds(p);
      ghost var m := Snap(s);
      ghost var x0, y0, b, up := RotateReads(m, p, t, d, root, nil);
      y := Turn(d, x, s);
      RotateAt(m, Snap(s), p, t, d, x, y, b, up, old(root), root, nil);
      RotatedKeeps(t, d);
    }

    /** Hangs a fresh red node below `up`, on side `d`, or makes it the root. */
    method Attach(elm: Node<K>, up: Node?<K>, d: Dir, ghost p: Route<K>)
      requires Holds(p, Leaf) && elm !in PathIds(p) && elm != nil
      requires up == Above(p, nil) && (p.Step? ==> p.d == d)
      modifies this`root, elm`left, elm`right, elm`parent, elm`color, PathIds(p)`left, PathIds(p)`right
      ensures Holds(p, Tree.Node(Leaf, Item(elm, elm.key), Red, Leaf))
      ensures elm.key == old(elm.key)
    {
      ghost var s: set<Node?<K>> := PathIds(p);
      ghost var m := Snap(s);
      assert s == Ids<Node?<K>, K>(Leaf) + PathIds(p);
      Reads(p, Leaf);
      elm.parent := up;
      elm.left, elm.right, elm.color := nil, nil, Red;
      if up != nil {
        up.SetKid(d, elm);
      } else {
        root := elm;
      }
      ghost var t: Shape<K> := Tree.Node(Leaf, Item(elm, elm.key), Red, Leaf);
      assert Ids(t) + PathIds(p) == s + {elm};
      AttachAt(m, Snap(s + {elm}), p, t.item, old(root), root, nil);
    }
  }
}
