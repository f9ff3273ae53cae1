/** The red-black tree of nty_tree.h: leaves are NULL pointers, keys are compared as integers
    (deadlines in the sleep tree, descriptors in the wait tree). */
module NtyTree {
  import opened Trees
  import opened RedBlack
  import opened LinkedTrees
  import opened SearchOrder
  import opened InsertSteps

  /** RB_INSERT_COLOR: from a red node whose parent may be red to a red-black tree. */
  method InsertColor(head: Head<int>, elm: Node<int>, ghost z0: Place<int>, ghost h0: nat)
    requires head.nil == null && head.Holds(z0.path, z0.tree) && Rising(z0, h0) && z0.tree.item.id == elm
    modifies head`root, head`tree, z0.All()
    ensures head.Holds(Top, head.tree) && RedBlackTree(head.tree)
    ensures Items(head.tree) == Items(z0.Whole()) && Ids(head.tree) == z0.All()
  {
    hide Bal, BalPath, Head.Holds, Items, Ids, PathIds, Plug;
    var elm: Node<int> := elm;
    ghost var z, h := z0, h0;
    TopFields(head, z);
    while elm.parent != null && elm.parent.color.Red?
      invariant head.Holds(z.path, z.tree) && Rising(z, h) && z.tree.item.id == elm && z.Same(z0)
      invariant z.path.Step? ==> elm.parent != null && elm.parent.color == z.path.color
      invariant elm.parent != null ==> z.path.Step?
      decreases Depth(z.path)
    {
      UncleFields(head, z, h);
      var parent := elm.parent;
      var gparent := parent.parent;
      var d := if parent == gparent.left then L else R;
      var uncle := gparent.Kid(d.Opp());
      if uncle != null && uncle.color.Red? {
        z := RecolorUncle(head, uncle, parent, gparent, z, h);
        h, elm := h + 1, gparent;
        TopFields(head, z);
        continue;
      }
      if parent.Kid(d.Opp()) == elm {
        z := RotateInner(head, d, parent, z, h);
        parent, elm := elm, parent;
      }
      z := RotateOuter(head, d, parent, gparent, z, h);
      TopFields(head, z);
    }
    BlackenRoot(head, z, h);
  }

  // ---------- the operations ----------

  /** The order of nty_coroutine_sleep_cmp and nty_coroutine_wait_cmp. */
  const LT: (int, int) -> bool := (a, b) => a < b

  ghost predicate Valid(head: Head<int>)
    reads head, Ids(head.tree)
  {
    && head.nil == null && head.Holds(Top, head.tree)
    && RedBlackTree(head.tree) && Ascending(Items(head.tree), LT)
  }

  /** Smaller keys are on the left. */
  lemma SearchTree(head: Head<int>)
    requires Valid(head)
    ensures Bst(head.tree)
  {
    AscendingBst(head.tree, LT);
  }

  /** RB_FIND. */
  method Find(head: Head<int>, key: int) returns (r: Node?<int>, ghost steps: nat)
    requires Valid(head)
    ensures r != null <==> HasKey(Items(head.tree), key)
    ensures r != null ==> r in Ids(head.tree) && r.key == key
    ensures steps == Rounds(head.tree, key, LT) && Pow2(steps) <= (|Items(head.tree)| + 1) * (|Items(head.tree)| + 1)
  {
    hide Bal, Head.Holds, Items, Ids, PathIds, Plug, HasKey, Between, Ascending;
    StartBetween(head.tree, key, LT);
    var tmp := head.root;
    ghost var p: Route<int>, t: Shape<int> := Top, head.tree;
    head.Reads(p, t);
    steps := 0;
    while tmp != null
      invariant head.Holds(p, t) && Plug(p, t) == head.tree && tmp == Ptr(t, null)
      invariant Between(p, key, LT)
      invariant steps + Rounds(t, key, LT) == Rounds(head.tree, key, LT)
      decreases t
    {
      head.Reads(p, t);
      PlugIds(p, t);
      steps := steps + 1;
      var d;
      if key < tmp.key {
        d := L;
      } else if key > tmp.key {
        d := R;
      } else {
        KeyInFocus(p, t, key, LT);
        TopItem(t);
        SearchBound(head.tree, key, LT);
        return tmp, steps;
      }
      tmp := tmp.Kid(d);
      Descend(p, t, key, d, LT);
      head.Refocus(p, d, t.item, t.color, Child(t, d.Opp()), Child(t, d));
      p, t := Step(p, d, t.item, t.color, Child(t, d.Opp())), Child(t, d);
    }
    head.Reads(p, t);
    TopIfAny(t);
    KeyInFocus(p, t, key, LT);
    SearchBound(head.tree, key, LT);
    r := null;
  }

  /** `r` is the first item of `s` whose key is not below `key`; there is none if `r` is null. */
  ghost predicate IsCeiling(s: seq<Item<Node?<int>, int>>, key: int, r: Node?<int>) {
    if r == null then AllBelow(s, key, LT)
    else exists i :: 0 <= i < |s| && s[i].id == r && s[i].key >= key && AllBelow(s[..i], key, LT)
  }

  lemma CeilingHere(p: Route<int>, t: Shape<int>, key: int)
    requires t.Node? && t.item.key == key && t.item.id != null && Ascending(Items(Plug(p, t)), LT)
    ensures IsCeiling(Items(Plug(p, t)), key, t.item.id)
  {
    hide Plug;
    PlugItems(p, t);
    var b, a := Before(p) + Items(t.left), Items(t.right) + After(p);
    var s := Items(Plug(p, t));
    assert s == b + [t.item] + a;
    hide Items, Before, After;
    AroundMiddle(b, t.item, a, LT);
    assert s[|b|] == t.item && s[..|b|] == b;
  }

  lemma CeilingAbove(p: Route<int>, key: int, r: Node?<int>)
    requires Between(p, key, LT)
    requires if After(p) == [] then r == null else r != null && After(p)[0].id == r
    ensures IsCeiling(Items(Plug(p, Leaf)), key, r)
  {
    hide Plug;
    PlugItems(p, Leaf);
    var s := Items(Plug(p, Leaf));
    assert s == Before(p) + After(p);
    if r != null {
      var i := |Before(p)|;
      assert s[i] == After(p)[0] && s[..i] == Before(p);
      assert LT(key, After(p)[0].key);
      assert s[i].id == r && s[i].key >= key && AllBelow(s[..i], key, LT);
    }
  }

  /** RB_NFIND: the first node at or after a key. */
  method NFind(head: Head<int>, key: int) returns (r: Node?<int>)
    requires Valid(head)
    ensures IsCeiling(Items(head.tree), key, r)
  {
    hide Bal, Head.Holds, Items, Ids, PathIds, Plug, Between, Ascending, IsCeiling;
    StartBetween(head.tree, key, LT);
    var tmp := head.root;
    r := null;
    ghost var p: Route<int>, t: Shape<int> := Top, head.tree;
    head.Reads(p, t);
    while tmp != null
      invariant head.Holds(p, t) && Plug(p, t) == head.tree && tmp == Ptr(t, null)
      invariant Between(p, key, LT)
      invariant if After(p) == [] then r == null else r != null && After(p)[0].id == r
      decreases t
    {
      head.Reads(p, t);
      TopItem(t);
      var d;
      if key < tmp.key {
        r := tmp;
        d := L;
      } else if key > tmp.key {
        d := R;
      } else {
        CeilingHere(p, t, key);
        return tmp;
      }
      tmp := tmp.Kid(d);
      Descend(p, t, key, d, LT);
      head.Refocus(p, d, t.item, t.color, Child(t, d.Opp()), Child(t, d));
      p, t := Step(p, d, t.item, t.color, Child(t, d.Opp())), Child(t, d);
    }
    head.Reads(p, t);
    TopIfAny(t);
    CeilingAbove(p, key, r);
  }

  /** RB_MINMAX: the leftmost or the rightmost node. */
  method MinMax(head: Head<int>, d: Dir) returns (r: Node?<int>)
    requires Valid(head)
    ensures r == null <==> Items(head.tree) == []
    ensures r != null ==> r in Ids(head.tree)
    ensures r != null ==> Item(r, r.key) == Items(head.tree)[if d.L? then 0 else |Items(head.tree)| - 1]
  {
    var tmp := head.root;
    r := null;
    ghost var p: Route<int>, t: Shape<int> := Top, head.tree;
    head.Reads(p, t);
    while tmp != null
      invariant head.Holds(p, t) && Plug(p, t) == head.tree && tmp == Ptr(t, null)
      invariant r == null <==> p == Top
      invariant p.Step? ==> r == p.item.id && r != null && r.key == p.item.key
      invariant if d.L? then Before(p) == [] else After(p) == []
      invariant p.Step? ==> p.d == d
      decreases t
    {
      head.Reads(p, t);
      r := tmp;
      tmp := tmp.Kid(d);
      PlugStep(p, t, d);
      head.Refocus(p, d, t.item, t.color, Child(t, d.Opp()), Child(t, d));
      p, t := Step(p, d, t.item, t.color, Child(t, d.Opp())), Child(t, d);
    }
    PlugItems(p, t);
    PlugIds(p, t);
  }

  /** The node that follows the place (d = R) or precedes it (d = L) among the items beside a path. */
  function Beside(p: Route<int>, d: Dir): Node?<int> {
    if d.R? then (if After(p) == [] then null else After(p)[0].id)
    else (if Before(p) == [] then null else Before(p)[|Before(p)| - 1].id)
  }

  /** The node next to the top of `z` on side `d`. */
  function NextTo(z: Place<int>, d: Dir): Node?<int>
    requires z.tree.Node?
  {
    var kid := Child(z.tree, d);
    if kid.Leaf? then Beside(z.path, d) else Items(kid)[if d.R? then 0 else |Items(kid)| - 1].id
  }

  /** The node next to place `i` on side `d`, null at the ends. */
  function NextIn(s: seq<Item<Node?<int>, int>>, i: nat, d: Dir): Node?<int>
    requires i < |s|
  {
    if d.R? then (if i + 1 < |s| then s[i + 1].id else null) else if i > 0 then s[i - 1].id else null
  }

  lemma NextToAt(z: Place<int>, d: Dir) returns (i: nat)
    requires z.tree.Node?
    ensures i < |Items(z.Whole())| && Items(z.Whole())[i] == z.tree.item
    ensures NextTo(z, d) == NextIn(Items(z.Whole()), i, d)
  {
    hide Plug;
    var t := z.tree;
    PlugItems(z.path, t);
    var s, b, a := Items(z.Whole()), Before(z.path) + Items(t.left), Items(t.right) + After(z.path);
    assert s == b + [t.item] + a;
    i := |b|;
    assert i + 1 < |s| ==> s[i + 1] == a[0];
    assert i > 0 ==> s[i - 1] == b[i - 1];
  }

  /** A node stands at one place of the order only. */
  lemma OncePlaced(head: Head<int>, i: nat, j: nat)
    requires Valid(head) && i < |Items(head.tree)| && j < |Items(head.tree)|
    requires Items(head.tree)[i].id == Items(head.tree)[j].id
    ensures i == j
  {
    var p: Route<int> := Top;
    RepItems(Snap(Ids(head.tree) + PathIds(p)), head.tree, null, null);
  }

  /** RB_NEXT (d = R) and RB_PREV (d = L): the in-order neighbour on side `d`. */
  method Neighbour(head: Head<int>, d: Dir, elm: Node<int>) returns (r: Node?<int>)
    requires Valid(head) && elm in Ids(head.tree)
    ensures var s := Items(head.tree); forall i :: 0 <= i < |s| && s[i].id == elm ==>
      if d.R? then (if i + 1 < |s| then r == s[i + 1].id else r == null) else if i > 0 then r == s[i - 1].id else r == null
  {
    hide Items;
    ghost var z := Locate(Top, head.tree, elm);
    ghost var i := NextToAt(z, d);
    forall j | 0 <= j < |Items(head.tree)| && Items(head.tree)[j].id == elm
      ensures j == i
    {
      OncePlaced(head, i, j);
    }
    head.Rise(z.path, z.tree);
    head.Reads(z.path, z.tree);
    if elm.Kid(d) != null {
      r := Outermost(head, d, elm.Kid(d), z);
    } else if elm.parent != null && elm == elm.parent.Kid(d.Opp()) {
      r := elm.parent;
    } else {
      r := ClimbOut(head, d, elm, z);
    }
  }

  /** One step into the subtree on side `d`, then as far as possible the other way. */
  method Outermost(head: Head<int>, d: Dir, kid: Node<int>, ghost z: Place<int>) returns (r: Node<int>)
    requires head.nil == null && head.Holds(z.path, z.tree) && z.tree.Node? && kid == Ptr(Child(z.tree, d), null)
    ensures r == NextTo(z, d)
  {
    hide Head.Holds;
    r := kid;
    ghost var p: Route<int>, t: Shape<int> := Step(z.path, d, z.tree.item, z.tree.color, Child(z.tree, d.Opp())), Child(z.tree, d);
    head.Refocus(z.path, d, z.tree.item, z.tree.color, Child(z.tree, d.Opp()), t);
    head.Reads(p, t);
    assert t.Node?;
    while r.Kid(d.Opp()) != null
      invariant head.Holds(p, t) && t.Node? && r == t.item.id
      invariant Items(t)[if d.R? then 0 else |Items(t)| - 1].id == NextTo(z, d)
      invariant r.Kid(d.Opp()) == Ptr(Child(t, d.Opp()), null)
      decreases t
    {
      r := r.Kid(d.Opp());
      head.Refocus(p, d.Opp(), t.item, t.color, Child(t, d), Child(t, d.Opp()));
      p, t := Step(p, d.Opp(), t.item, t.color, Child(t, d)), Child(t, d.Opp());
      head.Reads(p, t);
    }
    head.Reads(p, t);
  }

  /** Up until the subtree hangs on the other side; the node above it is the neighbour. */
  method ClimbOut(head: Head<int>, d: Dir, elm: Node<int>, ghost z: Place<int>) returns (r: Node?<int>)
    requires head.nil == null && head.Holds(z.path, z.tree) && z.tree.Node? && elm == z.tree.item.id
    ensures r == Beside(z.path, d)
  {
    hide Head.Holds, Beside, Node.Kid;
    var n: Node<int> := elm;
    ghost var p, t := z.path, z.tree;
    UpFields(head, p, t, d);
    while n.parent != null && n == n.parent.Kid(d)
      invariant head.Holds(p, t) && t.Node? && n == t.item.id
      invariant Beside(p, d) == Beside(z.path, d)
      invariant n.parent == Above(p, null)
      invariant p.Step? ==> n.parent != null && (n == n.parent.Kid(d) <==> p.d == d)
      decreases p
    {
      n := n.parent;
      head.Refocus(p.up, p.d, p.item, p.color, p.sib, t);
      BesideUp(p, d);
      p, t := p.up, Make(p.d, t, p.item, p.color, p.sib);
      UpFields(head, p, t, d);
    }
    BesideUp(p, d);
    r := n.parent;
  }

  /** How the top of the focus hangs. */
  lemma UpFields(head: Head<int>, p: Route<int>, t: Shape<int>, d: Dir)
    requires head.nil == null && head.Holds(p, t) && t.Node?
    ensures t.item.id != null && t.item.id.parent == Above(p, null)
    ensures p.Step? ==> t.item.id.parent != null && (t.item.id == t.item.id.parent.Kid(d) <==> p.d == d)
  {
    hide Head.Holds;
    head.Reads(p, t);
  }

  /** What follows a subtree, one level up. */
  lemma BesideUp(p: Route<int>, d: Dir)
    ensures p.Top? ==> Beside(p, d) == null
    ensures p.Step? ==> Beside(p, d) == if p.d == d then Beside(p.up, d) else p.item.id
  {
  }

  /** The end of RB_INSERT: link the new node in where the search ended, and repair the colours. */
  method LinkIn(head: Head<int>, elm: Node<int>, parent: Node?<int>, d: Dir, ghost p: Route<int>)
    requires Valid(head) && elm !in Ids(head.tree) && Plug(p, Leaf) == head.tree && Between(p, elm.key, LT)
    requires parent == Above(p, null) && (p.Step? ==> p.d == d)
    modifies head`root, head`tree, elm, Ids(head.tree)
    ensures Valid(head) && elm.key == old(elm.key)
    ensures !HasKey(old(Items(head.tree)), elm.key)
    ensures Items(head.tree) == Insort(old(Items(head.tree)), Item(elm, elm.key), LT)
    ensures Ids(head.tree) == old(Ids(head.tree)) + {elm}
  {
    hide Bal, BalPath, Head.Holds, Plug, Ids, PathIds, Insort, Ascending, HasKey, Items;
    ghost var it: Item<Node?<int>, int> := Item(elm, elm.key);
    ghost var h := LinkShape(p, it, LT);
    ghost var s := Items(head.tree);
    head.Rise(p, Leaf);
    head.Attach(elm, parent, d, p);
    InsertColor(head, elm, Spot(p, RedLeaf(it)), h);
    ghost var i := InsortHas(s, it, LT);
    head.Keys(head.tree);
  }

  /** RB_INSERT: links in a node with a new key; a node with the same key is returned and nothing changes. */
  method Insert(head: Head<int>, elm: Node<int>) returns (same: Node?<int>)
    requires Valid(head) && elm !in Ids(head.tree)
    modifies head`root, head`tree, elm, Ids(head.tree)
    ensures Valid(head) && elm.key == old(elm.key)
    ensures same != null <==> HasKey(old(Items(head.tree)), elm.key)
    ensures same != null ==> same in old(Ids(head.tree)) && same.key == elm.key
    ensures same != null ==> unchanged(head) && unchanged(elm)
    ensures same == null ==> Items(head.tree) == Insort(old(Items(head.tree)), Item(elm, elm.key), LT)
    ensures same == null ==> Ids(head.tree) == old(Ids(head.tree)) + {elm}
  {
    hide Bal, Head.Holds, Items, Ids, PathIds, Plug, HasKey, Between, Ascending;
    var parent: Node?<int>, d := null, L;
    StartBetween(head.tree, elm.key, LT);
    var tmp := head.root;
    ghost var p: Route<int>, t: Shape<int> := Top, head.tree;
    head.Reads(p, t);
    while tmp != null
      invariant Valid(head) && unchanged(head) && unchanged(elm)
      invariant head.Holds(p, t) && Plug(p, t) == head.tree && tmp == Ptr(t, null)
      invariant Between(p, elm.key, LT)
      invariant parent == Above(p, null) && (p.Step? ==> p.d == d)
      decreases t
    {
      head.Reads(p, t);
      PlugIds(p, t);
      parent := tmp;
      if elm.key < parent.key {
        d := L;
      } else if elm.key > parent.key {
        d := R;
      } else {
        KeyInFocus(p, t, elm.key, LT);
        TopItem(t);
        return tmp;
      }
      tmp := tmp.Kid(d);
      Descend(p, t, elm.key, d, LT);
      head.Refocus(p, d, t.item, t.color, Child(t, d.Opp()), Child(t, d));
      p, t := Step(p, d, t.item, t.color, Child(t, d.Opp())), Child(t, d);
    }
    head.Reads(p, t);
    TopIfAny(t);
    LinkIn(head, elm, parent, d, p);
    same := null;
  }

  // ---------- removal ----------

  /** What RB_REMOVE_COLOR reads around a black subtree that is short. */
  lemma NephewFields(head: Head<int>, z: Place<int>, h: nat)
    requires head.nil == null && head.Holds(z.path, z.tree) && Short(z, h) && IsBlack(z.tree) && z.path.Step?
    ensures z.path.sib.Node?
    ensures var parent, tmp := z.path.item.id, z.path.sib.item.id;
            && parent != null && tmp != null && parent.color == z.path.color && tmp.color == z.path.sib.color
            && (parent.left == Ptr(z.tree, null) <==> z.path.d.L?) && parent.Kid(z.path.d.Opp()) == tmp
            && parent in z.All() && tmp in z.All()
    ensures var tmp, near, far := z.path.sib.item.id, Near(z), Far(z);
            && tmp.Kid(z.path.d) == Ptr(near, null) && tmp.Kid(z.path.d.Opp()) == Ptr(far, null)
            && (near.Node? ==> near.item.id != null && near.item.id.color == near.color && near.item.id in z.All())
            && (far.Node? ==> far.item.id != null && far.item.id.color == far.color && far.item.id in z.All())
  {
    ShortHasSibling(z, h);
    head.Reads(z.path, z.tree);
    var p := z.path;
    head.Refocus(p.up, p.d, p.item, p.color, p.sib, z.tree);
    head.Refocus(p.up, p.d.Opp(), p.item, p.color, z.tree, p.sib);
    var q := Step(p.up, p.d.Opp(), p.item, p.color, z.tree);
    head.Refocus(q, L, p.sib.item, p.sib.color, p.sib.right, p.sib.left);
    head.Reads(Step(q, L, p.sib.item, p.sib.color, p.sib.right), p.sib.left);
  }

  method TurnSibling(head: Head<int>, d: Dir, parent: Node<int>, tmp: Node<int>, ghost z: Place<int>, ghost h: nat)
    returns (ghost z': Place<int>)
    requires head.nil == null && head.Holds(z.path, z.tree) && Short(z, h) && ShortBeside(z, Red) && z.path.d == d
    requires parent == z.path.item.id && tmp == z.path.sib.item.id
    modifies head`root, z.All()
    ensures z' == SiblingTurned(z)
    ensures head.Holds(z'.path, z'.tree) && Short(z', h) && ShortBeside(z', Black) && z'.Same(z)
  {
    hide Bal, BalPath, Items, Head.Holds;
    ghost var p, t := z.path, z.tree;
    head.Refocus(p.up, d, p.item, p.color, p.sib, t);
    head.Refocus(p.up, d.Opp(), p.item, p.color, t, p.sib);
    head.Recolor(tmp, Black, Step(p.up, d.Opp(), p.item, p.color, t), p.sib);
    ghost var sib := Paint(p.sib, Black);
    head.Refocus(p.up, d.Opp(), p.item, p.color, t, sib);
    ghost var mid := Make(d, t, p.item, p.color, sib);
    head.Recolor(parent, Red, p.up, mid);
    var _ := head.Rotate(d, parent, p.up, Paint(mid, Red));
    z' := SiblingTurned(z);
    head.Refocus(p.up, d, p.sib.item, Black, Far(z), Make(d, t, p.item, Red, Near(z)));
    head.Refocus(z'.path.up, d, p.item, Red, Near(z), t);
    RemoveRedSibling(z, h);
    SiblingTurnedSame(z);
  }

  method ReddenSibling(head: Head<int>, tmp: Node<int>, ghost z: Place<int>, ghost h: nat)
    returns (ghost z': Place<int>, ghost h': nat)
    requires head.nil == null && head.Holds(z.path, z.tree) && Short(z, h) && ShortBeside(z, Black)
    requires IsBlack(Near(z)) && IsBlack(Far(z)) && tmp == z.path.sib.item.id
    modifies tmp`color
    ensures head.Holds(z'.path, z'.tree) && Short(z', h') && z'.Same(z)
    ensures z'.tree.Node? && z'.tree.item == z.path.item && z'.path == z.path.up
    ensures IsBlack(z'.tree) <==> z.path.color.Black?
  {
    hide Bal, BalPath, Items, Head.Holds;
    ghost var p, t := z.path, z.tree;
    head.Refocus(p.up, p.d, p.item, p.color, p.sib, t);
    head.Refocus(p.up, p.d.Opp(), p.item, p.color, t, p.sib);
    head.Recolor(tmp, Red, Step(p.up, p.d.Opp(), p.item, p.color, t), p.sib);
    head.Refocus(p.up, p.d.Opp(), p.item, p.color, t, Paint(p.sib, Red));
    z' := SiblingReddened(z);
    h' := RemoveBlackNephews(z, h);
    SiblingReddenedSame(z);
  }

  method TurnNear(head: Head<int>, d: Dir, tmp: Node<int>, near: Node?<int>, ghost z: Place<int>, ghost h: nat)
    returns (ghost z': Place<int>)
    requires head.nil == null && head.Holds(z.path, z.tree) && Short(z, h) && ShortBeside(z, Black) && z.path.d == d
    requires !IsBlack(Near(z)) && IsBlack(Far(z)) && tmp == z.path.sib.item.id && near == Ptr(Near(z), null)
    modifies head`root, z.All()
    ensures head.Holds(z'.path, z'.tree) && Short(z', h) && ShortBeside(z', Black) && !IsBlack(Far(z')) && z'.Same(z)
    ensures z'.path.d == d && z'.path.item == z.path.item && z'.tree == z.tree
  {
    hide Bal, BalPath, Items;
    ghost var p, t, sib := z.path, z.tree, z.path.sib;
    NephewFields(head, z, h);
    hide Head.Holds;
    ghost var q := Step(p.up, d.Opp(), p.item, p.color, t);
    head.Refocus(p.up, d, p.item, p.color, sib, t);
    head.Refocus(p.up, d.Opp(), p.item, p.color, t, sib);
    head.Refocus(q, d, sib.item, sib.color, Far(z), Near(z));
    if near != null {
      head.Recolor(near, Black, Step(q, d, sib.item, sib.color, Far(z)), Near(z));
    }
    ghost var near' := Paint(Near(z), Black);
    head.Refocus(q, d, sib.item, sib.color, Far(z), near');
    ghost var low := Make(d, near', sib.item, sib.color, Far(z));
    head.Recolor(tmp, Red, q, low);
    var _ := head.Rotate(d.Opp(), tmp, q, Paint(low, Red));
    z' := NearTurned(z);
    head.Refocus(p.up, d.Opp(), p.item, p.color, t, z'.path.sib);
    head.Refocus(p.up, d, p.item, p.color, z'.path.sib, t);
    RemoveNearNephew(z, h);
    NearTurnedSame(z);
  }

  method TurnFar(head: Head<int>, d: Dir, parent: Node<int>, tmp: Node<int>, ghost z: Place<int>, ghost h: nat)
    returns (ghost z': Place<int>)
    requires head.nil == null && head.Holds(z.path, z.tree) && Short(z, h) && ShortBeside(z, Black) && z.path.d == d
    requires !IsBlack(Far(z)) && parent == z.path.item.id && tmp == z.path.sib.item.id
    modifies head`root, z.All()
    ensures head.Holds(z'.path, z'.tree) && RedBlackTree(z'.Whole()) && z'.Same(z)
  {
    hide Bal, BalPath, Items;
    ghost var p, t, sib := z.path, z.tree, z.path.sib;
    NephewFields(head, z, h);
    hide Head.Holds;
    var far := tmp.Kid(d.Opp());
    ghost var q := Step(p.up, d.Opp(), p.item, p.color, t);
    head.Refocus(p.up, d, p.item, p.color, sib, t);
    head.Refocus(p.up, d.Opp(), p.item, p.color, t, sib);
    head.Recolor(tmp, parent.color, q, sib);
    ghost var sib' := Paint(sib, p.color);
    head.Refocus(p.up, d.Opp(), p.item, p.color, t, sib');
    head.Recolor(parent, Black, p.up, Make(d, t, p.item, p.color, sib'));
    ghost var q' := Step(p.up, d.Opp(), p.item, Black, t);
    head.Refocus(p.up, d.Opp(), p.item, Black, t, sib');
    head.Refocus(q', d.Opp(), sib.item, p.color, Near(z), Far(z));
    if far != null {
      head.Recolor(far, Black, Step(q', d.Opp(), sib.item, p.color, Near(z)), Far(z));
    }
    ghost var far' := Paint(Far(z), Black);
    head.Refocus(q', d.Opp(), sib.item, p.color, Near(z), far');
    head.Refocus(p.up, d.Opp(), p.item, Black, t, Make(d, Near(z), sib.item, p.color, far'));
    var _ := head.Rotate(d, parent, p.up, Make(d, t, p.item, Black, Make(d, Near(z), sib.item, p.color, far')));
    z' := FarTurned(z);
    RemoveFarNephew(z, h);
    FarTurnedSame(z);
  }

  /** The arm of RB_REMOVE_COLOR that ends the loop: a black sibling with a red child. */
  method TurnNephews(head: Head<int>, d: Dir, parent: Node<int>, tmp: Node<int>, ghost z: Place<int>, ghost h: nat)
    returns (ghost z': Place<int>, ghost h': nat)
    requires head.nil == null && head.Holds(z.path, z.tree) && Short(z, h) && ShortBeside(z, Black) && z.path.d == d
    requires !(IsBlack(Near(z)) && IsBlack(Far(z))) && parent == z.path.item.id && tmp == z.path.sib.item.id
    modifies head`root, z.All()
    ensures head.Holds(z'.path, z'.tree) && z'.path.Top? && Short(z', h') && z'.Same(z)
  {
    hide Bal, BalPath, Items, Head.Holds, Plug;
    NephewFields(head, z, h);
    var tmp, y := tmp, z;
    if tmp.Kid(d.Opp()) == null || tmp.Kid(d.Opp()).color.Black? {
      y := TurnNear(head, d, tmp, tmp.Kid(d), y, h);
      NephewFields(head, y, h);
      tmp := parent.Kid(d.Opp());
    }
    y := TurnFar(head, d, parent, tmp, y, h);
    head.Rise(y.path, y.tree);
    z' := Spot(Top, y.Whole());
    PlugTop(y.Whole());
    h' := FinishedIsShort(z'.tree);
  }

  lemma PlugTop(t: Shape<int>)
    ensures Plug(Top, t) == t
  {
  }

  /** One arm of the loop of RB_REMOVE_COLOR; `ended` says that it left the loop. */
  method RemoveArm(head: Head<int>, d: Dir, parent: Node<int>, ghost z: Place<int>, ghost h: nat)
    returns (ended: bool, ghost z': Place<int>, ghost h': nat)
    requires head.nil == null && head.Holds(z.path, z.tree) && Short(z, h) && IsBlack(z.tree) && z.path.Step?
    requires z.path.d == d && parent == z.path.item.id
    modifies head`root, z.All()
    ensures head.Holds(z'.path, z'.tree) && Short(z', h') && z'.Same(z)
    ensures ended ==> z'.path.Top?
    ensures !ended ==> z'.tree.Node? && z'.tree.item.id == parent
    ensures !ended ==> Depth(z'.path) < Depth(z.path) || (Depth(z'.path) == Depth(z.path) && !IsBlack(z'.tree))
  {
    hide Bal, BalPath, Items, Head.Holds, Plug, Short, RedBlackTree;
    NephewFields(head, z, h);
    var tmp := parent.Kid(d.Opp());
    ghost var y := z;
    if tmp.color.Red? {
      y := TurnSibling(head, d, parent, tmp, y, h);
      NephewFields(head, y, h);
      tmp := parent.Kid(d.Opp());
    }
    if (tmp.Kid(d) == null || tmp.Kid(d).color.Black?) && (tmp.Kid(d.Opp()) == null || tmp.Kid(d.Opp()).color.Black?) {
      z', h' := ReddenSibling(head, tmp, y, h);
      ended := false;
    } else {
      z', h' := TurnNephews(head, d, parent, tmp, y, h);
      ended := true;
    }
  }

  /** RB_REMOVE_COLOR: from a subtree one black node short, which may be missing altogether, to a red-black tree. */
  method RemoveColor(head: Head<int>, parent: Node?<int>, elm: Node?<int>, ghost z0: Place<int>, ghost h0: nat)
    requires head.nil == null && head.Holds(z0.path, z0.tree) && Short(z0, h0)
    requires elm == Ptr(z0.tree, null) && parent == Above(z0.path, null)
    modifies head`root, head`tree, z0.All()
    ensures head.Holds(Top, head.tree) && RedBlackTree(head.tree)
    ensures Items(head.tree) == Items(z0.Whole()) && Ids(head.tree) == z0.All()
  {
    hide Bal, BalPath, Items, Head.Holds, Plug, Ids, PathIds, Short, RedBlackTree;
    var parent, elm := parent, elm;
    ghost var z, h := z0, h0;
    Guard(head, z);
    while (elm == null || elm.color.Black?) && elm != head.root
      invariant head.Holds(z.path, z.tree) && Short(z, h) && z.Same(z0)
      invariant elm == Ptr(z.tree, null) && parent == Above(z.path, null)
      invariant (elm == null || elm.color.Black?) <==> IsBlack(z.tree)
      invariant elm != head.root <==> z.path.Step?
      decreases Depth(z.path), if IsBlack(z.tree) then 1 else 0
    {
      NephewFields(head, z, h);
      var d := if parent.left == elm then L else R;
      var ended;
      ended, z, h := RemoveArm(head, d, parent, z, h);
      Guard(head, z);
      if ended {
        elm := head.root;
        break;
      }
      elm := parent;
      parent := elm.parent;
    }
    EndRemove(head, elm, z, h);
  }

  /** The last lines of RB_REMOVE_COLOR. */
  method EndRemove(head: Head<int>, elm: Node?<int>, ghost z: Place<int>, ghost h: nat)
    requires head.nil == null && head.Holds(z.path, z.tree) && Short(z, h) && elm == Ptr(z.tree, null)
    requires !IsBlack(z.tree) || z.path.Top?
    modifies head`tree, z.All()
    ensures head.Holds(Top, head.tree) && RedBlackTree(head.tree)
    ensures Items(head.tree) == Items(z.Whole()) && Ids(head.tree) == z.All()
  {
    hide Bal, BalPath, Items, Plug, Head.Holds;
    head.Reads(z.path, z.tree);
    if elm != null {
      head.Recolor(elm, Black, z.path, z.tree);
    }
    ghost var t := Paint(z.tree, Black);
    head.Close(z.path, t);
    ShortEnds(z, h);
    PaintKeeps(z.tree, Black);
    LocalSame(z.path, z.tree, t);
  }

  /** What the loop of RB_REMOVE_COLOR tests. */
  lemma Guard(head: Head<int>, z: Place<int>)
    requires head.nil == null && head.Holds(z.path, z.tree)
    ensures Ptr(z.tree, null) != null <==> z.tree.Node?
    ensures z.tree.Node? ==> z.tree.item.id.color == z.tree.color && z.tree.item.id.parent == Above(z.path, null)
    ensures Ptr(z.tree, null) != head.root <==> z.path.Step?
    ensures z.path.Step? ==> z.path.item.id != null
  {
    head.Reads(z.path, z.tree);
    RootInPath(Snap(z.All()), z.path, Ptr(z.tree, null), head.root, null);
  }

  /** Unlinks a node with at most one child from the nodes around it. */
  method Bypass(head: Head<int>, elm: Node<int>, child: Node?<int>, parent: Node?<int>,
                ghost p: Route<int>, ghost t: Shape<int>, ghost d: Dir)
    requires head.nil == null && head.Holds(p, t) && t.Node? && t.item.id == elm && Child(t, d.Opp()).Leaf?
    requires child == Ptr(Child(t, d), null) && parent == Above(p, null)
    modifies head`root, Ids(t), PathIds(p)
    ensures head.Holds(p, Child(t, d))
    ensures elm.Content() == old(elm.Content())
    ensures elm !in Ids(Child(t, d)) + PathIds(p) && Ids(Child(t, d)) + PathIds(p) == Ids(t) + PathIds(p) - {elm}
  {
    ghost var s, s' := Ids(t) + PathIds(p), Ids(Child(t, d)) + PathIds(p);
    ghost var m := Snap(s);
    head.Reads(p, t);
    Open(m, t, d, Above(p, null), null);
    assert s' == s - {elm};
    if child != null {
      child.parent := parent;
    }
    head.Replace(parent, elm, child);
    BypassAt(m, Snap(s'), p, t, d, old(head.root), head.root, null);
  }

  /** The copy of links and colour from `gone` to `elm`, and the cells it changes among the nodes `s`. */
  method CopyLinks(head: Head<int>, gone: Node<int>, elm: Node<int>, ghost s: set<Node?<int>>)
    requires head.nil == null && null !in s && gone in s && elm !in s
    requires var l, r, up := gone.left, gone.right, gone.parent;
             && l != null && l in s && l != gone && l != r && l != up
             && (r != null ==> r in s && r != gone && r != up) && (up != null ==> up in s && up != gone)
    modifies head`root, elm, s
    ensures elm.key == old(elm.key) && gone.key == old(gone.key)
    ensures var m, m', l, r, up := old(Snap(s)), Snap(s - {gone} + {elm}), old(gone.left), old(gone.right), old(gone.parent);
            && m'[elm] == m[gone].(key := elm.key)
            && m'[l] == WithParent(m[l], elm)
            && (r != null ==> m'[r] == WithParent(m[r], elm))
            && (up != null ==> m'[up] == WithKid(m[up], if m[up].left == gone then L else R, elm))
            && (forall i :: i in m && i != gone && i != up && i != l && i != r ==> m'[i] == m[i])
            && head.root == if up == null then elm else old(head.root)
  {
    elm.left, elm.right, elm.parent, elm.color := gone.left, gone.right, gone.parent, gone.color;
    head.Replace(gone.parent, gone, elm);
    gone.left.parent := elm;
    if gone.right != null {
      gone.right.parent := elm;
    }
  }

  /** `elm`, itself outside the tree, takes over the links and colour of `gone`. */
  method TakePlace(head: Head<int>, gone: Node<int>, elm: Node<int>, ghost p: Route<int>, ghost t: Shape<int>)
    requires head.nil == null && head.Holds(p, t) && t.Node? && t.item.id == gone && t.left.Node?
    requires elm !in Ids(t) && elm !in PathIds(p)
    modifies head`root, elm, Ids(t), PathIds(p)
    ensures head.Holds(p, t.(item := Item(elm, elm.key)))
    ensures Ids(t.(item := Item(elm, elm.key))) + PathIds(p) == Ids(t) + PathIds(p) - {gone} + {elm}
    ensures elm.key == old(elm.key) && gone.key == old(gone.key)
  {
    hide Rep, Sep, PathSep, PathRep, At, Ids, PathIds;
    ghost var s := Ids(t) + PathIds(p);
    ghost var m := Snap(s);
    FocusReads(m, p, t, head.root, null);
    CopyLinks(head, gone, elm, s);
    TakePlaceAt(m, Snap(s - {gone} + {elm}), p, t, Item(elm, elm.key), old(head.root), head.root, null);
    SwapIds(m, p, t, Item(elm, elm.key), old(head.root));
  }

  lemma SwapIds(m: map<Node?<int>, Cell<Node?<int>, int>>, p: Route<int>, t: Shape<int>, it: Item<Node?<int>, int>,
                root: Node?<int>)
    requires t.Node? && At(m, p, t, root, null)
    ensures Ids(t.(item := it)) + PathIds(p) == Ids(t) + PathIds(p) - {t.item.id} + {it.id}
  {
  }

  /** `s` without its item at `i`. */
  function Drop(s: seq<Item<Node?<int>, int>>, i: nat): seq<Item<Node?<int>, int>>
    requires i < |s|
  {
    s[..i] + s[i + 1..]
  }

  lemma DropMiddle(a: seq<Item<Node?<int>, int>>, it: Item<Node?<int>, int>, b: seq<Item<Node?<int>, int>>)
    requires Ascending(a + [it] + b, LT)
    ensures Drop(a + [it] + b, |a|) == a + b && Ascending(a + b, LT)
  {
    var s, u := a + [it] + b, a + b;
    forall i, j | 0 <= i < j < |u| ensures LT(u[i].key, u[j].key) {
      assert u[i] == s[if i < |a| then i else i + 1] && u[j] == s[if j < |a| then j else j + 1];
    }
  }

  lemma OuterBalance(z: Place<int>, d: Dir) returns (h: nat)
    requires z.tree.Node? && Child(z.tree, d.Opp()).Leaf? && RedBlackTree(z.Whole())
    ensures var rest := Spot(z.path, Child(z.tree, d));
            if z.tree.color.Black? then Short(rest, h) else RedBlackTree(rest.Whole())
  {
    hide Plug, Items;
    var k := PlugBalInv(z.path, z.tree);
    BypassBalance(z.path, z.tree, d, k);
    h := if z.tree.color.Black? then k - 1 else k;
    if z.tree.color.Red? { PlugBal(z.path, Child(z.tree, d), k); }
  }

  lemma OuterItems(z: Place<int>, d: Dir) returns (i: nat)
    requires z.tree.Node? && Child(z.tree, d.Opp()).Leaf? && Ascending(Items(z.Whole()), LT)
    ensures i < |Items(z.Whole())| && Items(z.Whole())[i] == z.tree.item
    ensures var s := Items(Plug(z.path, Child(z.tree, d))); s == Drop(Items(z.Whole()), i) && Ascending(s, LT)
  {
    var p, t, u := z.path, z.tree, Child(z.tree, d);
    PlugItems(p, t);
    PlugItems(p, u);
    LeafBeside(t, d);
    hide Plug, Ascending, Items, Before, After, Drop;
    Regroup(Before(p), Items(t.left), t.item, Items(t.right), After(p));
    DropMiddle(Before(p) + Items(t.left), t.item, Items(t.right) + After(p));
    i := |Before(p) + Items(t.left)|;
  }

  lemma LeafBeside(t: Shape<int>, d: Dir)
    requires t.Node? && Child(t, d.Opp()).Leaf?
    ensures Items(t) == Items(t.left) + [t.item] + Items(t.right) && Items(Child(t, d)) == Items(t.left) + Items(t.right)
  {
  }

  /** RB_REMOVE for a node with at most one child, which hangs on side `d`. */
  method RemoveOuter(head: Head<int>, elm: Node<int>, child: Node?<int>, ghost z: Place<int>, ghost d: Dir)
    returns (ghost i: nat)
    requires Valid(head) && z.Whole() == head.tree && z.tree.Node? && z.tree.item.id == elm
    requires Child(z.tree, d.Opp()).Leaf? && child == Ptr(Child(z.tree, d), null)
    modifies head`root, head`tree, Ids(head.tree)
    ensures Valid(head) && Ids(head.tree) == old(Ids(head.tree)) - {elm}
    ensures i < |old(Items(head.tree))| && old(Items(head.tree))[i].id == elm
    ensures Items(head.tree) == Drop(old(Items(head.tree)), i) && elm.key == old(elm.key)
  {
    hide Bal, BalPath, Items, Plug, Head.Holds, Ascending, Drop, Short, RedBlackTree, Ids, PathIds;
    ghost var h := OuterBalance(z, d);
    i := OuterItems(z, d);
    head.Rise(z.path, z.tree);
    head.Reads(z.path, z.tree);
    var parent, color := elm.parent, elm.color;
    Bypass(head, elm, child, parent, z.path, z.tree, d);
    ghost var rest := Spot(z.path, Child(z.tree, d));
    if color.Black? {
      RemoveColor(head, parent, child, rest, h);
    } else {
      head.Close(rest.path, rest.tree);
    }
  }

  /** The part of the tree around an inner node: `base` leads to its right subtree, `q` on to the successor. */
  function Base(z: Place<int>, it: Item<Node?<int>, int>): Route<int>
    requires z.tree.Node?
  {
    Step(z.path, R, it, z.tree.color, z.tree.left)
  }

  lemma InnerWhole(z: Place<int>, q: Route<int>, u: Shape<int>, it: Item<Node?<int>, int>)
    requires z.tree.Node?
    ensures Plug(Join(q, Base(z, it)), u) == Plug(z.path, Tree.Node(z.tree.left, it, z.tree.color, Plug(q, u)))
  {
    JoinPlug(q, Base(z, it), u);
  }

  /** The balance left behind when the successor `u` moves up to the place of an inner node. */
  lemma InnerBalance(z: Place<int>, q: Route<int>, u: Shape<int>) returns (h: nat)
    requires z.tree.Node? && u.Node? && u.left.Leaf? && Plug(q, u) == z.tree.right && RedBlackTree(z.Whole())
    ensures var rest := Spot(Join(q, Base(z, u.item)), u.right);
            if u.color.Black? then Short(rest, h) else RedBlackTree(rest.Whole())
  {
    hide Plug, Items;
    InnerWhole(z, q, u, z.tree.item);
    var far := Join(q, Base(z, z.tree.item));
    var k := PlugBalInv(far, u);
    BalPathAnyItem(q, z.path, R, z.tree.item, u.item, z.tree.color, z.tree.left, k);
    var p := Join(q, Base(z, u.item));
    BypassBalance(p, u, R, k);
    h := if u.color.Black? then k - 1 else k;
    if u.color.Red? { PlugBal(p, u.right, k); }
  }

  lemma InnerItems(z: Place<int>, q: Route<int>, u: Shape<int>) returns (i: nat)
    requires z.tree.Node? && u.Node? && u.left.Leaf? && Plug(q, u) == z.tree.right && Before(q) == []
    requires Ascending(Items(z.Whole()), LT)
    ensures i < |Items(z.Whole())| && Items(z.Whole())[i] == z.tree.item
    ensures var s := Items(Plug(Join(q, Base(z, u.item)), u.right));
            s == Drop(Items(z.Whole()), i) && Ascending(s, LT)
  {
    hide Plug, Ascending, Join;
    var p, t := z.path, z.tree;
    var t' := Tree.Node(t.left, u.item, t.color, Plug(q, u.right));
    assert Items(t) == Items(t.left) + [t.item] + Items(t.right);
    assert Items(u) == [u.item] + Items(u.right);
    assert Items(t') == Items(t.left) + [u.item] + Items(Plug(q, u.right));
    hide Items, Before, After;
    InnerWhole(z, q, u.right, u.item);
    PlugItems(p, t);
    PlugItems(q, u);
    PlugItems(q, u.right);
    PlugItems(p, t');
    var r' := Items(Plug(q, u.right));
    HeadOut(Before(q), u.item, Items(u.right), After(q));
    Regroup(Before(p), Items(t.left), t.item, Items(t.right), After(p));
    Regroup(Before(p), Items(t.left), u.item, r', After(p));
    var a, b := Before(p) + Items(t.left), Items(t.right) + After(p);
    HeadIn(a, u.item, r', After(p));
    DropMiddle(a, t.item, b);
    i := |a|;
  }

  lemma HeadOut<T>(b: seq<T>, x: T, r: seq<T>, a: seq<T>)
    requires b == []
    ensures b + ([x] + r) + a == [x] + (b + r + a)
  {
  }

  lemma HeadIn<T>(b: seq<T>, x: T, r: seq<T>, a: seq<T>)
    ensures b + [x] + (r + a) == b + (([x] + r) + a)
  {
  }

  lemma Regroup<T>(b: seq<T>, l: seq<T>, x: T, r: seq<T>, a: seq<T>)
    ensures b + (l + [x] + r) + a == (b + l) + [x] + (r + a)
    ensures b + (l + r) + a == (b + l) + (r + a)
  {
  }

  /** RB_REMOVE for a node with two children: its successor is unlinked and takes its place. */
  method RemoveInner(head: Head<int>, gone: Node<int>, ghost z: Place<int>) returns (ghost i: nat)
    requires Valid(head) && z.Whole() == head.tree && z.tree.Node? && z.tree.item.id == gone
    requires z.tree.left.Node? && z.tree.right.Node?
    modifies head`root, head`tree, Ids(head.tree)
    ensures Valid(head) && Ids(head.tree) == old(Ids(head.tree)) - {gone}
    ensures i < |old(Items(head.tree))| && old(Items(head.tree))[i].id == gone
    ensures Items(head.tree) == Drop(old(Items(head.tree)), i) && gone.key == old(gone.key)
  {
    hide Bal, BalPath, Items, Plug, Head.Holds, Ascending, Drop, Short, RedBlackTree, Ids, PathIds, Join, Before;
    head.Rise(z.path, z.tree);
    head.Reads(z.path, z.tree);
    ghost var q, u;
    var elm: Node<int>;
    elm, q, u := Leftmost(head, gone, z);
    ghost var it: Item<Node?<int>, int> := u.item;
    ghost var h := InnerBalance(z, q, u);
    i := InnerItems(z, q, u);
    head.Reads(Join(q, Base(z, z.tree.item)), u);
    TopItem(u);
    var child, parent, color := elm.right, elm.parent, elm.color;
    ghost var base, base', r' := Base(z, z.tree.item), Base(z, it), Plug(q, u.right);
    head.Rejoin(q, base, u);
    BaseIds(z, z.tree.item, z.tree.right);
    BaseIds(z, z.tree.item, r');
    BaseIds(z, it, r');
    Bypass(head, elm, child, parent, Join(q, base), u, R);
    if parent == gone {
      parent := elm;
    }
    head.Rejoin(q, base, u.right);
    head.Refocus(z.path, R, z.tree.item, z.tree.color, z.tree.left, r');
    ghost var t' := Tree.Node(z.tree.left, z.tree.item, z.tree.color, r');
    assert Ids(t') + PathIds(z.path) == z.All() - {elm};
    head.Reads(z.path, t');
    TakePlace(head, gone, elm, z.path, t');
    head.Refocus(z.path, R, it, z.tree.color, z.tree.left, r');
    head.Rejoin(q, base', u.right);
    ghost var rest := Spot(Join(q, base'), u.right);
    JoinAbove(q, base');
    if color.Black? {
      RemoveColor(head, parent, child, rest, h);
    } else {
      head.Close(rest.path, rest.tree);
    }
  }

  lemma JoinAbove(q: Route<int>, base: Route<int>)
    ensures Above(Join(q, base), null) == if q.Top? then Above(base, null) else q.item.id
  {
  }

  lemma BaseIds(z: Place<int>, it: Item<Node?<int>, int>, r: Shape<int>)
    requires z.tree.Node?
    ensures Ids(r) + PathIds(Base(z, it)) == Ids(Tree.Node(z.tree.left, it, z.tree.color, r)) + PathIds(z.path)
    ensures Ids(r) + PathIds(Base(z, it)) == Ids(r) + PathIds(z.path) + {it.id} + Ids(z.tree.left)
  {
  }

  /** The successor of an inner node, and the path to it inside the right subtree. */
  method Leftmost(head: Head<int>, gone: Node<int>, ghost z: Place<int>)
    returns (elm: Node<int>, ghost q: Route<int>, ghost u: Shape<int>)
    requires head.nil == null && head.Holds(z.path, z.tree) && z.tree.Node? && z.tree.item.id == gone && z.tree.right.Node?
    ensures u.Node? && u.left.Leaf? && u.item.id == elm && Plug(q, u) == z.tree.right && Before(q) == []
    ensures head.Holds(Join(q, Base(z, z.tree.item)), u)
    ensures Above(Join(q, Base(z, z.tree.item)), null) == if q.Top? then gone else q.item.id
    ensures q.Step? ==> q.item.id != gone
  {
    head.Reads(z.path, z.tree);
    elm := gone.right;
    q, u := Top, z.tree.right;
    ghost var base := Base(z, z.tree.item);
    head.Refocus(z.path, R, z.tree.item, z.tree.color, z.tree.left, u);
    head.Reads(base, u);
    while elm.left != null
      invariant u.Node? && u.item.id == elm && Plug(q, u) == z.tree.right && Before(q) == []
      invariant head.Holds(Join(q, base), u) && elm.left == Ptr(u.left, null)
      decreases u
    {
      head.Reads(Join(q, base), u);
      head.Refocus(Join(q, base), L, u.item, u.color, u.right, u.left);
      PlugStep(q, u, L);
      elm := elm.left;
      q, u := Step(q, L, u.item, u.color, u.right), u.left;
      head.Reads(Join(q, base), u);
    }
    head.Reads(Join(q, base), u);
    PlugIds(q, u);
    assert gone !in Ids(z.tree.right);
  }

  /** RB_REMOVE: takes one node out and leaves the others a search tree in red-black balance. */
  method Remove(head: Head<int>, elm: Node<int>) returns (ghost i: nat)
    requires Valid(head) && elm in Ids(head.tree)
    modifies head`root, head`tree, Ids(head.tree)
    ensures Valid(head) && Ids(head.tree) == old(Ids(head.tree)) - {elm}
    ensures i < |old(Items(head.tree))| && old(Items(head.tree))[i].id == elm
    ensures Items(head.tree) == Drop(old(Items(head.tree)), i) && elm.key == old(elm.key)
  {
    hide Bal, Items, Plug, Head.Holds, Ascending, Drop, RedBlackTree, Ids, PathIds;
    ghost var z := Locate(Top, head.tree, elm);
    PlugTop(head.tree);
    head.Rise(z.path, z.tree);
    head.Reads(z.path, z.tree);
    if elm.left == null {
      i := RemoveOuter(head, elm, elm.right, z, R);
    } else if elm.right == null {
      i := RemoveOuter(head, elm, elm.left, z, L);
    } else {
      i := RemoveInner(head, elm, z);
    }
  }
}
