/** The string-keyed tree of kvs_rbtree.c, whose leaves and root parent are a black sentinel node,
    and the key-value operations on top of it. */
module KvsRbtree {
  import opened Trees
  import opened RedBlack
  import opened LinkedTrees
  import opened SearchOrder
  import opened InsertSteps
  import opened CStrings
  import opened Options

  /** The order of strcmp on keys. */
  const STRLT: (CString, CString) -> bool := (a, b) => StrCmp(a, b) < 0

  lemma StrLtTotal()
    ensures StrictTotal(STRLT)
  {
    forall a, b ensures !STRLT(a, a) && (STRLT(a, b) || STRLT(b, a) || a == b) {
      StrCmpZero(a, a);
      StrCmpZero(a, b);
      StrCmpFlip(b, a);
    }
    forall a, b, c | STRLT(a, b) && STRLT(b, c) ensures STRLT(a, c) {
      StrCmpTrans(a, b, c);
    }
  }

  lemma Compared(a: CString, b: CString)
    ensures StrCmp(a, b) > 0 ==> STRLT(b, a)
    ensures StrCmp(a, b) == 0 ==> a == b
  {
    StrCmpFlip(b, a);
    StrCmpZero(a, b);
  }

  /** rbtree_insert_fixup. */
  method InsertFixup(head: Head<CString>, z0: Node<CString>, ghost y0: Place<CString>, ghost h0: nat)
    requires head.nil != null && head.nil.color.Black?
    requires head.Holds(y0.path, y0.tree) && Rising(y0, h0) && y0.tree.item.id == z0
    modifies head`root, head`tree, y0.All()`left, y0.All()`right, y0.All()`parent, y0.All()`color
    ensures head.Holds(Top, head.tree) && RedBlackTree(head.tree) && head.nil.color.Black?
    ensures Items(head.tree) == Items(y0.Whole()) && Ids(head.tree) == y0.All()
  {
    hide Bal, BalPath, Head.Holds, Items, Ids, PathIds, Plug;
    var z: Node<CString> := z0;
    ghost var y, h := y0, h0;
    TopFields(head, y);
    OffTree(head, y);
    while z.parent.color.Red?
      invariant head.Holds(y.path, y.tree) && Rising(y, h) && y.tree.item.id == z && y.Same(y0)
      invariant head.nil.color.Black? && head.nil !in y0.All()
      invariant z.parent != null && (z.parent == head.nil <==> y.path.Top?)
      invariant z.parent != head.nil ==> z.parent.color == y.path.color
      decreases Depth(y.path)
    {
      UncleFields(head, y, h);
      var d := if z.parent == z.parent.parent.left then L else R;
      var uncle := z.parent.parent.Kid(d.Opp());
      if uncle.color.Red? {
        var gparent := z.parent.parent;
        y := RecolorUncle(head, uncle, z.parent, gparent, y, h);
        h, z := h + 1, gparent;
      } else {
        var parent, gparent := z.parent, z.parent.parent;
        if z == parent.Kid(d.Opp()) {
          y := RotateInner(head, d, parent, y, h);
          parent, z := z, parent;
        }
        y := RotateOuter(head, d, parent, gparent, y, h);
      }
      TopFields(head, y);
    }
    BlackenRoot(head, y, h);
  }

  lemma OffTree(head: Head<CString>, y: Place<CString>)
    requires head.Holds(y.path, y.tree)
    ensures head.nil !in y.All()
  {
    head.Reads(y.path, y.tree);
  }

  ghost predicate TreeOk(head: Head<CString>)
    reads head, head.nil, Ids(head.tree)
  {
    && head.nil != null && head.nil.color.Black? && head.Holds(Top, head.tree)
    && RedBlackTree(head.tree) && Ascending(Items(head.tree), STRLT)
  }

  /** rbtree_search. */
  method Search(head: Head<CString>, key: CString) returns (node: Node<CString>, ghost steps: nat)
    requires TreeOk(head)
    ensures node == head.nil <==> !HasKey(Items(head.tree), key)
    ensures node != head.nil ==> node in Ids(head.tree) && Entry(node, key) in Items(head.tree)
    ensures steps == Rounds(head.tree, key, STRLT) && Pow2(steps) <= (|Items(head.tree)| + 1) * (|Items(head.tree)| + 1)
  {
    hide Bal, Head.Holds, Items, Ids, PathIds, Plug, HasKey, Between, Ascending, StrCmp, StrictTotal;
    StrLtTotal();
    ghost var p: Route<CString>, t: Shape<CString> := Top, head.tree;
    head.Reads(p, t);
    TopIfAny(t);
    StartBetween(t, key, STRLT);
    node := head.root;
    steps := 0;
    while node != head.nil
      invariant head.Holds(p, t) && Plug(p, t) == head.tree && node == Ptr(t, head.nil)
      invariant Between(p, key, STRLT)
      invariant steps + Rounds(t, key, STRLT) == Rounds(head.tree, key, STRLT)
      decreases t
    {
      head.Reads(p, t);
      PlugIds(p, t);
      Compared(key, node.key);
      steps := steps + 1;
      var d;
      if StrCmp(key, node.key) < 0 {
        d := L;
      } else if StrCmp(key, node.key) > 0 {
        d := R;
      } else {
        TopInWhole(p, t);
        TopItem(t);
        SearchBound(head.tree, key, STRLT);
        return;
      }
      TopIfAny(Child(t, d));
      Descend(p, t, key, d, STRLT);
      head.Refocus(p, d, t.item, t.color, Child(t, d.Opp()), Child(t, d));
      p, t := Step(p, d, t.item, t.color, Child(t, d.Opp())), Child(t, d);
      head.Reads(p, t);
      node := node.Kid(d);
    }
    head.Reads(p, t);
    TopIfAny(t);
    KeyInFocus(p, t, key, STRLT);
    SearchBound(head.tree, key, STRLT);
  }

  /** The end of rbtree_insert: link the new node in where the search ended, and repair the colours. */
  method LinkIn(head: Head<CString>, z: Node<CString>, y: Node<CString>, d: Dir, ghost p: Route<CString>)
    requires TreeOk(head) && z !in Ids(head.tree) && z != head.nil
    requires Plug(p, Leaf) == head.tree && Between(p, z.key, STRLT)
    requires y == Above(p, head.nil) && (p.Step? ==> p.d == d)
    modifies head`root, head`tree, z`left, z`right, z`parent, z`color
    modifies Ids(head.tree)`left, Ids(head.tree)`right, Ids(head.tree)`parent, Ids(head.tree)`color
    ensures TreeOk(head) && Ids(head.tree) == old(Ids(head.tree)) + {z}
    ensures Items(head.tree) == Insort(old(Items(head.tree)), Item(z, z.key), STRLT)
  {
    hide Bal, BalPath, Head.Holds, Plug, Ids, PathIds, Insort, Ascending, HasKey, Items, StrictTotal;
    StrLtTotal();
    ghost var it: Item<Node?<CString>, CString> := Item(z, z.key);
    ghost var h := LinkShape(p, it, STRLT);
    head.Rise(p, Leaf);
    head.Reads(p, Leaf);
    head.Attach(z, y, d, p);
    InsertFixup(head, z, Spot(p, RedLeaf(it)), h);
  }

  /** rbtree_insert: a node whose key is already there is not linked in. */
  method Insert(head: Head<CString>, z: Node<CString>)
    requires TreeOk(head) && z !in Ids(head.tree) && z != head.nil
    modifies head`root, head`tree, z`left, z`right, z`parent, z`color
    modifies Ids(head.tree)`left, Ids(head.tree)`right, Ids(head.tree)`parent, Ids(head.tree)`color
    ensures TreeOk(head)
    ensures HasKey(old(Items(head.tree)), z.key) ==> unchanged(head)
    ensures !HasKey(old(Items(head.tree)), z.key) ==>
      Items(head.tree) == Insort(old(Items(head.tree)), Item(z, z.key), STRLT) && Ids(head.tree) == old(Ids(head.tree)) + {z}
  {
    hide Bal, Head.Holds, Items, Ids, PathIds, Plug, HasKey, Between, Ascending, StrCmp, StrictTotal;
    StrLtTotal();
    ghost var p: Route<CString>, t: Shape<CString> := Top, head.tree;
    head.Reads(p, t);
    TopIfAny(t);
    StartBetween(t, z.key, STRLT);
    var y: Node<CString>, x: Node<CString> := head.nil, head.root;
    while x != head.nil
      invariant TreeOk(head) && unchanged(head) && unchanged(z) && head.nil != null
      invariant head.Holds(p, t) && Plug(p, t) == head.tree && x == Ptr(t, head.nil)
      invariant Between(p, z.key, STRLT)
      invariant y == Above(p, head.nil) && (y == head.nil <==> p.Top?)
      invariant p.Step? ==> (p.d.L? <==> StrCmp(z.key, y.key) < 0)
      decreases t
    {
      head.Reads(p, t);
      PlugIds(p, t);
      y := x;
      Compared(z.key, x.key);
      var d;
      if StrCmp(z.key, x.key) < 0 {
        d := L;
      } else if StrCmp(z.key, x.key) > 0 {
        d := R;
      } else {
        KeyInFocus(p, t, z.key, STRLT);
        TopItem(t);
        return;
      }
      TopIfAny(Child(t, d));
      Descend(p, t, z.key, d, STRLT);
      head.Refocus(p, d, t.item, t.color, Child(t, d.Opp()), Child(t, d));
      p, t := Step(p, d, t.item, t.color, Child(t, d.Opp())), Child(t, d);
      head.Reads(p, t);
      x := x.Kid(d);
    }
    head.Reads(p, t);
    TopIfAny(t);
    KeyInFocus(p, t, z.key, STRLT);
    StartBetween(t, z.key, STRLT);
    LinkIn(head, z, y, if StrCmp(z.key, y.key) < 0 then L else R, p);
  }

  /** The nodes and the map hold the same keys with the same values. */
  ghost predicate Mirrors(head: Head<CString>, m: map<CString, CString>)
    reads head, Ids(head.tree)
  {
    var s := Items(head.tree);
    && (forall k :: k in m <==> HasKey(s, k))
    && (forall it :: it in s ==> it.id != null && it.id in Ids(head.tree) && it.key in m && it.id.value == m[it.key])
  }

  method NewNode(key: CString, value: CString) returns (node: Node<CString>)
    ensures fresh(node) && node.key == key && node.value == value
  {
    node := new Node<CString>(key);
    node.value := value;
  }

  /** The tree engine of the key-value store.  A NULL argument is `None`. */
  class TreeStore {
    const inst: Head<CString>
    ghost var store: map<CString, CString>
    ghost var nodes: set<Node?<CString>>

    ghost predicate Valid()
      reads this, inst, inst.nil, nodes
    {
      nodes == Ids(inst.tree) && TreeOk(inst) && Mirrors(inst, store)
    }

    /** kvs_rbtree_create. */
    constructor ()
      ensures Valid() && store == map[] && fresh(inst) && fresh(inst.nil) && nodes == {}
    {
      var nil := new Node<CString>([]);
      nil.color := Black;
      inst := new Head(nil);
      store, nodes := map[], {};
      new;
      assert Bal<Node?<CString>, CString>(Leaf, 0);
      assert Snap(Ids(inst.tree) + PathIds<Node?<CString>, CString>(Top)).Keys == {};
    }

    /** kvs_rbtree_set: 0 added, 1 already there, -1 missing argument. */
    method Set(key: Option<CString>, value: Option<CString>) returns (ret: int)
      requires Valid()
      modifies this`store, this`nodes, inst, nodes
      ensures Valid() && fresh(nodes - old(nodes))
      ensures key.None? || value.None? ==> ret == -1 && store == old(store)
      ensures key.Some? && value.Some? && key.value in old(store) ==> ret == 1 && store == old(store)
      ensures key.Some? && value.Some? && key.value !in old(store) ==>
        ret == 0 && store == old(store)[key.value := value.value]
    {
      hide Bal, Head.Holds, Items, Ids, Ascending, RedBlackTree, StrCmp, HasKey, Insort;
      if key.None? || value.None? {
        return -1;
      }
      var exist, steps := Search(inst, key.value);
      if exist != inst.nil {
        return 1;
      }
      Add(key.value, value.value);
      ret := 0;
    }

    /** The part of kvs_rbtree_set that makes and links in a node for a new key. */
    method Add(key: CString, value: CString)
      requires Valid() && key !in store
      modifies this`store, this`nodes, inst, nodes
      ensures Valid() && fresh(nodes - old(nodes)) && store == old(store)[key := value]
    {
      hide Bal, Items, Ascending, RedBlackTree, StrCmp, HasKey, Insort, Rep, PathRep, Sep, PathSep, At, Ids;
      inst.Keys(inst.tree);
      var node := NewNode(key, value);
      ghost var s := Items(inst.tree);
      Insert(inst, node);
      InsortKeys(s, Entry(node, key), STRLT);
      inst.Keys(inst.tree);
      store, nodes := store[key := value], nodes + {node};
    }

    /** kvs_rbtree_get. */
    method Get(key: Option<CString>) returns (value: Option<CString>)
      requires Valid()
      ensures value == if key.Some? && key.value in store then Some(store[key.value]) else None
    {
      hide Bal, Head.Holds, Items, Ids, Ascending, RedBlackTree, StrCmp, HasKey;
      if key.None? {
        return None;
      }
      var node, steps := Search(inst, key.value);
      if node == inst.nil {
        return None;
      }
      assert Entry(node, key.value).id == node;
      value := Some(node.value);
    }

    /** kvs_rbtree_mod: 0 changed, 1 no such key, -1 missing argument. */
    method Mod(key: Option<CString>, value: Option<CString>) returns (ret: int)
      requires Valid()
      modifies this`store, nodes`value
      ensures Valid() && nodes == old(nodes)
      ensures key.None? || value.None? ==> ret == -1 && store == old(store)
      ensures key.Some? && value.Some? && key.value !in old(store) ==> ret == 1 && store == old(store)
      ensures key.Some? && value.Some? && key.value in old(store) ==>
        ret == 0 && store == old(store)[key.value := value.value]
    {
      hide Bal, Items, Ascending, RedBlackTree, StrCmp, HasKey, Insort, Rep, PathRep, Sep, PathSep, At, Ids;
      if key.None? || value.None? {
        return -1;
      }
      var node, steps := Search(inst, key.value);
      if node == inst.nil {
        return 1;
      }
      inst.Keys(inst.tree);
      OneNodePerKey(inst);
      ghost var s := Items(inst.tree);
      ghost var e := Entry(node, key.value);
      assert forall it :: it in s ==> (it.id == e.id <==> it.key == e.key);
      ghost var ids := Ids(inst.tree) + PathIds<Node?<CString>, CString>(Top);
      ghost var m := Snap(ids);
      node.value := value.value;
      store := store[key.value := value.value];
      assert Snap(ids) == m;
      assert Items(inst.tree) == s && store.Keys == old(store).Keys;
      forall it | it in s ensures it.id != null && it.id in nodes && it.key in store && it.id.value == store[it.key] {
        assert old(it.id.value) == old(store)[it.key];
      }
      assert forall k :: k in store <==> HasKey(s, k);
      ret := 0;
    }

    /** kvs_rbtree_exist: 0 there, 1 not there, -1 missing argument. */
    method Exist(key: Option<CString>) returns (ret: int)
      requires Valid()
      ensures ret == if key.None? then -1 else if key.value in store then 0 else 1
    {
      hide Bal, Head.Holds, Items, Ids, Ascending, RedBlackTree, StrCmp, HasKey;
      if key.None? {
        return -1;
      }
      var node, steps := Search(inst, key.value);
      ret := if node == inst.nil then 1 else 0;
    }
  }

  /** Keys ascend by their bytes. */
  lemma KeysByBytes(head: Head<CString>)
    requires TreeOk(head)
    ensures forall i, j :: 0 <= i < j < |Items(head.tree)| ==> Earlier(Items(head.tree)[i].key, Items(head.tree)[j].key)
  {
    hide Items, RedBlackTree, Head.Holds;
    var s := Items(head.tree);
    forall i, j | 0 <= i < j < |s| ensures Earlier(s[i].key, s[j].key) {
      assert STRLT(s[i].key, s[j].key);
      StrCmpLex(s[i].key, s[j].key);
    }
  }

  lemma OneNodePerKey(head: Head<CString>)
    requires TreeOk(head)
    ensures forall x, y :: x in Items(head.tree) && y in Items(head.tree) ==> (x.id == y.id <==> x.key == y.key)
  {
    hide Bal, RedBlackTree, Head.Holds, Items;
    StrLtTotal();
    head.Keys(head.tree);
    var s := Items(head.tree);
    forall x, y | x in s && y in s ensures x.id == y.id <==> x.key == y.key {
      var i :| 0 <= i < |s| && s[i] == x;
      var j :| 0 <= j < |s| && s[j] == y;
      if i < j { assert STRLT(s[i].key, s[j].key); }
      if j < i { assert STRLT(s[j].key, s[i].key); }
    }
  }
}
