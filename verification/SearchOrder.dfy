/** Search order on tree values, for any strict total order of the keys. */
module SearchOrder {
  import opened Trees
  import RedBlack

  ghost predicate StrictTotal<K(!new)>(lt: (K, K) -> bool) {
    && (forall a :: !lt(a, a))
    && (forall a, b :: lt(a, b) || lt(b, a) || a == b)
    && (forall a, b, c :: lt(a, b) && lt(b, c) ==> lt(a, c))
  }

  ghost predicate Ascending<P, K>(s: seq<Item<P, K>>, lt: (K, K) -> bool) {
    forall i, j :: 0 <= i < j < |s| ==> lt(s[i].key, s[j].key)
  }

  ghost predicate AllBelow<P, K>(s: seq<Item<P, K>>, k: K, lt: (K, K) -> bool) {
    forall i :: 0 <= i < |s| ==> lt(s[i].key, k)
  }

  ghost predicate AllAbove<P, K>(s: seq<Item<P, K>>, k: K, lt: (K, K) -> bool) {
    forall i :: 0 <= i < |s| ==> lt(k, s[i].key)
  }

  ghost predicate HasKey<P, K>(s: seq<Item<P, K>>, k: K) {
    exists i :: 0 <= i < |s| && s[i].key == k
  }

  /** `s` with `it` put in at its place. */
  function Insort<P, K>(s: seq<Item<P, K>>, it: Item<P, K>, lt: (K, K) -> bool): seq<Item<P, K>> {
    if s == [] then [it]
    else if lt(it.key, s[0].key) then [it] + s
    else [s[0]] + Insort(s[1..], it, lt)
  }

  /** The key can only be found in the subtree in focus. */
  ghost predicate Between<P, K>(p: Path<P, K>, k: K, lt: (K, K) -> bool) {
    AllBelow(Before(p), k, lt) && AllAbove(After(p), k, lt)
  }

  lemma AroundMiddle<P, K(!new)>(b: seq<Item<P, K>>, x: Item<P, K>, r: seq<Item<P, K>>, lt: (K, K) -> bool)
    requires Ascending(b + [x] + r, lt)
    ensures AllBelow(b, x.key, lt) && AllAbove(r, x.key, lt)
  {
    var s := b + [x] + r;
    assert s[|b|] == x;
    forall i | 0 <= i < |r| ensures lt(x.key, r[i].key) { assert s[|b| + 1 + i] == r[i]; }
    forall i | 0 <= i < |b| ensures lt(b[i].key, x.key) { assert s[i] == b[i]; }
  }

  lemma Descend<P, K(!new)>(p: Path<P, K>, t: Tree<P, K>, k: K, d: Dir, lt: (K, K) -> bool)
    requires StrictTotal(lt) && t.Node? && Ascending(Items(Plug(p, t)), lt) && Between(p, k, lt)
    requires if d.L? then lt(k, t.item.key) else lt(t.item.key, k)
    ensures Between(Step(p, d, t.item, t.color, Child(t, d.Opp())), k, lt)
    ensures Plug(Step(p, d, t.item, t.color, Child(t, d.Opp())), Child(t, d)) == Plug(p, t)
  {
    PlugStep(p, t, d);
    PlugItems(p, t);
    StepSides(p, t, d);
    hide Plug, Items, Before, After, Ascending;
    var b, l, r, a := Before(p), Items(t.left), Items(t.right), After(p);
    Centred(b, l, t.item, r, a);
    AroundMiddle(b + l, t.item, r + a, lt);
  }

  lemma Centred<T>(b: seq<T>, l: seq<T>, x: T, r: seq<T>, a: seq<T>)
    ensures b + (l + [x] + r) + a == (b + l) + [x] + (r + a)
  {
  }

  /** What lies beside the place below `t` on side `d`. */
  lemma StepSides<P, K>(p: Path<P, K>, t: Tree<P, K>, d: Dir)
    requires t.Node?
    ensures Items(t) == Items(t.left) + [t.item] + Items(t.right)
    ensures var p' := Step(p, d, t.item, t.color, Child(t, d.Opp()));
      if d.L? then Before(p') == Before(p) && After(p') == [t.item] + (Items(t.right) + After(p))
      else Before(p') == (Before(p) + Items(t.left)) + [t.item] && After(p') == After(p)
  {
  }

  lemma PlugStep<P, K>(p: Path<P, K>, t: Tree<P, K>, d: Dir)
    requires t.Node?
    ensures Plug(Step(p, d, t.item, t.color, Child(t, d.Opp())), Child(t, d)) == Plug(p, t)
  {
    assert Make(d, Child(t, d), t.item, t.color, Child(t, d.Opp())) == t;
  }

  lemma {:induction false} InsortSplit<P, K(!new)>(a: seq<Item<P, K>>, b: seq<Item<P, K>>, it: Item<P, K>, lt: (K, K) -> bool)
    requires StrictTotal(lt) && AllBelow(a, it.key, lt) && AllAbove(b, it.key, lt)
    ensures Insort(a + b, it, lt) == a + [it] + b
    decreases |a|
  {
    if a == [] {
      assert a + b == b;
    } else {
      assert (a + b)[0] == a[0] && (a + b)[1..] == a[1..] + b;
      InsortSplit(a[1..], b, it, lt);
    }
  }

  lemma {:induction false} InsortHas<P, K>(s: seq<Item<P, K>>, it: Item<P, K>, lt: (K, K) -> bool) returns (i: nat)
    ensures i < |Insort(s, it, lt)| && Insort(s, it, lt)[i] == it
  {
    if s == [] || lt(it.key, s[0].key) {
      i := 0;
    } else {
      i := InsortHas(s[1..], it, lt);
      i := i + 1;
    }
  }

  /** `Insort` adds one item and loses none. */
  lemma {:induction false} InsortItems<P, K>(s: seq<Item<P, K>>, it: Item<P, K>, lt: (K, K) -> bool)
    ensures multiset(Insort(s, it, lt)) == multiset(s) + multiset{it}
  {
    if s != [] && !lt(it.key, s[0].key) {
      InsortItems(s[1..], it, lt);
      assert s == [s[0]] + s[1..];
    }
  }

  lemma InsortKeys<P, K>(s: seq<Item<P, K>>, it: Item<P, K>, lt: (K, K) -> bool)
    ensures forall x :: x in Insort(s, it, lt) <==> x in s || x == it
    ensures forall k :: HasKey(Insort(s, it, lt), k) <==> HasKey(s, k) || k == it.key
  {
    InsortItems(s, it, lt);
    var u := Insort(s, it, lt);
    forall x ensures x in u <==> x in s || x == it {
      assert x in u <==> x in multiset(u);
    }
    forall k ensures HasKey(u, k) <==> HasKey(s, k) || k == it.key {
      if HasKey(u, k) { var i :| 0 <= i < |u| && u[i].key == k; assert u[i] in u; }
      if HasKey(s, k) { var i :| 0 <= i < |s| && s[i].key == k; assert s[i] in u; }
      assert it in u;
    }
  }

  lemma AscendingSplice<P, K(!new)>(a: seq<Item<P, K>>, b: seq<Item<P, K>>, it: Item<P, K>, lt: (K, K) -> bool)
    requires StrictTotal(lt) && Ascending(a + b, lt) && AllBelow(a, it.key, lt) && AllAbove(b, it.key, lt)
    ensures Ascending(a + [it] + b, lt) && !HasKey(a + b, it.key)
  {
    var s, u := a + [it] + b, a + b;
    forall i, j | 0 <= i < j < |s| ensures lt(s[i].key, s[j].key) {
      var i', j' := if i < |a| then i else i - 1, if j < |a| then j else j - 1;
      if i != |a| && j != |a| {
        assert s[i] == u[i'] && s[j] == u[j'];
      }
    }
    forall i | 0 <= i < |u| ensures u[i].key != it.key {
      assert if i < |a| then u[i] == a[i] else u[i] == b[i - |a|];
    }
  }

  /** The place of a node in a tree. */
  lemma {:induction false} Locate<P, K>(p: Path<P, K>, t: Tree<P, K>, id: P) returns (z: Spot<P, K>)
    requires id in Ids(t)
    ensures z.Whole() == Plug(p, t) && z.tree.Node? && z.tree.item.id == id
    decreases t
  {
    if t.item.id == id {
      z := Spot(p, t);
    } else {
      var d := if id in Ids(t.left) then L else R;
      PlugStep(p, t, d);
      z := Locate(Step(p, d, t.item, t.color, Child(t, d.Opp())), Child(t, d), id);
    }
  }

  lemma KeyInMiddle<P, K(!new)>(b: seq<Item<P, K>>, m: seq<Item<P, K>>, a: seq<Item<P, K>>, k: K, lt: (K, K) -> bool)
    requires StrictTotal(lt) && AllBelow(b, k, lt) && AllAbove(a, k, lt)
    ensures HasKey(b + m + a, k) <==> HasKey(m, k)
  {
    var s := b + m + a;
    if i :| 0 <= i < |m| && m[i].key == k { assert s[|b| + i].key == k; }
    if i :| 0 <= i < |s| && s[i].key == k {
      assert |b| <= i < |b| + |m|;
      assert s[i] == m[i - |b|];
    }
  }

  lemma TopItem<P, K>(t: Tree<P, K>)
    requires t.Node?
    ensures t.item.id in Ids(t) && HasKey(Items(t), t.item.key)
  {
    assert Items(t)[|Items(t.left)|] == t.item;
  }

  // ---------- search trees ----------

  function KeySet<P, K>(t: Tree<P, K>): set<K> {
    match t
    case Leaf => {}
    case Node(l, it, _, r) => KeySet(l) + {it.key} + KeySet(r)
  }

  /** Smaller keys hang to the left of every node, larger ones to the right. */
  ghost predicate Bst<P>(t: Tree<P, int>) {
    t.Leaf? || ((forall k :: k in KeySet(t.left) ==> k < t.item.key) && (forall k :: k in KeySet(t.right) ==> k > t.item.key)
                && Bst(t.left) && Bst(t.right))
  }

  lemma {:induction false} KeysOf<P, K>(t: Tree<P, K>)
    ensures forall k :: k in KeySet(t) <==> HasKey(Items(t), k)
  {
    match t
    case Leaf =>
    case Node(l, it, _, r) =>
      KeysOf(l);
      KeysOf(r);
      assert Items(t) == Items(l) + [it] + Items(r);
      KeysAround(Items(l), it, Items(r));
      assert KeySet(t) == KeySet(l) + {it.key} + KeySet(r);
      hide KeySet, Items, HasKey;
  }

  lemma KeysAround<P, K>(b: seq<Item<P, K>>, x: Item<P, K>, a: seq<Item<P, K>>)
    ensures forall k :: HasKey(b + [x] + a, k) <==> HasKey(b, k) || k == x.key || HasKey(a, k)
  {
    var s := b + [x] + a;
    assert forall i :: 0 <= i < |b| ==> s[i] == b[i];
    assert s[|b|] == x;
    assert forall i :: 0 <= i < |a| ==> s[|b| + 1 + i] == a[i];
  }

  /** Items in ascending order make a search tree. */
  lemma {:induction false} AscendingBst<P>(t: Tree<P, int>, lt: (int, int) -> bool)
    requires Ascending(Items(t), lt) && forall a, b :: lt(a, b) <==> a < b
    ensures Bst(t)
  {
    match t
    case Leaf =>
    case Node(l, it, _, r) =>
      AroundMiddle(Items(l), it, Items(r), lt);
      AscendingParts(Items(l), it, Items(r), lt);
      AscendingBst(l, lt);
      AscendingBst(r, lt);
      KeysOf(l);
      KeysOf(r);
  }

  lemma AscendingParts<P, K(!new)>(b: seq<Item<P, K>>, x: Item<P, K>, r: seq<Item<P, K>>, lt: (K, K) -> bool)
    requires Ascending(b + [x] + r, lt)
    ensures Ascending(b, lt) && Ascending(r, lt)
  {
    var s := b + [x] + r;
    assert forall i :: 0 <= i < |b| ==> s[i] == b[i];
    assert forall i :: 0 <= i < |r| ==> s[|b| + 1 + i] == r[i];
  }

  lemma BetweenUp<P, K(!new)>(p: Path<P, K>, k: K, lt: (K, K) -> bool)
    requires p.Step? && Between(p, k, lt)
    ensures Between(p.up, k, lt) && if p.d.L? then lt(k, p.item.key) else lt(p.item.key, k)
  {
    if p.d.L? {
      Parts([p.item] + Items(p.sib), After(p.up));
      assert After(p) == [p.item] + Items(p.sib) + After(p.up) && Before(p) == Before(p.up);
      assert After(p)[0] == p.item;
    } else {
      Parts(Before(p.up), Items(p.sib) + [p.item]);
      assert Before(p) == Before(p.up) + (Items(p.sib) + [p.item]) && After(p) == After(p.up);
      assert Before(p)[|Before(p)| - 1] == p.item;
    }
    hide Items, Before, After;
  }

  lemma Parts<T>(a: seq<T>, b: seq<T>)
    ensures forall i :: 0 <= i < |a| ==> a[i] == (a + b)[i]
    ensures forall i :: 0 <= i < |b| ==> b[i] == (a + b)[|a| + i]
  {
  }

  /** The rounds of a search are its steps down to a place where the key may be, and those below. */
  lemma {:induction false} RoundsAtPlace<P, K(!new)>(p: Path<P, K>, t: Tree<P, K>, k: K, lt: (K, K) -> bool)
    requires StrictTotal(lt) && Between(p, k, lt)
    ensures RedBlack.Rounds(Plug(p, t), k, lt) == Depth(p) + RedBlack.Rounds(t, k, lt)
    decreases p
  {
    hide Between;
    match p
    case Top =>
    case Step(up, d, it, c, sib) =>
      BetweenUp(p, k, lt);
      RoundsAtPlace(up, Make(d, t, it, c, sib), k, lt);
  }

  /** A search for a key in a tree looks at one node for each level down to it. */
  lemma RoundsIsDepth<P, K(!new)>(p: Path<P, K>, t: Tree<P, K>, lt: (K, K) -> bool)
    requires StrictTotal(lt) && t.Node? && Between(p, t.item.key, lt)
    ensures RedBlack.Rounds(Plug(p, t), t.item.key, lt) == Depth(p) + 1
  {
    RoundsAtPlace(p, t, t.item.key, lt);
  }

  lemma StartBetween<P, K(!new)>(t: Tree<P, K>, k: K, lt: (K, K) -> bool)
    ensures Between<P, K>(Top, k, lt) && Plug(Top, t) == t
    ensures !HasKey(Items<P, K>(Leaf), k)
  {
  }

  lemma TopIfAny<P, K>(t: Tree<P, K>)
    ensures t.Node? ==> t.item.id in Ids(t)
  {
  }

  lemma TopInWhole<P, K>(p: Path<P, K>, t: Tree<P, K>)
    requires t.Node?
    ensures t.item in Items(Plug(p, t)) && HasKey(Items(Plug(p, t)), t.item.key)
  {
    PlugItems(p, t);
    var s, i := Items(Plug(p, t)), |Before(p)| + |Items(t.left)|;
    assert s[i] == t.item;
  }

  /** A key kept between the two sides of a path is in the whole tree iff it is in the subtree. */
  lemma KeyInFocus<P, K(!new)>(p: Path<P, K>, t: Tree<P, K>, k: K, lt: (K, K) -> bool)
    requires StrictTotal(lt) && Between(p, k, lt)
    ensures HasKey(Items(Plug(p, t)), k) <==> HasKey(Items(t), k)
  {
    PlugItems(p, t);
    KeyInMiddle(Before(p), Items(t), After(p), k, lt);
  }
}
