/** The top-down splay tree of nty_tree.h: while it walks down, the nodes passed on the way hang in two
    heaps of their own below a scratch node, smaller keys on one side and larger keys on the other. */
module Splay {
  import opened Trees
  import opened SearchOrder

  class SNode {
    var key: int
    var left: SNode?
    var right: SNode?

    constructor (key: int)
      ensures this.key == key && left == null && right == null
    {
      this.key, left, right := key, null, null;
    }

    function Kid(d: Dir): SNode?
      reads this
    {
      if d.L? then left else right
    }

    method SetKid(d: Dir, n: SNode?)
      modifies this`left, this`right
      ensures if d.L? then left == n && right == old(right) else right == n && left == old(left)
    {
      if d.L? { left := n; } else { right := n; }
    }
  }

  // A splay node has no colour and no parent link; every node of a shape is Black.
  type Shape = Tree<SNode?, int>
  type Route = Path<SNode?, int>

  datatype Kids = Kids(left: SNode?, right: SNode?, key: int)
  type Heap = map<SNode?, Kids>

  function KidOf(k: Kids, d: Dir): SNode? { if d.L? then k.left else k.right }

  function PutKid(k: Kids, d: Dir, n: SNode?): Kids { if d.L? then k.(left := n) else k.(right := n) }

  ghost function Snap(s: set<SNode?>): Heap
    reads s
  {
    map n | n in s && n != null :: Kids(n.left, n.right, n.key)
  }

  ghost predicate Stored(m: Heap, t: Shape) {
    match t
    case Leaf => true
    case Node(l, it, c, r) =>
      c.Black? && it.id in m && m[it.id] == Kids(Ptr(l, null), Ptr(r, null), it.key) && Stored(m, l) && Stored(m, r)
  }

  /** The nodes of `p` form a spine below the scratch node `s`: each is the d-child of the one outside it,
      and the innermost one has `hole` as its d-child. */
  ghost predicate Spine(m: Heap, d: Dir, p: Route, hole: SNode?, s: SNode?) {
    match p
    case Top => s in m && KidOf(m[s], d) == hole
    case Step(up, e, it, c, sib) =>
      && e == d && c.Black? && it.id in m && it.id != null
      && m[it.id] == (if d.L? then Kids(hole, Ptr(sib, null), it.key) else Kids(Ptr(sib, null), hole, it.key))
      && Stored(m, sib) && Spine(m, d, up, it.id, s)
  }

  /** A splay on its way down: the subtree still to be searched, the spine of larger keys, which is open
      on its left end, and the spine of smaller keys, open on its right end. */
  datatype Work = Work(focus: Shape, more: Route, less: Route) {
    function Spine(d: Dir): Route { if d.L? then more else less }

    function Last(d: Dir, s: SNode?): SNode? { Above(Spine(d), s) }

    ghost function All(): set<SNode?> { Ids(focus) + PathIds(more) + PathIds(less) }

    function Contents(): seq<Item<SNode?, int>> { Before(less) + Items(focus) + After(more) }

    ghost predicate Apart(s: SNode?) {
      && Sep(focus) && PathSep(more) && PathSep(less)
      && Ids(focus) !! PathIds(more) && Ids(focus) !! PathIds(less) && PathIds(more) !! PathIds(less)
      && s !in All() && null !in All() && s != null
    }

    /** The focus moves to the child on side `d`; the node above it joins the spine. */
    function Linked(d: Dir): Work
      requires focus.Node?
    {
      var p := Step(Spine(d), d, focus.item, focus.color, Child(focus, d.Opp()));
      if d.L? then Work(focus.left, p, less) else Work(focus.right, more, p)
    }

    /** The child on side `d` is rotated above the focus. */
    function Turned(d: Dir): Work
      requires focus.Node? && Child(focus, d).Node?
    {
      Work(Rotated(focus, d.Opp()), more, less)
    }

    function Result(): Shape
      requires focus.Node?
    {
      Node(Plug(less, focus.left), focus.item, focus.color, Plug(more, focus.right))
    }
  }

  ghost predicate OpenEnd(m: Heap, d: Dir, p: Route, s: SNode?) {
    Above(p, s) in m && Spine(m, d, p, KidOf(m[Above(p, s)], d), s)
  }

  ghost predicate Held(m: Heap, w: Work, s: SNode?) {
    && Stored(m, w.focus) && OpenEnd(m, L, w.more, s) && OpenEnd(m, R, w.less, s)
    && w.Apart(s) && m.Keys == w.All() + {s}
  }

  lemma {:induction false} FrameStored(m: Heap, m': Heap, t: Shape)
    requires Stored(m, t) && forall i :: i in Ids(t) ==> i in m && i in m' && m'[i] == m[i]
    ensures Stored(m', t)
  {
    match t
    case Leaf =>
    case Node(l, it, c, r) =>
      FrameStored(m, m', l);
      FrameStored(m, m', r);
  }

  lemma {:induction false} FrameSpine(m: Heap, m': Heap, d: Dir, p: Route, hole: SNode?, s: SNode?)
    requires Spine(m, d, p, hole, s)
    requires forall i :: i in PathIds(p) ==> i in m && i in m' && m'[i] == m[i]
    requires s in m && s in m' && KidOf(m'[s], d) == KidOf(m[s], d)
    ensures Spine(m', d, p, hole, s)
  {
    match p
    case Top =>
    case Step(up, e, it, c, sib) =>
      FrameStored(m, m', sib);
      FrameSpine(m, m', d, up, it.id, s);
  }

  lemma AboveIn(p: Route, s: SNode?)
    ensures Above(p, s) == s || Above(p, s) in PathIds(p)
  {
  }

  lemma RehangOwn(m: Heap, m': Heap, d: Dir, p: Route, n: SNode?, s: SNode?)
    requires s in m && OpenEnd(m, d, p, s) && PathSep(p) && PathIds(p) <= m.Keys && s !in PathIds(p)
    requires m' == m[Above(p, s) := PutKid(m[Above(p, s)], d, n)]
    ensures Spine(m', d, p, n, s)
  {
    if p.Step? {
      FrameStored(m, m', p.sib);
      FrameSpine(m, m', d, p.up, p.item.id, s);
    }
  }

  /** A new d-child for the innermost node of one spine; the other spine and a subtree stay. */
  lemma Rehang(m: Heap, m': Heap, d: Dir, p: Route, q: Route, t: Shape, n: SNode?, h: SNode?, s: SNode?)
    requires s in m && OpenEnd(m, d, p, s) && Spine(m, d.Opp(), q, h, s) && Stored(m, t) && PathSep(p)
    requires Ids(t) + PathIds(p) + PathIds(q) <= m.Keys && s !in Ids(t) + PathIds(p) + PathIds(q)
    requires PathIds(p) !! PathIds(q) && PathIds(p) !! Ids(t)
    requires m' == m[Above(p, s) := PutKid(m[Above(p, s)], d, n)]
    ensures Spine(m', d, p, n, s) && Spine(m', d.Opp(), q, h, s) && Stored(m', t)
    ensures forall i :: i in Ids(t) + PathIds(q) ==> m'[i] == m[i]
  {
    RehangOwn(m, m', d, p, n, s);
    AboveIn(p, s);
    hide Spine, Stored, OpenEnd, Ids, PathIds;
    assert forall i :: i in Ids(t) + PathIds(q) ==> m'[i] == m[i];
    FrameSpine(m, m', d.Opp(), q, h, s);
    FrameStored(m, m', t);
  }

  lemma LinkedItems(w: Work, d: Dir)
    requires w.focus.Node?
    ensures w.Linked(d).Contents() == w.Contents() && |Items(w.Linked(d).focus)| < |Items(w.focus)|
  {
    var b, l, it, r, a := Before(w.less), Items(w.focus.left), w.focus.item, Items(w.focus.right), After(w.more);
    assert w.Contents() == b + (l + [it] + r) + a;
    if d.L? {
      assert w.Linked(d).Contents() == b + l + ([it] + r + a);
    } else {
      assert w.Linked(d).Contents() == (b + l + [it]) + r + a;
    }
  }

  lemma LinkedApart(w: Work, d: Dir, s: SNode?)
    requires w.Apart(s) && w.focus.Node?
    ensures w.Linked(d).Apart(s) && w.Linked(d).All() == w.All()
  {
    var near, far, x, p := Child(w.focus, d), Child(w.focus, d.Opp()), w.focus.item.id, w.Spine(d);
    var n, f, ps := Ids(near), Ids(far), PathIds(p);
    assert Ids(w.focus) == n + {x} + f && Sep(near) && Sep(far) && n !! f && x !in n && x !in f;
    assert PathIds(w.Linked(d).Spine(d)) == ps + {x} + f;
    hide Ids, Sep, PathIds;
    assert w.Linked(d).All() == w.All();
    assert PathSep(w.Linked(d).Spine(d));
    hide PathSep;
    assert w.Linked(d).focus == near;
    assert w.Linked(d).Spine(d.Opp()) == w.Spine(d.Opp());
  }

  /** SPLAY_LINKLEFT and SPLAY_LINKRIGHT: the top of the focus joins the spine that is open on side `d`. */
  lemma LinkHeld(m: Heap, m': Heap, d: Dir, w: Work, s: SNode?)
    requires Held(m, w, s) && w.focus.Node?
    requires w.Last(d, s) in m && m' == m[w.Last(d, s) := PutKid(m[w.Last(d, s)], d, w.focus.item.id)]
    ensures Held(m', w.Linked(d), s)
    ensures m'[w.focus.item.id] == m[w.focus.item.id]
  {
    var p, q, x := w.Spine(d), w.Spine(d.Opp()), w.focus.item.id;
    assert x in Ids(w.focus) && Above(q, s) in m;
    Rehang(m, m', d, p, q, w.focus, x, KidOf(m[Above(q, s)], d.Opp()), s);
    LinkedApart(w, d, s);
    assert OpenEnd(m', d.Opp(), q, s);
    assert OpenEnd(m', d, w.Linked(d).Spine(d), s);
    assert Stored(m', w.Linked(d).focus);
    hide Stored, OpenEnd, Spine, Work.Apart, Work.All;
  }

  /** SPLAY_ROTATE_LEFT and SPLAY_ROTATE_RIGHT. */
  lemma TurnHeld(m: Heap, m': Heap, d: Dir, w: Work, y: SNode?, s: SNode?)
    requires Held(m, w, s) && w.focus.Node? && Child(w.focus, d).Node? && y == Child(w.focus, d).item.id
    requires w.focus.item.id in m && y in m
    requires m' == m[w.focus.item.id := PutKid(m[w.focus.item.id], d, KidOf(m[y], d.Opp()))]
                    [y := PutKid(m[y], d.Opp(), w.focus.item.id)]
    ensures Held(m', w.Turned(d), s) && w.Turned(d).focus.Node? && w.Turned(d).focus.item.id == y
    ensures w.Turned(d).All() == w.All() && w.Turned(d).Contents() == w.Contents()
  {
    RotatedKeeps(w.focus, d.Opp());
    TurnStored(m, m', d, w.focus);
    assert m.Keys == m'.Keys;
    FrameSpine(m, m', L, w.more, KidOf(m[Above(w.more, s)], L), s);
    FrameSpine(m, m', R, w.less, KidOf(m[Above(w.less, s)], R), s);
  }

  lemma TurnStored(m: Heap, m': Heap, d: Dir, t: Shape)
    requires Stored(m, t) && Sep(t) && t.Node? && Child(t, d).Node? && Ids(t) <= m.Keys
    requires var x, y := t.item.id, Child(t, d).item.id;
      x in m && y in m &&
      m' == m[x := PutKid(m[x], d, KidOf(m[y], d.Opp()))][y := PutKid(m[y], d.Opp(), x)]
    ensures Stored(m', Rotated(t, d.Opp()))
  {
    var u := Child(t, d);
    FrameStored(m, m', Child(t, d.Opp()));
    FrameStored(m, m', u.left);
    FrameStored(m, m', u.right);
  }

  /** A spine whose open end holds a subtree is a tree below the scratch node. */
  lemma {:induction false} CloseSpine(m: Heap, d: Dir, p: Route, t: Shape, s: SNode?)
    requires Spine(m, d, p, Ptr(t, null), s) && Stored(m, t) && s in m
    ensures Stored(m, Plug(p, t)) && Ptr(Plug(p, t), null) == KidOf(m[s], d)
    decreases p
  {
    if p.Step? {
      CloseSpine(m, d, p.up, Make(d, t, p.item, p.color, p.sib), s);
    }
  }

  /** SPLAY_ASSEMBLE: its four writes hang both spines under the focus. */
  lemma AssembleHeld(m: Heap, m1: Heap, m2: Heap, m3: Heap, w: Work, s: SNode?)
    requires Held(m, w, s) && w.focus.Node? && w.Last(L, s) in m && w.Last(R, s) in m
    requires var x, r, l := w.focus.item.id, w.Last(L, s), w.Last(R, s);
      && x in m && m1 == m[l := PutKid(m[l], R, m[x].left)] && r in m1
      && m2 == m1[r := PutKid(m1[r], L, m[x].right)] && s in m2
      && m3 == m2[x := Kids(m2[s].right, m2[s].left, m[x].key)]
    ensures Stored(m3, w.Result())
  {
    var t, x, h := w.focus, w.focus.item.id, KidOf(m[w.Last(L, s)], L);
    Rehang(m, m1, R, w.less, w.more, t, m[x].left, h, s);
    Rehang(m1, m2, L, w.more, w.less, t, m[x].right, m[x].left, s);
    FrameSpine(m2, m3, L, w.more, m[x].right, s);
    FrameSpine(m2, m3, R, w.less, m[x].left, s);
    FrameStored(m2, m3, t.left);
    FrameStored(m2, m3, t.right);
    CloseSpine(m3, L, w.more, t.right, s);
    CloseSpine(m3, R, w.less, t.left, s);
  }

  // ---------- order ----------

  const LT: (int, int) -> bool := (a, b) => a < b

  /** What a splay looks for: a key, or the end of the tree that SPLAY_MINMAX goes to. */
  datatype Goal = Least | Key(key: int) | Greatest

  /** The comparison of the goal with a key in the tree. */
  function Compare(g: Goal, k: int): int {
    match g
    case Least => -1
    case Key(key) => key - k
    case Greatest => 1
  }

  ghost predicate Below(s: seq<Item<SNode?, int>>, g: Goal) {
    forall i :: 0 <= i < |s| ==> Compare(g, s[i].key) > 0
  }

  ghost predicate Beyond(s: seq<Item<SNode?, int>>, g: Goal) {
    forall i :: 0 <= i < |s| ==> Compare(g, s[i].key) < 0
  }

  function Toward(g: Goal, k: int): Dir { if Compare(g, k) < 0 then L else R }

  ghost predicate Around(w: Work, g: Goal) {
    Ascending(w.Contents(), LT) && Below(Before(w.less), g) && Beyond(After(w.more), g)
  }

  /** The top is the goal, or no key lies between them. */
  ghost predicate Nearest(t: Shape, g: Goal) {
    && t.Node?
    && (Compare(g, t.item.key) < 0 ==> Below(Items(t.left), g))
    && (Compare(g, t.item.key) > 0 ==> Beyond(Items(t.right), g))
  }

  /** Everything beyond a key that is beyond the goal is too, and likewise below. */
  lemma SameSide(b: seq<Item<SNode?, int>>, it: Item<SNode?, int>, r: seq<Item<SNode?, int>>, g: Goal)
    requires Ascending(b + [it] + r, LT)
    ensures Compare(g, it.key) < 0 ==> Beyond([it] + r, g)
    ensures Compare(g, it.key) > 0 ==> Below(b + [it], g)
  {
    AroundMiddle(b, it, r, LT);
    hide Ascending;
    var s, u := [it] + r, b + [it];
    assert forall i :: 0 <= i < |s| ==> s[i] == if i == 0 then it else r[i - 1];
    assert forall i :: 0 <= i < |u| ==> u[i] == if i == |b| then it else b[i];
  }

  lemma LinkedEnds(w: Work, d: Dir)
    requires w.focus.Node?
    ensures var b, l, it, r, a := Before(w.less), Items(w.focus.left), w.focus.item, Items(w.focus.right), After(w.more);
      && w.Contents() == (b + l) + [it] + (r + a)
      && After(w.Linked(d).more) == (if d.L? then [it] + (r + a) else a)
      && Before(w.Linked(d).less) == (if d.L? then b else (b + l) + [it])
  {
  }

  lemma LinkedAround(w: Work, g: Goal)
    requires Around(w, g) && w.focus.Node? && Compare(g, w.focus.item.key) != 0
    ensures Around(w.Linked(Toward(g, w.focus.item.key)), g)
  {
    hide Items, Before, After, Work.Contents, Ascending, Below, Beyond;
    var d := Toward(g, w.focus.item.key);
    LinkedEnds(w, d);
    LinkedItems(w, d);
    SameSide(Before(w.less) + Items(w.focus.left), w.focus.item, Items(w.focus.right) + After(w.more), g);
  }

  lemma TurnedAround(w: Work, d: Dir, g: Goal)
    requires Around(w, g) && w.focus.Node? && Child(w.focus, d).Node?
    ensures Around(w.Turned(d), g) && |Items(w.Turned(d).focus)| == |Items(w.focus)|
  {
    RotatedKeeps(w.focus, d.Opp());
  }

  ghost predicate AllToward(p: Route, d: Dir) {
    p.Step? ==> p.d == d && AllToward(p.up, d)
  }

  lemma {:induction false} SpineToward(m: Heap, d: Dir, p: Route, hole: SNode?, s: SNode?)
    requires Spine(m, d, p, hole, s)
    ensures AllToward(p, d)
  {
    if p.Step? { SpineToward(m, d, p.up, p.item.id, s); }
  }

  lemma {:induction false} OneSided(p: Route, d: Dir)
    requires AllToward(p, d)
    ensures if d.L? then Before(p) == [] else After(p) == []
  {
    if p.Step? { OneSided(p.up, d); }
  }

  lemma ResultSides(w: Work)
    requires w.focus.Node? && AllToward(w.more, L) && AllToward(w.less, R)
    ensures Items(w.Result().left) == Before(w.less) + Items(w.focus.left)
    ensures Items(w.Result().right) == Items(w.focus.right) + After(w.more)
  {
    OneSided(w.more, L);
    OneSided(w.less, R);
    PlugItems(w.less, w.focus.left);
    PlugItems(w.more, w.focus.right);
  }

  lemma ResultItems(w: Work)
    requires w.focus.Node? && AllToward(w.more, L) && AllToward(w.less, R)
    ensures Items(w.Result()) == w.Contents()
  {
    ResultSides(w);
    var b, l, it, r, a := Before(w.less), Items(w.focus.left), w.focus.item, Items(w.focus.right), After(w.more);
    hide AllToward, Plug, Before, After;
    Middle(w.focus);
    Middle(w.Result());
    hide Items;
    Recentred(b, l, it, r, a);
  }

  lemma Recentred<T>(b: seq<T>, l: seq<T>, x: T, r: seq<T>, a: seq<T>)
    ensures (b + l) + [x] + (r + a) == b + (l + [x] + r) + a
  {
  }

  lemma ResultIds(w: Work)
    requires w.focus.Node?
    ensures Ids(w.Result()) == w.All()
  {
    PlugIds(w.less, w.focus.left);
    PlugIds(w.more, w.focus.right);
  }

  lemma ResultNearest(w: Work, g: Goal)
    requires w.focus.Node? && AllToward(w.more, L) && AllToward(w.less, R) && Around(w, g)
    requires Compare(g, w.focus.item.key) == 0 || Child(w.focus, Toward(g, w.focus.item.key)).Leaf?
    ensures Nearest(w.Result(), g)
  {
    ResultSides(w);
  }

  lemma {:induction false} PlugSep(p: Route, t: Shape)
    requires Sep(t) && PathSep(p) && Ids(t) !! PathIds(p)
    ensures Sep(Plug(p, t))
    decreases p
  {
    if p.Step? { PlugSep(p.up, Make(p.d, t, p.item, p.color, p.sib)); }
  }

  lemma ResultSep(w: Work, s: SNode?)
    requires w.Apart(s) && w.focus.Node?
    ensures Sep(w.Result())
  {
    PlugSep(w.less, w.focus.left);
    PlugSep(w.more, w.focus.right);
    PlugIds(w.less, w.focus.left);
    PlugIds(w.more, w.focus.right);
  }

  lemma NearestHas(t: Shape, k: int)
    requires Nearest(t, Key(k)) && Ascending(Items(t), LT)
    ensures HasKey(Items(t), k) <==> t.item.key == k
  {
    var s, l, r := Items(t), Items(t.left), Items(t.right);
    AroundMiddle(l, t.item, r, LT);
    assert s[|l|] == t.item;
    if i :| 0 <= i < |s| && s[i].key == k {
      assert s[i] == if i < |l| then l[i] else if i == |l| then t.item else r[i - |l| - 1];
    }
  }

  /** A node of the tree is an item, with the key it holds. */
  lemma {:induction false} ItemOf(m: Heap, t: Shape, n: SNode?) returns (i: nat)
    requires Stored(m, t) && n in Ids(t)
    ensures i < |Items(t)| && n in m && Items(t)[i] == Item(n, m[n].key)
  {
    if n in Ids(t.left) {
      i := ItemOf(m, t.left, n);
    } else if n == t.item.id {
      i := |Items(t.left)|;
    } else {
      i := ItemOf(m, t.right, n);
      i := |Items(t.left)| + 1 + i;
    }
  }

  /** Splaying to the key of a node in the tree brings that very node up. */
  lemma NearestIs(m: Heap, t: Shape, n: SNode?)
    requires Stored(m, t) && n in Ids(t) && n in m && Nearest(t, Key(m[n].key)) && Ascending(Items(t), LT)
    ensures t.item.id == n && Items(t)[|Items(t.left)|].id == n
  {
    var i := ItemOf(m, t, n);
    NearestHas(t, m[n].key);
    assert Items(t)[|Items(t.left)|] == t.item;
  }

  lemma FirstRight(t: Shape)
    requires t.Node?
    ensures t.right.Node? ==> |Items(t)| > |Items(t.left)| + 1 && Items(t)[|Items(t.left)| + 1] == Items(t.right)[0]
    ensures t.right.Leaf? ==> |Items(t)| == |Items(t.left)| + 1
  {
    Middle(t);
    hide Items;
    var l, r := Items(t.left), Items(t.right);
    assert r != [] ==> (l + [t.item] + r)[|l| + 1] == r[0];
  }

  lemma Middle(t: Shape)
    requires t.Node?
    ensures Items(t) == Items(t.left) + [t.item] + Items(t.right)
    ensures t.right.Node? <==> Items(t.right) != []
  {
  }

  lemma FirstLeft(t: Shape)
    requires t.Node?
    ensures Items(t) != [] && Items(t)[0] == if t.left.Node? then Items(t.left)[0] else t.item
    ensures t.left.Node? ==> Items(t.left) != []
  {
  }

  lemma EmptyHasNone(t: Shape, k: int)
    requires t.Leaf?
    ensures !HasKey(Items(t), k)
  {
  }

  /** The tree SPLAY_INSERT makes of a splayed one. */
  function Topped(t: Shape, it: Item<SNode?, int>): Shape
    requires t.Node?
  {
    if it.key < t.item.key then Node(t.left, it, Black, t.(left := Leaf)) else Node(t.(right := Leaf), it, Black, t.right)
  }

  lemma ToppedStored(m: Heap, m': Heap, t: Shape, it: Item<SNode?, int>)
    requires Stored(m, t) && Sep(t) && t.Node? && it.id !in Ids(t) && it.id in m' && Ids(t) <= m.Keys && Ids(t) <= m'.Keys
    requires var x, d := t.item.id, if it.key < t.item.key then L else R;
      && m'[x] == PutKid(m[x], d, null)
      && m'[it.id] == (if d.L? then Kids(KidOf(m[x], L), x, it.key) else Kids(x, KidOf(m[x], R), it.key))
      && forall i :: i in Ids(t) && i != x ==> m'[i] == m[i]
    ensures Stored(m', Topped(t, it)) && Sep(Topped(t, it)) && Ids(Topped(t, it)) == Ids(t) + {it.id}
  {
    SidesFramed(m, m', t);
    if it.key < t.item.key { ToppedLeft(m', t, it); } else { ToppedRight(m', t, it); }
  }

  lemma SidesFramed(m: Heap, m': Heap, t: Shape)
    requires Stored(m, t) && Sep(t) && t.Node? && Ids(t) <= m.Keys && Ids(t) <= m'.Keys
    requires forall i :: i in Ids(t) && i != t.item.id ==> m'[i] == m[i]
    ensures Stored(m', t.left) && Stored(m', t.right)
    ensures t.color.Black? && m[t.item.id] == Kids(Ptr(t.left, null), Ptr(t.right, null), t.item.key)
  {
    FrameStored(m, m', t.left);
    FrameStored(m, m', t.right);
  }

  lemma ToppedLeft(m': Heap, t: Shape, it: Item<SNode?, int>)
    requires t.Node? && t.color.Black? && Sep(t) && it.id !in Ids(t) && it.id in m' && Ids(t) <= m'.Keys && it.key < t.item.key
    requires Stored(m', t.left) && Stored(m', t.right)
    requires m'[t.item.id] == Kids(null, Ptr(t.right, null), t.item.key)
    requires m'[it.id] == Kids(Ptr(t.left, null), t.item.id, it.key)
    ensures Stored(m', Topped(t, it)) && Sep(Topped(t, it)) && Ids(Topped(t, it)) == Ids(t) + {it.id}
  {
    Apart(t);
    NoNodes(m');
    hide Stored, Sep, Ids;
    Joined(m', Leaf, t.item, t.right);
    Joined(m', t.left, it, Node(Leaf, t.item, Black, t.right));
  }

  lemma ToppedRight(m': Heap, t: Shape, it: Item<SNode?, int>)
    requires t.Node? && t.color.Black? && Sep(t) && it.id !in Ids(t) && it.id in m' && Ids(t) <= m'.Keys && it.key >= t.item.key
    requires Stored(m', t.left) && Stored(m', t.right)
    requires m'[t.item.id] == Kids(Ptr(t.left, null), null, t.item.key)
    requires m'[it.id] == Kids(t.item.id, Ptr(t.right, null), it.key)
    ensures Stored(m', Topped(t, it)) && Sep(Topped(t, it)) && Ids(Topped(t, it)) == Ids(t) + {it.id}
  {
    Apart(t);
    NoNodes(m');
    hide Stored, Sep, Ids;
    Joined(m', t.left, t.item, Leaf);
    Joined(m', Node(t.left, t.item, Black, Leaf), it, t.right);
  }

  lemma Apart(t: Shape)
    requires t.Node? && Sep(t)
    ensures Sep(t.left) && Sep(t.right) && Ids(t.left) !! Ids(t.right) && t.item.id !in Ids(t.left) + Ids(t.right)
    ensures Ids(t) == Ids(t.left) + {t.item.id} + Ids(t.right)
  {
  }

  lemma NoNodes(m: Heap)
    ensures Stored(m, Leaf) && Sep<SNode?, int>(Leaf) && Ids<SNode?, int>(Leaf) == {}
  {
  }

  lemma Joined(m: Heap, l: Shape, it: Item<SNode?, int>, r: Shape)
    requires Sep(l) && Sep(r) && Ids(l) !! Ids(r) && it.id !in Ids(l) + Ids(r)
    requires Stored(m, l) && Stored(m, r) && it.id in m && m[it.id] == Kids(Ptr(l, null), Ptr(r, null), it.key)
    ensures var t: Shape := Node(l, it, Black, r);
      Stored(m, t) && Sep(t) && Ids(t) == Ids(l) + {it.id} + Ids(r) && Ptr(t, null) == it.id
  {
  }

  lemma InsortAt(a: seq<Item<SNode?, int>>, b: seq<Item<SNode?, int>>, it: Item<SNode?, int>)
    requires Ascending(a + b, LT) && AllBelow(a, it.key, LT) && AllAbove(b, it.key, LT)
    ensures Insort(a + b, it, LT) == a + [it] + b && Ascending(a + [it] + b, LT)
  {
    hide Insort, Ascending, AllBelow, AllAbove;
    InsortSplit(a, b, it, LT);
    AscendingSplice(a, b, it, LT);
  }

  /** The top of a splayed tree, seen from a key next to it. */
  lemma Sides(l: seq<Item<SNode?, int>>, x: Item<SNode?, int>, r: seq<Item<SNode?, int>>, k: int)
    requires Ascending(l + [x] + r, LT) && k != x.key
    ensures k < x.key ==> AllAbove([x] + r, k, LT)
    ensures k > x.key ==> AllBelow(l + [x], k, LT)
    ensures l + [x] + r == l + ([x] + r)
  {
    AroundMiddle(l, x, r, LT);
  }

  lemma ToppedItems(t: Shape, it: Item<SNode?, int>)
    requires Nearest(t, Key(it.key)) && it.key != t.item.key && Ascending(Items(t), LT)
    ensures Items(Topped(t, it)) == Insort(Items(t), it, LT) && Ascending(Items(Topped(t, it)), LT)
  {
    var l, x, r := Items(t.left), t.item, Items(t.right);
    Sides(l, x, r, it.key);
    ToppedOrder(t, it);
    assert it.key < x.key ==> AllBelow(l, it.key, LT);
    assert it.key > x.key ==> AllAbove(r, it.key, LT);
    hide Insort, Ascending, AllBelow, AllAbove, Below, Beyond;
    if it.key < x.key {
      InsortAt(l, [x] + r, it);
    } else {
      InsortAt(l + [x], r, it);
    }
  }

  lemma ToppedOrder(t: Shape, it: Item<SNode?, int>)
    requires t.Node?
    ensures Items(t) == Items(t.left) + [t.item] + Items(t.right)
    ensures it.key < t.item.key ==> Items(Topped(t, it)) == Items(t.left) + [it] + ([t.item] + Items(t.right))
    ensures it.key >= t.item.key ==> Items(Topped(t, it)) == (Items(t.left) + [t.item]) + [it] + Items(t.right)
  {
    hide Items;
    OneLevel(t.left, t.item, t.color, t.right);
    OneLevel(t.left, t.item, t.color, Leaf);
    OneLevel(Leaf, t.item, t.color, t.right);
    if it.key < t.item.key {
      OneLevel(t.left, it, Black, t.(left := Leaf));
    } else {
      OneLevel(t.(right := Leaf), it, Black, t.right);
    }
  }

  lemma OneLevel(l: Shape, it: Item<SNode?, int>, c: Color, r: Shape)
    ensures Items(Node(l, it, c, r)) == Items(l) + [it] + Items(r)
    ensures l.Leaf? ==> Items(Node(l, it, c, r)) == [it] + Items(r)
    ensures r.Leaf? ==> Items(Node(l, it, c, r)) == Items(l) + [it]
  {
  }

  /** All keys of the left subtree lie below the goal, so a splay of it leaves the right child empty. */
  lemma GreatestUp(t: Shape, k: int)
    requires Nearest(t, Key(k)) && forall i :: 0 <= i < |Items(t)| ==> Items(t)[i].key < k
    ensures t.right.Leaf?
  {
    assert Items(t)[|Items(t.left)|] == t.item;
    FirstRight(t);
    if t.right.Node? {
      assert false;
    }
  }

  lemma OpenStored(m: Heap, t: Shape)
    requires Stored(m, t) && Sep(t) && t.Node?
    ensures Stored(m, t.left) && Stored(m, t.right) && Sep(t.left) && Sep(t.right) && Ids(t.left) !! Ids(t.right)
    ensures Items(t) == Items(t.left) + [t.item] + Items(t.right)
    ensures Ids(t) - {t.item.id} == Ids(t.left) + Ids(t.right)
  {
  }

  lemma EmptyLeft(t: Shape)
    requires t.Node? && t.left.Leaf?
    ensures Items(t.left) + Items(t.right) == Items(t.right) && Ids(t.left) + Ids(t.right) == Ids(t.right)
  {
  }

  lemma WithoutTop(a: seq<Item<SNode?, int>>, it: Item<SNode?, int>, b: seq<Item<SNode?, int>>)
    requires Ascending(a + [it] + b, LT)
    ensures var s, i := a + [it] + b, |a|; i < |s| && s[i] == it && s[..i] + s[i + 1..] == a + b
    ensures Ascending(a + b, LT) && Ascending(a, LT)
    ensures forall j :: 0 <= j < |a| ==> a[j].key < it.key
  {
    var s, u := a + [it] + b, a + b;
    assert s[..|a|] == a && s[|a| + 1..] == b && s[|a|] == it;
    forall j, k | 0 <= j < k < |u| ensures LT(u[j].key, u[k].key) {
      assert u[j] == s[if j < |a| then j else j + 1] && u[k] == s[if k < |a| then k else k + 1];
    }
    forall j, k | 0 <= j < k < |a| ensures LT(a[j].key, a[k].key) { assert u[j] == a[j] && u[k] == a[k]; }
    AroundMiddle(a, it, b, LT);
  }

  /** A subtree put into the empty right child. */
  lemma GraftStored(m: Heap, m': Heap, t: Shape, r: Shape)
    requires Stored(m, t) && Stored(m, r) && Sep(t) && Sep(r) && Ids(t) !! Ids(r) && t.Node? && t.right.Leaf?
    requires Ids(t) + Ids(r) <= m.Keys && m' == m[t.item.id := PutKid(m[t.item.id], R, Ptr(r, null))]
    ensures var u := t.(right := r); Stored(m', u) && Sep(u) && Ids(u) == Ids(t) + Ids(r) && Items(u) == Items(t) + Items(r)
  {
    FrameStored(m, m', t.left);
    FrameStored(m, m', r);
    assert Items(t) == Items(t.left) + [t.item];
  }

  lemma Start(m0: Heap, m: Heap, t: Shape, g: Goal, s: SNode?)
    requires Stored(m0, t) && Sep(t) && null !in Ids(t) && s !in Ids(t) && s != null && Ascending(Items(t), LT)
    requires m0.Keys == Ids(t) && m.Keys == Ids(t) + {s}
    requires forall i :: i in Ids(t) ==> m[i] == m0[i]
    ensures var w := Work(t, Top, Top); Held(m, w, s) && Around(w, g) && w.Contents() == Items(t) && w.All() == Ids(t)
  {
    FrameStored(m0, m, t);
    var w := Work(t, Top, Top);
    hide Items, Ids, Stored, Sep, Ascending;
    assert w.All() == Ids(t);
    assert w.Contents() == Items(t);
    assert w.Apart(s);
  }

  // ---------- the macros ----------

  class SplayHead {
    var root: SNode?
    ghost var tree: Shape

    constructor ()
      ensures Valid() && Items(tree) == []
    {
      root, tree := null, Leaf;
    }

    ghost predicate Valid()
      reads this, Ids(tree)
    {
      && Stored(Snap(Ids(tree)), tree) && Sep(tree) && null !in Ids(tree) && root == Ptr(tree, null)
      && Ascending(Items(tree), LT)
    }

    /** Smaller keys are on the left. */
    lemma SearchTree()
      requires Valid()
      ensures Bst(tree)
    {
      AscendingBst(tree, LT);
    }

    ghost predicate Holds(w: Work, node: SNode)
      reads this`root, w.All(), node
    {
      root == Ptr(w.focus, null) && Held(Snap(w.All() + {node}), w, node)
    }

    /** What the fields hold at the focus and at the open ends. */
    lemma Reads(w: Work, node: SNode)
      requires Holds(w, node)
      ensures w.Apart(node)
      ensures w.focus.Node? <==> root != null
      ensures root != null ==>
        && root == w.focus.item.id && root in w.All() && root.key == w.focus.item.key
        && root.left == Ptr(w.focus.left, null) && root.right == Ptr(w.focus.right, null)
        && (w.focus.left.Node? <==> root.left != null) && (w.focus.right.Node? <==> root.right != null)
      ensures root != null && root.left != null ==>
        root.left in w.All() && root.left.key == w.focus.left.item.key && root.left != root
      ensures root != null && root.right != null ==>
        root.right in w.All() && root.right.key == w.focus.right.item.key && root.right != root
      ensures AllToward(w.more, L) && AllToward(w.less, R)
      ensures w.Last(L, node) in w.All() + {node} && w.Last(R, node) in w.All() + {node} && null !in w.All()
    {
      ghost var m := Snap(w.All() + {node});
      if root != null {
        assert m[root] == Kids(root.left, root.right, root.key);
        if w.focus.left.Node? { assert Stored(m, w.focus.left) && m[w.focus.left.item.id].key == w.focus.left.item.key; }
        if w.focus.right.Node? { assert Stored(m, w.focus.right) && m[w.focus.right.item.id].key == w.focus.right.item.key; }
      }
      SpineToward(m, L, w.more, KidOf(m[Above(w.more, node)], L), node);
      SpineToward(m, R, w.less, KidOf(m[Above(w.less, node)], R), node);
    }

    method Rotate(d: Dir, tmp: SNode, ghost w: Work, ghost node: SNode)
      requires Holds(w, node) && root != null && w.focus.Node? && Child(w.focus, d).Node? && tmp == Child(w.focus, d).item.id
      modifies this`root, root`left, root`right, tmp`left, tmp`right
      ensures Holds(w.Turned(d), node) && w.Turned(d).Contents() == w.Contents() && w.Turned(d).All() == w.All()
    {
      hide Held, Work.Apart, Work.Linked, Work.Turned, AllToward, Stored, Ids, Items, Work.All;
      Reads(w, node);
      ghost var s := w.All() + {node};
      ghost var m := Snap(s);
      root.SetKid(d, tmp.Kid(d.Opp()));
      tmp.SetKid(d.Opp(), root);
      root := tmp;
      TurnHeld(m, Snap(s), d, w, tmp, node);
    }

    method Link(d: Dir, tmp: SNode, ghost w: Work, ghost node: SNode) returns (last: SNode)
      requires Holds(w, node) && w.focus.Node? && tmp == w.Last(d, node)
      modifies this`root, tmp`left, tmp`right
      ensures Holds(w.Linked(d), node) && w.Linked(d).All() == w.All() && last == w.Linked(d).Last(d, node)
    {
      ghost var s := w.All() + {node};
      ghost var m := Snap(s);
      tmp.SetKid(d, root);
      last := root;
      root := root.Kid(d);
      LinkHeld(m, Snap(s), d, w, node);
      LinkedApart(w, d, node);
    }

    /** SPLAY_ASSEMBLE, and the heap after each write but the last two. */
    method Hang(node: SNode, left: SNode, right: SNode, ghost s: set<SNode?>) returns (ghost m1: Heap, ghost m2: Heap)
      requires root in s && node in s && left in s && right in s && root !in {null, node, left, right}
      modifies root`left, root`right, left`right, right`left
      ensures root == old(root) && root in old(Snap(s)) && left in old(Snap(s)) && right in m1 && node in m2
      ensures m1 == old(Snap(s))[left := PutKid(old(Snap(s))[left], R, old(root.left))]
      ensures m2 == m1[right := PutKid(m1[right], L, old(root.right))]
      ensures Snap(s) == m2[root := Kids(m2[node].right, m2[node].left, old(root.key))]
    {
      left.right := root.left;
      m1 := Snap(s);
      right.left := root.right;
      m2 := Snap(s);
      root.left := node.right;
      root.right := node.left;
    }

    method Assemble(node: SNode, left: SNode, right: SNode, ghost w: Work)
      requires Holds(w, node) && root != null && left == w.Last(R, node) && right == w.Last(L, node)
      modifies root`left, root`right, left`left, left`right, right`left, right`right
      ensures root == old(root) && root == Ptr(w.Result(), null) && w.All() == Ids(w.Result())
      ensures Stored(Snap(w.All()), w.Result())
    {
      ghost var s := w.All() + {node};
      ghost var m := Snap(s);
      Reads(w, node);
      assert root !in {left, right} && m[root] == Kids(root.left, root.right, root.key);
      hide Held, Work.Apart, AllToward, Stored, Ids, Items, Work.All, Work.Last;
      ghost var m1, m2 := Hang(node, left, right, s);
      ghost var m3 := Snap(s);
      AssembleHeld(m, m1, m2, m3, w, node);
      ResultIds(w);
      FrameStored(m3, Snap(w.All()), w.Result());
    }

    /** One round of the loop. */
    method Descend(goal: Goal, left: SNode, right: SNode, ghost w: Work, ghost node: SNode)
      returns (done: bool, left': SNode, right': SNode, ghost w': Work)
      requires Holds(w, node) && root != null && left == w.Last(R, node) && right == w.Last(L, node)
      requires Around(w, goal)
      modifies this`root, w.All()`left, w.All()`right, node`left, node`right
      ensures Holds(w', node) && root != null && left' == w'.Last(R, node) && right' == w'.Last(L, node)
      ensures Around(w', goal) && w'.All() == w.All() && w'.Contents() == w.Contents() && w'.focus.Node?
      ensures if done then Compare(goal, w'.focus.item.key) == 0 || Child(w'.focus, Toward(goal, w'.focus.item.key)).Leaf?
              else |Items(w'.focus)| < |Items(w.focus)|
    {
      hide Held, Stored, Work.Apart, Sep, Ids, Nearest, AllToward, Work.All, Work.Result, Items, Around, Work.Contents;
      Reads(w, node);
      w', left', right' := w, left, right;
      var comp := Compare(goal, root.key);
      if comp == 0 { return true, left, right, w; }
      var d := if comp < 0 then L else R;
      var tmp := root.Kid(d);
      if tmp == null { return true, left, right, w; }
      var comp2 := Compare(goal, tmp.key);
      if (d.L? && comp2 < 0) || (d.R? && comp2 > 0) {
        Rotate(d, tmp, w, node);
        w' := w.Turned(d);
        TurnedAround(w, d, goal);
        Reads(w', node);
        if root.Kid(d) == null { return true, left, right, w'; }
      }
      LinkedAround(w', goal);
      LinkedItems(w', d);
      LinkedApart(w', d, node);
      if d.L? {
        right' := Link(d, right, w', node);
      } else {
        left' := Link(d, left, w', node);
      }
      w' := w'.Linked(d);
      done := false;
    }

    /** The loop and the assembly at its end. */
    method WalkDown(goal: Goal, node: SNode, ghost w0: Work) returns (ghost w: Work)
      requires Holds(w0, node) && root != null && node == w0.Last(L, node) == w0.Last(R, node)
      requires Around(w0, goal)
      modifies this`root, w0.All()`left, w0.All()`right, node`left, node`right
      ensures w.focus.Node? && root == Ptr(w.Result(), null) && w.Apart(node)
      ensures w.All() == w0.All() == Ids(w.Result()) && Items(w.Result()) == w0.Contents()
      ensures Stored(Snap(w0.All()), w.Result()) && Nearest(w.Result(), goal)
    {
      hide Held, Stored, Work.Apart, Sep, Items, Ids, Nearest, Around, AllToward, Work.All, Work.Contents, Work.Result, Work.Linked;
      var left, right, done := node, node, false;
      w := w0;
      Reads(w, node);
      while !done
        invariant Holds(w, node) && root != null && w.focus.Node?
        invariant left == w.Last(R, node) && right == w.Last(L, node)
        invariant Around(w, goal) && w.All() == w0.All() && w.Contents() == w0.Contents()
        invariant done ==> Compare(goal, w.focus.item.key) == 0 || Child(w.focus, Toward(goal, w.focus.item.key)).Leaf?
        decreases !done, |Items(w.focus)|
      {
        done, left, right, w := Descend(goal, left, right, w, node);
      }
      Reads(w, node);
      Assemble(node, left, right, w);
      ResultNearest(w, goal);
      ResultItems(w);
    }

    /** name##_SPLAY, and name##_SPLAY_MINMAX for a goal at either end. */
    method Splay(goal: Goal)
      requires Valid() && root != null
      modifies this, Ids(tree)`left, Ids(tree)`right
      ensures Valid() && Items(tree) == old(Items(tree)) && Ids(tree) == old(Ids(tree))
      ensures Nearest(tree, goal)
    {
      hide Held, Stored, Work.Apart, Sep, Items, Ids, Nearest, AllToward, Work.Result, Work.Contents, Ascending, Around, Work.All, Plug;
      ghost var t, s := tree, Ids(tree);
      ghost var m0 := Snap(s);
      var node := new SNode(0);
      ghost var w := Work(t, Top, Top);
      Start(m0, Snap(s + {node}), t, goal, node);
      w := WalkDown(goal, node, w);
      ResultSep(w, node);
      tree := w.Result();
      assert Ids(tree) == s;
    }

    /** The fields of the top node. */
    lemma TopReads()
      requires Valid()
      ensures root != null <==> tree.Node?
      ensures tree.Node? ==> root == tree.item.id && root in Ids(tree) && root.key == tree.item.key
                             && root.left == Ptr(tree.left, null) && root.right == Ptr(tree.right, null)
    {
      if tree.Node? { assert Snap(Ids(tree))[root] == Kids(root.left, root.right, root.key); }
    }

    /** name##_SPLAY_FIND. */
    method Find(key: int) returns (r: SNode?)
      requires Valid()
      modifies this, Ids(tree)`left, Ids(tree)`right
      ensures Valid() && Items(tree) == old(Items(tree)) && Ids(tree) == old(Ids(tree))
      ensures r != null <==> HasKey(Items(tree), key)
      ensures r != null ==> r in Ids(tree) && r.key == key
    {
      hide Stored, Sep, Items, Ids, Ascending;
      TopReads();
      if root == null {
        TopIfAny(tree);
        EmptyHasNone(tree, key);
        return null;
      }
      Splay(Key(key));
      TopReads();
      NearestHas(tree, key);
      return if key == root.key then root else null;
    }

    /** name##_SPLAY_MIN_MAX at the end on side `d`: -1 asks for the least, 1 for the greatest. */
    method MinMax(d: Dir) returns (r: SNode?)
      requires Valid() && root != null
      modifies this, Ids(tree)`left, Ids(tree)`right
      ensures Valid() && Items(tree) == old(Items(tree)) && Ids(tree) == old(Ids(tree)) && Items(tree) != []
      ensures r == if d.L? then Items(tree)[0].id else Items(tree)[|Items(tree)| - 1].id
    {
      Splay(if d.L? then Least else Greatest);
      TopReads();
      r := root;
    }

    /** name##_SPLAY_NEXT. */
    method Next(elm: SNode) returns (r: SNode?, ghost i: nat)
      requires Valid() && elm in Ids(tree)
      modifies this, Ids(tree)`left, Ids(tree)`right
      ensures Valid() && Items(tree) == old(Items(tree)) && Ids(tree) == old(Ids(tree))
      ensures i < |Items(tree)| && Items(tree)[i].id == elm
      ensures r == if i + 1 < |Items(tree)| then Items(tree)[i + 1].id else null
    {
      assert tree.Node?;
      hide Ids, Items, Sep, Ascending, Below, Beyond;
      TopReads();
      Splay(Key(elm.key));
      ghost var m := Snap(Ids(tree));
      NearestIs(m, tree, elm);
      FirstRight(tree);
      i := |Items(tree.left)|;
      TopReads();
      if elm.right == null {
        return null, i;
      }
      r := Leftmost(elm.right, tree.right);
    }

    method Leftmost(n: SNode, ghost t: Shape) returns (r: SNode)
      requires Valid() && t.Node? && n == t.item.id && Stored(Snap(Ids(tree)), t)
      ensures Items(t) != [] && r == Items(t)[0].id
    {
      hide Ids, Items, Sep, Ascending;
      r := n;
      ghost var m, u := Snap(Ids(tree)), t;
      assert m[n] == Kids(n.left, n.right, n.key);
      FirstLeft(t);
      while r.left != null
        invariant u.Node? && Stored(m, u) && r == u.item.id && r in m && m[r] == Kids(r.left, r.right, r.key)
        invariant Items(u) != [] && Items(t) != [] && Items(u)[0] == Items(t)[0]
        decreases u
      {
        r := r.left;
        FirstLeft(u);
        u := u.left;
      }
      FirstLeft(u);
    }

    /** The links of an insertion below whose root has just been splayed up. */
    method PutOnTop(elm: SNode)
      requires Valid() && root != null && elm !in Ids(tree) && elm.key != root.key && Nearest(tree, Key(elm.key))
      modifies this, elm`left, elm`right, root`left, root`right
      ensures Valid() && Items(tree) == Insort(old(Items(tree)), Item(elm, elm.key), LT)
      ensures Ids(tree) == old(Ids(tree)) + {elm}
    {
      TopReads();
      ghost var s, t, it: Item<SNode?, int> := Ids(tree), tree, Item(elm, elm.key);
      ghost var m := Snap(s);
      hide Ids, Items, Stored, Sep, Ascending, Insort;
      if elm.key < root.key {
        elm.left, elm.right := root.left, root;
        root.left := null;
      } else {
        elm.right, elm.left := root.right, root;
        root.right := null;
      }
      root := elm;
      tree := Topped(t, it);
      ghost var m' := Snap(s + {elm});
      ToppedStored(m, m', t, it);
      ToppedItems(t, it);
    }

    /** name##_SPLAY_INSERT. */
    method Insert(elm: SNode) returns (same: SNode?)
      requires Valid() && elm !in Ids(tree)
      modifies this, elm`left, elm`right, Ids(tree)`left, Ids(tree)`right
      ensures Valid() && (same != null <==> HasKey(old(Items(tree)), elm.key))
      ensures same != null ==> same in Ids(tree) && same.key == elm.key
                               && Items(tree) == old(Items(tree)) && Ids(tree) == old(Ids(tree))
      ensures same == null ==> Items(tree) == Insort(old(Items(tree)), Item(elm, elm.key), LT)
                               && Ids(tree) == old(Ids(tree)) + {elm}
    {
      if root == null {
        EmptyHasNone(tree, elm.key);
        elm.left, elm.right := null, null;
        root := elm;
        tree := Node(Leaf, Item(elm, elm.key), Black, Leaf);
        ghost var it: Item<SNode?, int> := Item(elm, elm.key);
        assert Ids(tree) == {elm} && Items(tree) == [it];
        assert Stored(Snap(Ids(tree)), tree);
        return null;
      }
      hide Ids, Items, Stored, Sep, Ascending, Insort;
      Splay(Key(elm.key));
      TopReads();
      NearestHas(tree, elm.key);
      if elm.key == root.key {
        return root;
      }
      PutOnTop(elm);
      same := null;
    }

    /** The left subtree of a node that is being taken out, splayed, gets the right one as its right child. */
    method JoinKids(key: int, tmp: SNode?, ghost l: Shape, ghost r: Shape)
      requires Valid() && root != null && tree == l && tmp == Ptr(r, null) && Stored(Snap(Ids(r)), r) && Sep(r)
      requires Ids(l) !! Ids(r) && null !in Ids(r) && Ascending(Items(l) + Items(r), LT)
      requires forall j :: 0 <= j < |Items(l)| ==> Items(l)[j].key < key
      modifies this, Ids(l)`left, Ids(l)`right
      ensures Valid() && Ids(tree) == Ids(l) + Ids(r) && Items(tree) == Items(l) + Items(r)
    {
      hide Ids, Items, Stored, Sep, Ascending, Below, Beyond;
      ghost var m0, s := Snap(Ids(r)), Ids(l) + Ids(r);
      Splay(Key(key));
      TopReads();
      GreatestUp(tree, key);
      FrameStored(m0, Snap(Ids(r)), r);
      Graft(tmp, r, s);
    }

    /** The subtree `r` becomes the right child of the top node. */
    method Graft(tmp: SNode?, ghost r: Shape, ghost s: set<SNode?>)
      requires Valid() && root != null && tree.Node? && tree.right.Leaf? && tmp == Ptr(r, null)
      requires Stored(Snap(Ids(r)), r) && Sep(r) && Ids(tree) !! Ids(r) && null !in Ids(r) && s == Ids(tree) + Ids(r)
      requires Ascending(Items(tree) + Items(r), LT)
      modifies this`tree, root`right
      ensures Valid() && Ids(tree) == s && Items(tree) == old(Items(tree)) + Items(r)
    {
      TopReads();
      hide Ids, Items, Stored, Sep, Ascending;
      ghost var m := Snap(s);
      FrameStored(Snap(Ids(tree)), m, tree);
      FrameStored(Snap(Ids(r)), m, r);
      root.right := tmp;
      GraftStored(m, Snap(s), tree, r);
      tree := tree.(right := r);
    }

    /** Takes the top node out. */
    method DropTop(key: int) returns (ghost i: nat)
      requires Valid() && root != null && root.key == key
      modifies this, Ids(tree)`left, Ids(tree)`right
      ensures Valid() && Ids(tree) == old(Ids(tree)) - {old(root)}
      ensures i < |old(Items(tree))| && old(Items(tree))[i] == Item(old(root), key)
      ensures Items(tree) == old(Items(tree))[..i] + old(Items(tree))[i + 1..]
    {
      ghost var t := tree;
      TopReads();
      OpenStored(Snap(Ids(t)), t);
      WithoutTop(Items(t.left), t.item, Items(t.right));
      FrameStored(Snap(Ids(t)), Snap(Ids(t.left)), t.left);
      FrameStored(Snap(Ids(t)), Snap(Ids(t.right)), t.right);
      hide Ids, Items, Stored, Sep, Ascending;
      i := |Items(t.left)|;
      if root.left == null {
        root := root.right;
        tree := t.right;
        EmptyLeft(t);
      } else {
        var tmp := root.right;
        root := root.left;
        tree := t.left;
        JoinKids(key, tmp, t.left, t.right);
      }
    }

    /** name##_SPLAY_REMOVE: `elm` only lends its key; the node with that key goes. */
    method Remove(elm: SNode) returns (r: SNode?, ghost i: nat)
      requires Valid()
      modifies this, Ids(tree)`left, Ids(tree)`right
      ensures Valid() && (r != null <==> HasKey(old(Items(tree)), elm.key)) && (r != null ==> r == elm)
      ensures r == null ==> Items(tree) == old(Items(tree)) && Ids(tree) == old(Ids(tree))
      ensures r != null ==>
        && i < |old(Items(tree))| && old(Items(tree))[i].key == elm.key
        && Items(tree) == old(Items(tree))[..i] + old(Items(tree))[i + 1..]
        && Ids(tree) == old(Ids(tree)) - {old(Items(tree))[i].id}
    {
      hide Ids, Items, Stored, Sep, Ascending, Below, Beyond;
      i := 0;
      TopReads();
      if root == null {
        EmptyHasNone(tree, elm.key);
        return null, i;
      }
      Splay(Key(elm.key));
      TopReads();
      NearestHas(tree, elm.key);
      if elm.key == root.key {
        i := DropTop(elm.key);
        return elm, i;
      }
      r := null;
    }
  }
}
