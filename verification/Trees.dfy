/** Binary trees seen from outside the heap: the shape of a linked tree as a value, the path from a
    subtree up to the root, and what it means for a heap to hold such a tree.

    A heap is a map from node identities to cells, so the lemmas here never mention objects.  The
    pointer that stands for "no node" is a parameter: NULL for nty_tree.h, the sentinel for
    kvs_rbtree.c. */
module Trees {

  datatype Color = Red | Black

  datatype Dir = L | R {
    function Opp(): Dir { if L? then R else L }
  }

  datatype Item<P, K> = Item(id: P, key: K)

  datatype Tree<P, K> = Leaf | Node(left: Tree<P, K>, item: Item<P, K>, color: Color, right: Tree<P, K>)

  /** The path from a subtree to the root, innermost step first.  The subtree hangs on side `d`. */
  datatype Path<P, K> = Top | Step(up: Path<P, K>, d: Dir, item: Item<P, K>, color: Color, sib: Tree<P, K>)

  /** What the heap stores for one node. */
  datatype Cell<P, K> = Cell(left: P, right: P, parent: P, color: Color, key: K)

  /** A node whose child on side `d` is `near`. */
  function Make<P, K>(d: Dir, near: Tree<P, K>, it: Item<P, K>, c: Color, far: Tree<P, K>): Tree<P, K> {
    if d.L? then Node(near, it, c, far) else Node(far, it, c, near)
  }

  function Child<P, K>(t: Tree<P, K>, d: Dir): Tree<P, K>
    requires t.Node?
  {
    if d.L? then t.left else t.right
  }

  function Plug<P, K>(p: Path<P, K>, t: Tree<P, K>): Tree<P, K>
    decreases p
  {
    match p
    case Top => t
    case Step(up, d, it, c, sib) => Plug(up, Make(d, t, it, c, sib))
  }

  function Depth<P, K>(p: Path<P, K>): nat {
    match p case Top => 0 case Step(up, _, _, _, _) => 1 + Depth(up)
  }

  function Paint<P, K>(t: Tree<P, K>, c: Color): Tree<P, K> {
    if t.Leaf? then t else t.(color := c)
  }

  // ---------- in-order contents ----------

  function Items<P, K>(t: Tree<P, K>): seq<Item<P, K>> {
    match t
    case Leaf => []
    case Node(l, it, _, r) => Items(l) + [it] + Items(r)
  }

  function Before<P, K>(p: Path<P, K>): seq<Item<P, K>> {
    match p
    case Top => []
    case Step(up, d, it, _, sib) => if d.L? then Before(up) else Before(up) + Items(sib) + [it]
  }

  function After<P, K>(p: Path<P, K>): seq<Item<P, K>> {
    match p
    case Top => []
    case Step(up, d, it, _, sib) => if d.L? then [it] + Items(sib) + After(up) else After(up)
  }

  lemma {:induction false} PlugItems<P, K>(p: Path<P, K>, t: Tree<P, K>)
    ensures Items(Plug(p, t)) == Before(p) + Items(t) + After(p)
    decreases p
  {
    match p
    case Top =>
    case Step(up, d, it, c, sib) =>
      PlugItems(up, Make(d, t, it, c, sib));
  }

  /** A place in a tree: the path down to it and the subtree found there. */
  datatype Spot<P, K> = Spot(path: Path<P, K>, tree: Tree<P, K>) {
    function Whole(): Tree<P, K> { Plug(path, tree) }

    ghost function All(): set<P> { Ids(tree) + PathIds(path) }

    /** The same nodes in the same order, whatever the shape. */
    ghost predicate Same(z: Spot<P, K>) {
      Items(Whole()) == Items(z.Whole()) && All() == z.All()
    }

    function Up(): Spot<P, K>
      requires path.Step?
    {
      Spot(path.up, Make(path.d, tree, path.item, path.color, path.sib))
    }
  }

  lemma LocalSame<P, K>(p: Path<P, K>, t: Tree<P, K>, u: Tree<P, K>)
    requires Items(t) == Items(u) && Ids(t) == Ids(u)
    ensures Spot(p, u).Same(Spot(p, t))
  {
    PlugItems(p, t);
    PlugItems(p, u);
  }

  lemma UpSame<P, K>(z: Spot<P, K>)
    requires z.path.Step?
    ensures z.Up().Whole() == z.Whole() && z.Up().All() == z.All()
  {
  }

  // ---------- separation ----------

  function Ids<P, K>(t: Tree<P, K>): set<P> {
    match t
    case Leaf => {}
    case Node(l, it, _, r) => Ids(l) + {it.id} + Ids(r)
  }

  function PathIds<P, K>(p: Path<P, K>): set<P> {
    match p
    case Top => {}
    case Step(up, _, it, _, sib) => PathIds(up) + {it.id} + Ids(sib)
  }

  /** No node occurs twice. */
  ghost predicate Sep<P, K>(t: Tree<P, K>) {
    match t
    case Leaf => true
    case Node(l, it, _, r) =>
      it.id !in Ids(l) && it.id !in Ids(r) && Ids(l) !! Ids(r) && Sep(l) && Sep(r)
  }

  ghost predicate PathSep<P, K>(p: Path<P, K>) {
    match p
    case Top => true
    case Step(up, _, it, _, sib) =>
      it.id !in PathIds(up) && it.id !in Ids(sib) && PathIds(up) !! Ids(sib) && PathSep(up) && Sep(sib)
  }

  lemma {:induction false} PlugIds<P, K>(p: Path<P, K>, t: Tree<P, K>)
    ensures Ids(Plug(p, t)) == Ids(t) + PathIds(p)
    decreases p
  {
    match p
    case Top =>
    case Step(up, d, it, c, sib) =>
      PlugIds(up, Make(d, t, it, c, sib));
  }

  // ---------- representation ----------

  function Ptr<P, K>(t: Tree<P, K>, nil: P): P {
    if t.Leaf? then nil else t.item.id
  }

  function Above<P, K>(p: Path<P, K>, nil: P): P {
    if p.Top? then nil else p.item.id
  }

  /** Every node of `t` sits in `m` with the links, colour and key that `t` says. */
  ghost predicate Rep<P, K>(m: map<P, Cell<P, K>>, t: Tree<P, K>, parent: P, nil: P) {
    match t
    case Leaf => true
    case Node(l, it, c, r) =>
      && it.id != nil && it.id in m
      && m[it.id] == Cell(Ptr(l, nil), Ptr(r, nil), parent, c, it.key)
      && Rep(m, l, it.id, nil) && Rep(m, r, it.id, nil)
  }

  ghost predicate PathRep<P, K>(m: map<P, Cell<P, K>>, p: Path<P, K>, hole: P, root: P, nil: P) {
    match p
    case Top => root == hole
    case Step(up, d, it, c, sib) =>
      && it.id != nil && it.id in m
      && m[it.id] == Cell(if d.L? then hole else Ptr(sib, nil), if d.L? then Ptr(sib, nil) else hole,
                          Above(up, nil), c, it.key)
      && Rep(m, sib, it.id, nil)
      && PathRep(m, up, it.id, root, nil)
  }

  /** The heap holds `Plug(p, t)`, and `p`, `t` say where we are in it. */
  ghost predicate At<P, K>(m: map<P, Cell<P, K>>, p: Path<P, K>, t: Tree<P, K>, root: P, nil: P) {
    && Rep(m, t, Above(p, nil), nil) && PathRep(m, p, Ptr(t, nil), root, nil)
    && Sep(t) && PathSep(p) && Ids(t) !! PathIds(p)
    && m.Keys == Ids(t) + PathIds(p) && nil !in m
  }

  /** One level of `Rep` and `Sep`, for whichever child is asked for. */
  lemma Open<P, K>(m: map<P, Cell<P, K>>, t: Tree<P, K>, d: Dir, parent: P, nil: P)
    requires Rep(m, t, parent, nil) && Sep(t) && t.Node?
    ensures t.item.id != nil && t.item.id in m
    ensures m[t.item.id] == Cell(Ptr(t.left, nil), Ptr(t.right, nil), parent, t.color, t.item.key)
    ensures Rep(m, Child(t, d), t.item.id, nil) && Rep(m, Child(t, d.Opp()), t.item.id, nil)
    ensures Sep(Child(t, d)) && Sep(Child(t, d.Opp())) && Ids(Child(t, d)) !! Ids(Child(t, d.Opp()))
    ensures t.item.id !in Ids(Child(t, d)) && t.item.id !in Ids(Child(t, d.Opp()))
    ensures Ids(t) == Ids(Child(t, d)) + {t.item.id} + Ids(Child(t, d.Opp()))
  {
  }

  lemma Fold<P, K>(m: map<P, Cell<P, K>>, d: Dir, near: Tree<P, K>, it: Item<P, K>, c: Color, far: Tree<P, K>,
                   parent: P, nil: P)
    requires it.id != nil && it.id in m && Rep(m, near, it.id, nil) && Rep(m, far, it.id, nil)
    requires m[it.id] == WithKid(WithKid(Cell(nil, nil, parent, c, it.key), d, Ptr(near, nil)), d.Opp(), Ptr(far, nil))
    ensures Rep(m, Make(d, near, it, c, far), parent, nil)
  {
  }

  lemma {:induction false} RepItems<P, K>(m: map<P, Cell<P, K>>, t: Tree<P, K>, parent: P, nil: P)
    requires Rep(m, t, parent, nil)
    ensures forall i :: 0 <= i < |Items(t)| ==>
      var it := Items(t)[i]; it.id in Ids(t) && it.id in m && m[it.id].key == it.key
  {
    match t
    case Leaf =>
    case Node(l, it, _, r) =>
      RepItems(m, l, it.id, nil);
      RepItems(m, r, it.id, nil);
  }

  lemma {:induction false} RootInPath<P, K>(m: map<P, Cell<P, K>>, p: Path<P, K>, hole: P, root: P, nil: P)
    requires PathRep(m, p, hole, root, nil)
    ensures p.Step? ==> root in PathIds(p)
  {
    if p.Step? { RootInPath(m, p.up, p.item.id, root, nil); }
  }

  lemma UpDown<P, K>(m: map<P, Cell<P, K>>, up: Path<P, K>, d: Dir, it: Item<P, K>, c: Color, sib: Tree<P, K>,
                     t: Tree<P, K>, root: P, nil: P)
    ensures At(m, Step(up, d, it, c, sib), t, root, nil) <==> At(m, up, Make(d, t, it, c, sib), root, nil)
  {
  }

  lemma {:induction false} PlugAt<P, K>(m: map<P, Cell<P, K>>, p: Path<P, K>, t: Tree<P, K>, root: P, nil: P)
    ensures At(m, p, t, root, nil) <==> At(m, Top, Plug(p, t), root, nil)
    decreases p
  {
    match p
    case Top =>
    case Step(up, d, it, c, sib) =>
      UpDown(m, up, d, it, c, sib, t, root, nil);
      PlugAt(m, up, Make(d, t, it, c, sib), root, nil);
  }

  /** Writes outside a subtree, and a new parent pointer in its top node, move the subtree. */
  lemma {:induction false} Move<P, K>(m: map<P, Cell<P, K>>, m': map<P, Cell<P, K>>, t: Tree<P, K>, p: P, p': P, nil: P)
    requires Rep(m, t, p, nil) && Sep(t)
    requires forall i :: i in Ids(t) ==> i in m && i in m'
    requires forall i :: i in Ids(t) && i != Ptr(t, nil) ==> m'[i] == m[i]
    requires t.Node? ==> m'[t.item.id] == m[t.item.id].(parent := p')
    ensures Rep(m', t, p', nil)
  {
    match t
    case Leaf =>
    case Node(l, it, c, r) =>
      Move(m, m', l, it.id, it.id, nil);
      Move(m, m', r, it.id, it.id, nil);
  }

  /** Writes outside a path, and a new child on the open side of its innermost node, move the hole. */
  lemma {:induction false} MoveHole<P, K>(m: map<P, Cell<P, K>>, m': map<P, Cell<P, K>>, p: Path<P, K>,
                                          hole: P, hole': P, root: P, root': P, nil: P)
    requires PathRep(m, p, hole, root, nil) && PathSep(p)
    requires forall i :: i in PathIds(p) ==> i in m && i in m'
    requires forall i :: i in PathIds(p) && i != Above(p, nil) ==> m'[i] == m[i]
    requires p.Step? ==>
               m'[p.item.id] == if p.d.L? then m[p.item.id].(left := hole') else m[p.item.id].(right := hole')
    requires root' == if p.Top? then hole' else root
    ensures PathRep(m', p, hole', root', nil)
  {
    match p
    case Top =>
    case Step(up, d, it, c, sib) =>
      Move(m, m', sib, it.id, it.id, nil);
      FramePath(m, m', up, it.id, root, nil);
  }

  lemma {:induction false} FramePath<P, K>(m: map<P, Cell<P, K>>, m': map<P, Cell<P, K>>, p: Path<P, K>,
                                           hole: P, root: P, nil: P)
    requires PathRep(m, p, hole, root, nil) && PathSep(p)
    requires forall i :: i in PathIds(p) ==> i in m && i in m' && m'[i] == m[i]
    ensures PathRep(m', p, hole, root, nil)
  {
    match p
    case Top =>
    case Step(up, d, it, c, sib) =>
      Move(m, m', sib, it.id, it.id, nil);
      FramePath(m, m', up, it.id, root, nil);
  }

  // ---------- recolouring ----------

  lemma PaintKeeps<P, K>(t: Tree<P, K>, c: Color)
    ensures Items(Paint(t, c)) == Items(t) && Ids(Paint(t, c)) == Ids(t) && Sep(Paint(t, c)) == Sep(t)
  {
  }

  lemma PaintAt<P, K>(m: map<P, Cell<P, K>>, m': map<P, Cell<P, K>>, p: Path<P, K>, t: Tree<P, K>, c: Color,
                      root: P, nil: P)
    requires t.Node? && At(m, p, t, root, nil)
    requires m' == m[t.item.id := m[t.item.id].(color := c)]
    ensures At(m', p, Paint(t, c), root, nil)
  {
    Move(m, m', t.left, t.item.id, t.item.id, nil);
    Move(m, m', t.right, t.item.id, t.item.id, nil);
    FramePath(m, m', p, t.item.id, root, nil);
  }

  // ---------- rotation ----------

  /** Turning `t` towards side `d`: the child on the other side becomes the top. */
  function Rotated<P, K>(t: Tree<P, K>, d: Dir): Tree<P, K>
    requires t.Node? && Child(t, d.Opp()).Node?
  {
    var y := Child(t, d.Opp());
    Make(d, Make(d, Child(t, d), t.item, t.color, Child(y, d)), y.item, y.color, Child(y, d.Opp()))
  }

  lemma RotatedKeeps<P, K>(t: Tree<P, K>, d: Dir)
    requires t.Node? && Child(t, d.Opp()).Node?
    ensures Items(Rotated(t, d)) == Items(t) && Ids(Rotated(t, d)) == Ids(t) && Sep(Rotated(t, d)) == Sep(t)
  {
  }

  function WithKid<P, K>(c: Cell<P, K>, d: Dir, n: P): Cell<P, K> {
    if d.L? then c.(left := n) else c.(right := n)
  }

  function WithParent<P, K>(c: Cell<P, K>, n: P): Cell<P, K> {
    c.(parent := n)
  }

  lemma RotateRep<P, K>(m: map<P, Cell<P, K>>, m': map<P, Cell<P, K>>, t: Tree<P, K>, d: Dir, up: P, nil: P)
    requires t.Node? && Child(t, d.Opp()).Node? && Rep(m, t, up, nil) && Sep(t)
    requires m'.Keys == m.Keys && nil !in m && Ids(t) <= m.Keys
    requires var x, yt := t.item.id, Child(t, d.Opp());
             var y, b := yt.item.id, Ptr(Child(yt, d), nil);
             && m'[x] == WithParent(WithKid(m[x], d.Opp(), b), y)
             && m'[y] == WithParent(WithKid(m[y], d, x), up)
             && (b != nil ==> b in m && m'[b] == WithParent(m[b], x))
             && (forall i :: i in Ids(t) && i != x && i != y && i != b ==> m'[i] == m[i])
    ensures Rep(m', Rotated(t, d), up, nil)
  {
    var x, yt := t.item.id, Child(t, d.Opp());
    var y, a, b, c := yt.item.id, Child(t, d), Child(yt, d), Child(yt, d.Opp());
    Open(m, t, d, up, nil);
    Open(m, yt, d, x, nil);
    var low := Make(d, a, t.item, t.color, b);
    assert Rep(m', low, y, nil) by {
      Move(m, m', a, x, x, nil);
      Move(m, m', b, y, x, nil);
      Fold(m', d, a, t.item, t.color, b, y, nil);
    }
    assert Rep(m', Rotated(t, d), up, nil) by {
      Move(m, m', c, y, y, nil);
      Fold(m', d, low, yt.item, yt.color, c, up, nil);
    }
  }

  /** The nodes a rotation touches, read off the heap. */
  lemma RotateReads<P, K>(m: map<P, Cell<P, K>>, p: Path<P, K>, t: Tree<P, K>, d: Dir, root: P, nil: P)
    returns (x: P, y: P, b: P, up: P)
    requires t.Node? && Child(t, d.Opp()).Node? && At(m, p, t, root, nil)
    ensures x == t.item.id && y == Child(t, d.Opp()).item.id && b == Ptr(Child(Child(t, d.Opp()), d), nil)
    ensures up == Above(p, nil) && (p.Top? <==> up == nil)
    ensures x in m && y in m && x != y && nil !in m
    ensures y == (if d.L? then m[x].right else m[x].left) && up == m[x].parent
    ensures b == (if d.L? then m[y].left else m[y].right)
    ensures b != nil ==> b in m && b != x && b != y && b != up
    ensures up != nil ==> up in m && up != x && up != y && (m[up].left == x <==> p.d.L?)
  {
    x, y, b, up := t.item.id, Child(t, d.Opp()).item.id, Ptr(Child(Child(t, d.Opp()), d), nil), Above(p, nil);
    Open(m, t, d, up, nil);
    Open(m, Child(t, d.Opp()), d, x, nil);
  }

  /** The four cells a rotation rewrites, and nothing else, turn the tree in focus. */
  lemma RotateAt<P, K>(m: map<P, Cell<P, K>>, m': map<P, Cell<P, K>>, p: Path<P, K>, t: Tree<P, K>, d: Dir,
                       x: P, y: P, b: P, up: P, root: P, root': P, nil: P)
    requires t.Node? && Child(t, d.Opp()).Node? && At(m, p, t, root, nil)
    requires x == t.item.id && y == Child(t, d.Opp()).item.id && b == Ptr(Child(Child(t, d.Opp()), d), nil)
    requires up == Above(p, nil)
    requires m'.Keys == m.Keys
    requires m'[x] == WithParent(WithKid(m[x], d.Opp(), b), y)
    requires m'[y] == WithParent(WithKid(m[y], d, x), up)
    requires b != nil ==> b in m && m'[b] == WithParent(m[b], x)
    requires up != nil ==> m'[up] == WithKid(m[up], p.d, y)
    requires forall i :: i in m && i != x && i != y && i != b && i != up ==> m'[i] == m[i]
    requires root' == if p.Top? then y else root
    ensures At(m', p, Rotated(t, d), root', nil)
  {
    var yt := Child(t, d.Opp());
    Open(m, t, d, up, nil);
    Open(m, yt, d, x, nil);
    RotateRep(m, m', t, d, up, nil);
    MoveHole(m, m', p, x, y, root, root', nil);
    RotatedKeeps(t, d);
  }

  // ---------- attaching a node ----------

  lemma AttachAt<P, K>(m: map<P, Cell<P, K>>, m': map<P, Cell<P, K>>, p: Path<P, K>, it: Item<P, K>,
                       root: P, root': P, nil: P)
    requires At(m, p, Leaf, root, nil) && it.id != nil && it.id !in m
    requires m'.Keys == m.Keys + {it.id}
    requires m'[it.id] == Cell(nil, nil, Above(p, nil), Red, it.key)
    requires p.Step? ==> m'[p.item.id] == WithKid(m[p.item.id], p.d, it.id)
    requires forall i :: i in m && i != Above(p, nil) ==> m'[i] == m[i]
    requires root' == if p.Top? then it.id else root
    ensures At(m', p, Node(Leaf, it, Red, Leaf), root', nil)
  {
    MoveHole(m, m', p, nil, it.id, root, root', nil);
  }

  // ---------- unlinking a node ----------

  /** Taking out a node with at most one child, `u`, and hanging that child in its place. */
  lemma BypassAt<P, K>(m: map<P, Cell<P, K>>, m': map<P, Cell<P, K>>, p: Path<P, K>, t: Tree<P, K>, d: Dir,
                       root: P, root': P, nil: P)
    requires At(m, p, t, root, nil) && t.Node? && Child(t, d.Opp()).Leaf?
    requires m'.Keys == m.Keys - {t.item.id}
    requires var u := Ptr(Child(t, d), nil); u != nil ==> u in m && m'[u] == WithParent(m[u], Above(p, nil))
    requires p.Step? ==> m'[p.item.id] == WithKid(m[p.item.id], p.d, Ptr(Child(t, d), nil))
    requires forall i :: i in m' && i != Above(p, nil) && i != Ptr(Child(t, d), nil) ==> m'[i] == m[i]
    requires root' == if p.Top? then Ptr(Child(t, d), nil) else root
    ensures At(m', p, Child(t, d), root', nil)
  {
    var u := Child(t, d);
    Open(m, t, d, Above(p, nil), nil);
    Move(m, m', u, t.item.id, Above(p, nil), nil);
    MoveHole(m, m', p, t.item.id, Ptr(u, nil), root, root', nil);
  }

  /** The nodes next to the focus, read off the heap. */
  lemma FocusReads<P, K>(m: map<P, Cell<P, K>>, p: Path<P, K>, t: Tree<P, K>, root: P, nil: P)
    requires At(m, p, t, root, nil) && t.Node?
    ensures var x, l, r, up := t.item.id, Ptr(t.left, nil), Ptr(t.right, nil), Above(p, nil);
            && x != nil && x in m && m[x] == Cell(l, r, up, t.color, t.item.key)
            && (l != nil ==> l in m && l != x && l != r && l != up)
            && (r != nil ==> r in m && r != x && r != up)
            && (up == nil <==> p.Top?)
            && (up != nil ==> up in m && up != x && (m[up].left == x <==> p.d.L?))
    ensures (t.left.Node? <==> Ptr(t.left, nil) != nil) && (t.right.Node? <==> Ptr(t.right, nil) != nil)
    ensures m.Keys == Ids(t) + PathIds(p) && nil !in m
  {
    Open(m, t, L, Above(p, nil), nil);
    if t.left.Node? { Open(m, t.left, L, t.item.id, nil); }
    if t.right.Node? { Open(m, t.right, L, t.item.id, nil); }
  }

  /** A node outside the tree takes over the links and colour of the node in focus. */
  lemma TakePlaceAt<P, K>(m: map<P, Cell<P, K>>, m': map<P, Cell<P, K>>, p: Path<P, K>, t: Tree<P, K>, it: Item<P, K>,
                          root: P, root': P, nil: P)
    requires At(m, p, t, root, nil) && t.Node? && it.id != nil && it.id !in m
    requires m'.Keys == m.Keys - {t.item.id} + {it.id}
    requires m'[it.id] == m[t.item.id].(key := it.key)
    requires t.left.Node? ==> m'[t.left.item.id] == WithParent(m[t.left.item.id], it.id)
    requires t.right.Node? ==> m'[t.right.item.id] == WithParent(m[t.right.item.id], it.id)
    requires p.Step? ==> m'[p.item.id] == WithKid(m[p.item.id], p.d, it.id)
    requires forall i :: i in m && i != t.item.id && i != Above(p, nil) && i != Ptr(t.left, nil) && i != Ptr(t.right, nil)
               ==> m'[i] == m[i]
    requires root' == if p.Top? then it.id else root
    ensures At(m', p, t.(item := it), root', nil)
  {
    Open(m, t, L, Above(p, nil), nil);
    Move(m, m', t.left, t.item.id, it.id, nil);
    Move(m, m', t.right, t.item.id, it.id, nil);
    MoveHole(m, m', p, t.item.id, it.id, root, root', nil);
    Fold(m', L, t.left, it, t.color, t.right, Above(p, nil), nil);
  }

  // ---------- paths in two parts ----------

  function Join<P, K>(q: Path<P, K>, base: Path<P, K>): Path<P, K>
    decreases q
  {
    match q
    case Top => base
    case Step(up, d, it, c, sib) => Step(Join(up, base), d, it, c, sib)
  }

  lemma {:induction false} JoinAt<P, K>(m: map<P, Cell<P, K>>, q: Path<P, K>, base: Path<P, K>, t: Tree<P, K>, root: P, nil: P)
    ensures At(m, Join(q, base), t, root, nil) <==> At(m, base, Plug(q, t), root, nil)
    ensures Ids(Plug(q, t)) + PathIds(base) == Ids(t) + PathIds(Join(q, base))
    decreases q
  {
    match q
    case Top =>
    case Step(up, d, it, c, sib) =>
      UpDown(m, Join(up, base), d, it, c, sib, t, root, nil);
      JoinAt(m, up, base, Make(d, t, it, c, sib), root, nil);
  }

  lemma {:induction false} JoinPlug<P, K>(q: Path<P, K>, base: Path<P, K>, t: Tree<P, K>)
    ensures Plug(Join(q, base), t) == Plug(base, Plug(q, t))
    decreases q
  {
    match q
    case Top =>
    case Step(up, d, it, c, sib) =>
      JoinPlug(up, base, Make(d, t, it, c, sib));
  }
}
