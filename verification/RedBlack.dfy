/** Red-black balance, stated on tree values, and what every rebalancing step of an insertion or a
    removal does to it.  `d` says which mirror image of the code is running. */
module RedBlack {
  import opened Trees

  predicate IsBlack<P, K>(t: Tree<P, K>) {
    t.Leaf? || t.color.Black?
  }

  /** Every way down passes `h` black nodes, and no red node has a red child. */
  ghost predicate Bal<P, K>(t: Tree<P, K>, h: nat) {
    match t
    case Leaf => h == 0
    case Node(l, _, Red, r) => IsBlack(l) && IsBlack(r) && Bal(l, h) && Bal(r, h)
    case Node(l, _, Black, r) => h > 0 && Bal(l, h - 1) && Bal(r, h - 1)
  }

  /** One level of `Bal`, for whichever child is asked for. */
  lemma BalKids<P, K>(t: Tree<P, K>, h: nat, d: Dir)
    requires t.Node? && Bal(t, h)
    ensures t.color.Red? ==> IsBlack(Child(t, d)) && Bal(Child(t, d), h)
    ensures t.color.Black? ==> h > 0 && Bal(Child(t, d), h - 1)
    ensures h > 0 && IsBlack(t) ==> t.color.Black?
  {
  }

  ghost predicate RedBlackTree<P, K>(t: Tree<P, K>) {
    IsBlack(t) && exists h: nat :: Bal(t, h)
  }

  function ColorAbove<P, K>(p: Path<P, K>): Color {
    if p.Top? then Black else p.color
  }

  /** Plugging a tree of black height `h` and a suitable top colour gives a red-black tree. */
  ghost predicate BalPath<P, K>(p: Path<P, K>, h: nat) {
    match p
    case Top => true
    case Step(up, _, _, c, sib) =>
      && Bal(sib, h)
      && (c.Red? ==> IsBlack(sib) && ColorAbove(up).Black?)
      && (up.Top? ==> c.Black?)
      && BalPath(up, if c.Red? then h else h + 1)
  }

  lemma {:induction false} PlugBal<P, K>(p: Path<P, K>, t: Tree<P, K>, h: nat)
    requires Bal(t, h) && BalPath(p, h)
    requires IsBlack(t) || (p.Step? && ColorAbove(p).Black?)
    ensures RedBlackTree(Plug(p, t))
    decreases p
  {
    match p
    case Top =>
    case Step(up, d, it, c, sib) =>
      PlugBal(up, Make(d, t, it, c, sib), if c.Red? then h else h + 1);
  }

  /** Walking down a red-black tree gives paths and subtrees that fit together. */
  lemma {:induction false} PlugBalInv<P, K>(p: Path<P, K>, t: Tree<P, K>) returns (h: nat)
    requires RedBlackTree(Plug(p, t))
    ensures Bal(t, h) && BalPath(p, h)
    ensures IsBlack(t) || (p.Step? && ColorAbove(p).Black?)
    decreases p
  {
    match p
    case Top => h :| Bal(t, h);
    case Step(up, d, it, c, sib) =>
      var k := PlugBalInv(up, Make(d, t, it, c, sib));
      h := if c.Red? then k else k - 1;
  }

  // ---------- height ----------

  function Max(a: nat, b: nat): nat { if a < b then b else a }

  function Height<P, K>(t: Tree<P, K>): nat {
    match t case Leaf => 0 case Node(l, _, _, r) => 1 + Max(Height(l), Height(r))
  }

  function Size<P, K>(t: Tree<P, K>): nat {
    match t case Leaf => 0 case Node(l, _, _, r) => 1 + Size(l) + Size(r)
  }

  function Pow2(n: nat): (r: nat)
    ensures r > 0
  {
    if n == 0 then 1 else 2 * Pow2(n - 1)
  }

  lemma {:induction false} BalHeight<P, K>(t: Tree<P, K>, h: nat)
    requires Bal(t, h)
    ensures Pow2(h) <= Size(t) + 1
    ensures Height(t) <= 2 * h + (if IsBlack(t) then 0 else 1)
  {
    match t
    case Leaf =>
    case Node(l, _, c, r) =>
      var k := if c.Red? then h else h - 1;
      BalHeight(l, k);
      BalHeight(r, k);
  }

  lemma Pow2Mono(a: nat, b: nat)
    requires a <= b
    ensures Pow2(a) <= Pow2(b)
    decreases b
  {
    if a < b { Pow2Mono(a, b - 1); }
  }

  lemma {:induction false} Pow2Add(a: nat, b: nat)
    ensures Pow2(a + b) == Pow2(a) * Pow2(b)
  {
    if a > 0 {
      Pow2Add(a - 1, b);
      assert Pow2(a + b) == 2 * Pow2(a - 1 + b);
    }
  }

  /** A red-black tree of n nodes has height at most 2 * log2(n + 1). */
  lemma HeightBound<P, K>(t: Tree<P, K>)
    requires RedBlackTree(t)
    ensures Pow2(Height(t)) <= (Size(t) + 1) * (Size(t) + 1)
  {
    var h: nat :| Bal(t, h);
    BalHeight(t, h);
    Pow2Mono(Height(t), h + h);
    Pow2Add(h, h);
    MulMono(Pow2(h), Size(t) + 1);
  }

  lemma {:induction false} SizeIsItems<P, K>(t: Tree<P, K>)
    ensures Size(t) == |Items(t)|
  {
    if t.Node? {
      SizeIsItems(t.left);
      SizeIsItems(t.right);
    }
  }

  /** How many nodes a search looks at: those on the way from the top to the key, or to where it would be. */
  function Rounds<P, K>(t: Tree<P, K>, k: K, lt: (K, K) -> bool): nat {
    match t
    case Leaf => 0
    case Node(l, it, _, r) => 1 + if lt(k, it.key) then Rounds(l, k, lt) else if lt(it.key, k) then Rounds(r, k, lt) else 0
  }

  lemma {:induction false} RoundsBound<P, K>(t: Tree<P, K>, k: K, lt: (K, K) -> bool)
    ensures Rounds(t, k, lt) <= Height(t)
  {
    if t.Node? {
      RoundsBound(t.left, k, lt);
      RoundsBound(t.right, k, lt);
    }
  }

  /** A search of a red-black tree looks at no more than 2 * log2(n + 1) nodes. */
  lemma SearchBound<P, K>(t: Tree<P, K>, k: K, lt: (K, K) -> bool)
    requires RedBlackTree(t)
    ensures Pow2(Rounds(t, k, lt)) <= (|Items(t)| + 1) * (|Items(t)| + 1)
  {
    RoundsBound(t, k, lt);
    StepsBound(t, Rounds(t, k, lt));
  }

  /** A search that goes down at most one level in each round takes at most 2 * log2(n + 1) of them. */
  lemma StepsBound<P, K>(t: Tree<P, K>, steps: nat)
    requires RedBlackTree(t) && steps <= Height(t)
    ensures Pow2(steps) <= (|Items(t)| + 1) * (|Items(t)| + 1)
  {
    HeightBound(t);
    SizeIsItems(t);
    Pow2Mono(steps, Height(t));
  }

  lemma MulMono(a: nat, b: nat)
    requires a <= b
    ensures a * a <= b * b
  {
    assert a * a <= a * b <= b * b;
  }

  // ---------- insertion ----------

  /** What an insertion carries up: a red top whose parent may be red as well. */
  ghost predicate Rising<P, K>(z: Spot<P, K>, h: nat) {
    && z.tree.Node? && z.tree.color.Red? && Bal(z.tree, h) && BalPath(z.path, h)
  }

  /** The case an insertion has to repair: the parent is red, so there is a grandparent. */
  predicate HasGrandparent<P, K>(z: Spot<P, K>) {
    z.tree.Node? && z.path.Step? && z.path.up.Step?
  }

  lemma RedHasParent<P, K>(z: Spot<P, K>, h: nat)
    requires Rising(z, h) && z.path.Step? && z.path.color.Red?
    ensures HasGrandparent(z) && z.path.up.color.Black? && IsBlack(z.path.sib)
    ensures Bal(z.path.sib, h) && Bal(z.path.up.sib, h) && BalPath(z.path.up.up, h + 1)
  {
    assert BalPath(z.path.up, h);
  }

  function UncleRecolored<P, K>(z: Spot<P, K>): Spot<P, K>
    requires HasGrandparent(z)
  {
    var p, g := z.path, z.path.up;
    Spot(g.up, Make(g.d, Make(p.d, z.tree, p.item, Black, p.sib), g.item, Red, Paint(g.sib, Black)))
  }

  function InnerTurned<P, K>(z: Spot<P, K>): Spot<P, K>
    requires HasGrandparent(z) && z.path.d == z.path.up.d.Opp()
  {
    var p, g, t := z.path, z.path.up, z.tree;
    Spot(Step(g, g.d, t.item, t.color, Child(t, p.d)), Make(g.d, p.sib, p.item, p.color, Child(t, g.d)))
  }

  function OuterTurned<P, K>(z: Spot<P, K>): Spot<P, K>
    requires HasGrandparent(z) && z.path.d == z.path.up.d
  {
    var p, g := z.path, z.path.up;
    Spot(Step(g.up, p.d, p.item, Black, Make(p.d.Opp(), g.sib, g.item, Red, p.sib)), z.tree)
  }

  /** Red uncle: three colours change and the trouble moves two levels up. */
  lemma InsertRecolor<P, K>(z: Spot<P, K>, h: nat)
    requires Rising(z, h) && z.path.Step? && z.path.color.Red? && HasGrandparent(z) && !IsBlack(z.path.up.sib)
    ensures Rising(UncleRecolored(z), h + 1)
  {
    RedHasParent(z, h);
    BalKids(z.path.up.sib, h, L);
    BalKids(z.path.up.sib, h, R);
    assert Bal(Paint(z.path.up.sib, Black), h + 1);
    assert Bal(Make(z.path.d, z.tree, z.path.item, Black, z.path.sib), h + 1);
  }

  lemma UncleRecoloredSame<P, K>(z: Spot<P, K>)
    requires HasGrandparent(z)
    ensures UncleRecolored(z).Same(z)
  {
    UpSame(z);
    UpSame(z.Up());
    PaintKeeps(z.path.up.sib, Black);
    LocalSame(z.path.up.up, z.Up().Up().tree, UncleRecolored(z).tree);
  }

  /** Black uncle, inner grandchild: one rotation turns it into an outer grandchild. */
  lemma InsertInner<P, K>(z: Spot<P, K>, h: nat)
    requires Rising(z, h) && z.path.Step? && z.path.color.Red? && HasGrandparent(z) && z.path.d == z.path.up.d.Opp()
    ensures var y := InnerTurned(z); Rising(y, h) && y.path.color.Red? && y.path.d == y.path.up.d
  {
    RedHasParent(z, h);
    BalKids(z.tree, h, L);
    BalKids(z.tree, h, R);
  }

  lemma InnerTurnedSame<P, K>(z: Spot<P, K>)
    requires HasGrandparent(z) && z.path.d == z.path.up.d.Opp()
    ensures InnerTurned(z).Same(z)
  {
    UpSame(z);
    UpSame(InnerTurned(z));
    assert InnerTurned(z).Up().tree == Rotated(z.Up().tree, z.path.up.d);
    RotatedKeeps(z.Up().tree, z.path.up.d);
    LocalSame(z.path.up, z.Up().tree, InnerTurned(z).Up().tree);
  }

  /** Black uncle, outer grandchild: recolour, rotate the grandparent, done. */
  lemma InsertOuter<P, K>(z: Spot<P, K>, h: nat)
    requires Rising(z, h) && z.path.Step? && z.path.color.Red? && HasGrandparent(z) && z.path.d == z.path.up.d
    requires IsBlack(z.path.up.sib)
    ensures var y := OuterTurned(z); Rising(y, h) && ColorAbove(y.path).Black?
  {
    RedHasParent(z, h);
    assert Bal(Make(z.path.d.Opp(), z.path.up.sib, z.path.up.item, Red, z.path.sib), h);
  }

  lemma OuterTurnedSame<P, K>(z: Spot<P, K>)
    requires HasGrandparent(z) && z.path.d == z.path.up.d
    ensures OuterTurned(z).Same(z)
  {
    UpSame(z);
    UpSame(z.Up());
    var g := z.Up().Up().tree;
    RotatedKeeps(g, z.path.d.Opp());
    UpSame(OuterTurned(z));
    LocalSame(z.path.up.up, g, OuterTurned(z).Up().tree);
  }

  /** No red parent left: blackening the root gives a red-black tree. */
  lemma InsertEnds<P, K>(z: Spot<P, K>, h: nat)
    requires Rising(z, h) && ColorAbove(z.path).Black?
    ensures RedBlackTree(Paint(z.Whole(), Black))
  {
    if z.path.Top? {
      assert Bal(Paint(z.tree, Black), h + 1);
    } else {
      PlugBal(z.path, z.tree, h);
    }
  }

  // ---------- removal ----------

  /** What a removal carries up: a subtree one black node short, repaired at once if its top is red. */
  ghost predicate Short<P, K>(z: Spot<P, K>, h: nat) {
    && BalPath(z.path, h + 1)
    && if IsBlack(z.tree) then Bal(z.tree, h) else Bal(Paint(z.tree, Black), h + 1)
  }

  /** The place of a short subtree that is not yet repaired, with its sibling's colour. */
  predicate ShortBeside<P, K>(z: Spot<P, K>, c: Color) {
    IsBlack(z.tree) && z.path.Step? && z.path.sib.Node? && z.path.sib.color == c
  }

  function Near<P, K>(z: Spot<P, K>): Tree<P, K>
    requires z.path.Step? && z.path.sib.Node?
  {
    Child(z.path.sib, z.path.d)
  }

  function Far<P, K>(z: Spot<P, K>): Tree<P, K>
    requires z.path.Step? && z.path.sib.Node?
  {
    Child(z.path.sib, z.path.d.Opp())
  }

  /** The sibling of a short subtree is a real node, however empty the subtree is. */
  lemma ShortHasSibling<P, K>(z: Spot<P, K>, h: nat)
    requires Short(z, h) && IsBlack(z.tree) && z.path.Step?
    ensures z.path.sib.Node?
    ensures z.path.sib.color.Red? ==> z.path.color.Black? && z.path.sib.left.Node? && z.path.sib.right.Node?
  {
    if z.path.sib.Node? && z.path.sib.color.Red? {
      BalKids(z.path.sib, h + 1, L);
      BalKids(z.path.sib, h + 1, R);
    }
  }

  function SiblingTurned<P, K>(z: Spot<P, K>): Spot<P, K>
    requires z.path.Step? && z.path.sib.Node?
  {
    var p := z.path;
    Spot(Step(Step(p.up, p.d, p.sib.item, Black, Far(z)), p.d, p.item, Red, Near(z)), z.tree)
  }

  function SiblingReddened<P, K>(z: Spot<P, K>): Spot<P, K>
    requires z.path.Step?
  {
    Spot(z.path.up, Make(z.path.d, z.tree, z.path.item, z.path.color, Paint(z.path.sib, Red)))
  }

  function NearTurned<P, K>(z: Spot<P, K>): Spot<P, K>
    requires z.path.Step? && z.path.sib.Node? && Near(z).Node?
  {
    var d, near := z.path.d, Near(z);
    var low := Make(d, Child(near, d.Opp()), z.path.sib.item, Red, Far(z));
    Spot(z.path.(sib := Make(d, Child(near, d), near.item, Black, low)), z.tree)
  }

  function FarTurned<P, K>(z: Spot<P, K>): Spot<P, K>
    requires z.path.Step? && z.path.sib.Node?
  {
    var p := z.path;
    Spot(p.up, Make(p.d, Make(p.d, z.tree, p.item, Black, Near(z)), p.sib.item, p.color, Paint(Far(z), Black)))
  }

  /** Red sibling: recolour, rotate the parent, and look at a black sibling. */
  lemma RemoveRedSibling<P, K>(z: Spot<P, K>, h: nat)
    requires Short(z, h) && ShortBeside(z, Red)
    ensures Short(SiblingTurned(z), h) && ShortBeside(SiblingTurned(z), Black)
  {
    ShortHasSibling(z, h);
    BalKids(z.path.sib, h + 1, L);
    BalKids(z.path.sib, h + 1, R);
  }

  lemma SiblingTurnedSame<P, K>(z: Spot<P, K>)
    requires z.path.Step? && z.path.sib.Node?
    ensures SiblingTurned(z).Same(z)
  {
    UpSame(z);
    UpSame(SiblingTurned(z));
    UpSame(SiblingTurned(z).Up());
    RotatedKeeps(z.Up().tree, z.path.d);
    LocalSame(z.path.up, z.Up().tree, SiblingTurned(z).Up().Up().tree);
  }

  /** Black sibling with black children: the sibling turns red and the shortage moves up. */
  lemma RemoveBlackNephews<P, K>(z: Spot<P, K>, h: nat) returns (h': nat)
    requires Short(z, h) && ShortBeside(z, Black) && IsBlack(Near(z)) && IsBlack(Far(z))
    ensures Short(SiblingReddened(z), h')
    ensures IsBlack(SiblingReddened(z).tree) <==> z.path.color.Black?
  {
    BalKids(z.path.sib, h + 1, L);
    BalKids(z.path.sib, h + 1, R);
    h' := if z.path.color.Red? then h else h + 1;
  }

  lemma SiblingReddenedSame<P, K>(z: Spot<P, K>)
    requires z.path.Step?
    ensures SiblingReddened(z).Same(z)
  {
    UpSame(z);
    PaintKeeps(z.path.sib, Red);
    LocalSame(z.path.up, z.Up().tree, SiblingReddened(z).tree);
  }

  /** Black sibling, only its near child red: recolour and rotate the sibling. */
  lemma RemoveNearNephew<P, K>(z: Spot<P, K>, h: nat)
    requires Short(z, h) && ShortBeside(z, Black) && !IsBlack(Near(z)) && IsBlack(Far(z))
    ensures Short(NearTurned(z), h) && ShortBeside(NearTurned(z), Black) && !IsBlack(Far(NearTurned(z)))
  {
    BalKids(z.path.sib, h + 1, z.path.d);
    BalKids(z.path.sib, h + 1, z.path.d.Opp());
    BalKids(Near(z), h, L);
    BalKids(Near(z), h, R);
  }

  lemma NearTurnedSame<P, K>(z: Spot<P, K>)
    requires z.path.Step? && z.path.sib.Node? && Near(z).Node?
    ensures NearTurned(z).Same(z)
  {
    UpSame(z);
    UpSame(NearTurned(z));
    RotatedKeeps(z.path.sib, z.path.d.Opp());
    var d, p, near := z.path.d, z.path, Near(z);
    MakeSame(d, Child(near, d.Opp()), p.sib.item, p.sib.color, Far(z), Red, Child(near, d.Opp()), Far(z));
    MakeSame(d, Child(near, d), near.item, near.color, Make(d, Child(near, d.Opp()), p.sib.item, p.sib.color, Far(z)),
             Black, Child(near, d), Make(d, Child(near, d.Opp()), p.sib.item, Red, Far(z)));
    MakeSame(d, z.tree, p.item, p.color, p.sib, p.color, z.tree, NearTurned(z).path.sib);
    LocalSame(z.path.up, z.Up().tree, NearTurned(z).Up().tree);
  }

  /** Black sibling, its far child red: recolour, rotate the parent, done. */
  lemma RemoveFarNephew<P, K>(z: Spot<P, K>, h: nat)
    requires Short(z, h) && ShortBeside(z, Black) && !IsBlack(Far(z))
    ensures RedBlackTree(FarTurned(z).Whole())
  {
    var p, far := z.path, Far(z);
    BalKids(p.sib, h + 1, p.d);
    BalKids(p.sib, h + 1, p.d.Opp());
    BalKids(far, h, L);
    BalKids(far, h, R);
    var low := Make(p.d, z.tree, p.item, Black, Near(z));
    assert Bal(Paint(far, Black), h + 1) && Bal(low, h + 1);
    PlugBal(p.up, FarTurned(z).tree, if p.color.Red? then h + 1 else h + 2);
  }

  lemma MakeSame<P, K>(d: Dir, a: Tree<P, K>, it: Item<P, K>, c: Color, b: Tree<P, K>, c': Color, a': Tree<P, K>, b': Tree<P, K>)
    requires Items(a) == Items(a') && Ids(a) == Ids(a') && Items(b) == Items(b') && Ids(b) == Ids(b')
    ensures Items(Make(d, a, it, c, b)) == Items(Make(d, a', it, c', b'))
    ensures Ids(Make(d, a, it, c, b)) == Ids(Make(d, a', it, c', b'))
  {
  }

  lemma FarTurnedSame<P, K>(z: Spot<P, K>)
    requires z.path.Step? && z.path.sib.Node?
    ensures FarTurned(z).Same(z)
  {
    UpSame(z);
    PaintKeeps(Far(z), Black);
    RotatedKeeps(z.Up().tree, z.path.d);
    var d, p := z.path.d, z.path;
    MakeSame(d, z.tree, p.item, p.color, Near(z), Black, z.tree, Near(z));
    MakeSame(d, Make(d, z.tree, p.item, p.color, Near(z)), p.sib.item, p.sib.color, Far(z),
             p.color, Make(d, z.tree, p.item, Black, Near(z)), Paint(Far(z), Black));
    LocalSame(z.path.up, z.Up().tree, FarTurned(z).tree);
  }

  /** A short subtree with a red top, or at the root, is repaired by blackening its top. */
  lemma ShortEnds<P, K>(z: Spot<P, K>, h: nat)
    requires Short(z, h) && (!IsBlack(z.tree) || z.path.Top?)
    ensures RedBlackTree(Plug(z.path, Paint(z.tree, Black)))
  {
    PlugBal(z.path, Paint(z.tree, Black), if IsBlack(z.tree) then h else h + 1);
  }

  /** A finished tree counts as a short one at the root, so that the loop has one way out. */
  lemma FinishedIsShort<P, K>(t: Tree<P, K>) returns (h: nat)
    requires RedBlackTree(t)
    ensures Short(Spot(Top, t), h)
  {
    h :| Bal(t, h);
  }

  /** Taking out a node with at most one child: a red one leaves no shortage, a black one leaves one. */
  lemma BypassBalance<P, K>(p: Path<P, K>, t: Tree<P, K>, d: Dir, h: nat)
    requires t.Node? && Child(t, d.Opp()).Leaf? && Bal(t, h) && BalPath(p, h)
    ensures t.color.Red? ==> IsBlack(Child(t, d)) && Bal(Child(t, d), h)
    ensures t.color.Black? ==> h > 0 && Short(Spot(p, Child(t, d)), h - 1)
  {
    BalKids(t, h, d);
    BalKids(t, h, d.Opp());
    if t.color.Black? && !IsBlack(Child(t, d)) {
      BalKids(Child(t, d), h - 1, L);
      BalKids(Child(t, d), h - 1, R);
    }
  }

  /** Balance does not depend on which node sits where. */
  lemma {:induction false} BalPathAnyItem<P, K>(q: Path<P, K>, up: Path<P, K>, d: Dir, it: Item<P, K>, it': Item<P, K>,
                                                c: Color, sib: Tree<P, K>, h: nat)
    requires BalPath(Join(q, Step(up, d, it, c, sib)), h)
    ensures BalPath(Join(q, Step(up, d, it', c, sib)), h)
    ensures ColorAbove(Join(q, Step(up, d, it', c, sib))) == ColorAbove(Join(q, Step(up, d, it, c, sib)))
    ensures Join(q, Step(up, d, it', c, sib)).Step?
    decreases q
  {
    if q.Step? {
      BalPathAnyItem(q.up, up, d, it, it', c, sib, if q.color.Red? then h else h + 1);
    }
  }
}
