/** Whole runs of the sleep tree: coroutines are born, put to sleep and expired in any order. */
module SleepRuns {
  import opened Trees
  import opened LinkedTrees
  import opened NtyTree
  import opened RedBlack
  import opened SearchOrder
  import opened DeadlineQueue

  /** One call: a new coroutine, sched_sleepdown of the `who`-th one, or expired. */
  datatype Step = Born | Sleeps(who: nat, msecs: nat, now: int) | Expires(now: int)

  /** The deadline of each coroutine that sleeps, by the order of birth. */
  type Deadlines = map<nat, int>

  // ---------- what a run should do ----------

  /** What one call does to the sleepers: it touches its own coroutine, or the one that is due first. */
  ghost predicate Moves(a: Deadlines, b: Deadlines, s: Step) {
    match s
    case Born => b == a
    case Sleeps(w, msecs, now) =>
      var rest := a - {w};
      if msecs == 0 then b == rest
      else w in b && LeastFree(rest.Values, now + msecs * 1000, b[w]) && b[w] <= now + msecs * 1000 + |rest| && b == rest[w := b[w]]
    case Expires(now) =>
      if exists w :: w in a && a[w] <= now
      then exists w :: w in a && a[w] <= now && (forall v :: v in a && v != w ==> a[w] < a[v]) && b == a - {w}
      else b == a
  }

  /** Time 0 at the very microsecond of somebody else's deadline: the next lookup could take the wrong coroutine. */
  ghost predicate Unsafe(a: Deadlines, s: Step) {
    s.Sleeps? && s.msecs == 0 && s.now in (a - {s.who}).Values
  }

  /** Only coroutines that were born go to sleep, the clock does not go back, and no call is unsafe. */
  ghost predicate Playable(steps: seq<Step>, born: nat, clock: int, a: Deadlines)
    decreases |steps|
  {
    steps == [] ||
    (&& (steps[0].Sleeps? ==> steps[0].who < born) && clock <= Clock(steps[0], clock) && !Unsafe(a, steps[0])
     && forall b :: Moves(a, b, steps[0]) ==>
          Playable(steps[1..], if steps[0].Born? then born + 1 else born, Clock(steps[0], clock), b))
  }

  function Clock(s: Step, clock: int): int { if s.Born? then clock else s.now }

  // ---------- the tree and the sleepers ----------

  ghost function All(cos: seq<Node<int>>): set<Node?<int>> {
    set c: Node?<int> | c in cos
  }

  ghost predicate Distinct(cos: seq<Node<int>>) {
    forall i, j :: 0 <= i < j < |cos| ==> cos[i] != cos[j]
  }

  /** The nodes are the coroutines that sleep, each with its deadline. */
  ghost predicate Among(nodes: set<Node?<int>>, cos: seq<Node<int>>, keys: seq<int>, a: Deadlines)
    requires |keys| == |cos|
  {
    && Distinct(cos) && nodes <= All(cos)
    && (forall w :: w in a ==> w < |cos| && cos[w] in nodes && keys[w] == a[w])
    && (forall w :: 0 <= w < |cos| && cos[w] in nodes ==> w in a)
  }

  ghost function Keys(cos: seq<Node<int>>): (keys: seq<int>)
    reads cos
    ensures |keys| == |cos| && forall i :: 0 <= i < |cos| ==> keys[i] == cos[i].key
  {
    seq(|cos|, i requires 0 <= i < |cos| reads cos => cos[i].key)
  }

  ghost predicate Holding(head: Head<int>, cos: seq<Node<int>>, a: Deadlines)
    reads head, cos
  {
    Among(Ids(head.tree), cos, Keys(cos), a)
  }

  lemma Joins(nodes: set<Node?<int>>, cos: seq<Node<int>>, keys: seq<int>, a: Deadlines, w: nat, k: int)
    requires |keys| == |cos| && Among(nodes, cos, keys, a) && w < |cos|
    ensures Among(nodes + {cos[w]}, cos, keys[w := k], (a - {w})[w := k])
  {
    Others(cos, w);
  }

  lemma Leaves(nodes: set<Node?<int>>, cos: seq<Node<int>>, keys: seq<int>, a: Deadlines, w: nat, k: int)
    requires |keys| == |cos| && Among(nodes, cos, keys, a) && w < |cos|
    ensures Among(nodes - {cos[w]}, cos, keys[w := k], a - {w})
  {
    Others(cos, w);
  }

  lemma Others(cos: seq<Node<int>>, w: nat)
    requires Distinct(cos) && w < |cos|
    ensures cos[w] in All(cos) && forall v :: 0 <= v < |cos| && v != w ==> cos[v] != cos[w]
  {
  }

  lemma HoldingFacts(head: Head<int>, cos: seq<Node<int>>, a: Deadlines)
    requires Holding(head, cos, a)
    ensures Among(Ids(head.tree), cos, Keys(cos), a) && Distinct(cos)
    ensures forall i :: 0 <= i < |cos| ==> cos[i] in All(cos)
  {
  }

  /** The item is that of a coroutine with its key. */
  ghost predicate IsBorn(it: Item<Node?<int>, int>, cos: seq<Node<int>>, keys: seq<int>)
    requires |keys| == |cos|
  {
    exists v :: 0 <= v < |cos| && cos[v] == it.id && keys[v] == it.key
  }

  ghost predicate Listing(s: Entries, n: Node?<int>) {
    exists i :: 0 <= i < |s| && s[i].id == n
  }

  ghost predicate OnceEach(s: Entries) {
    forall i, j :: 0 <= i < j < |s| ==> s[i].id != s[j].id
  }

  /** The items are the nodes, each once, and each is a coroutine with its key. */
  ghost predicate Rows(s: Entries, nodes: set<Node?<int>>, cos: seq<Node<int>>, keys: seq<int>)
    requires |keys| == |cos|
  {
    && (forall i :: 0 <= i < |s| ==> s[i].id in nodes && IsBorn(s[i], cos, keys))
    && (forall n :: n in nodes ==> Listing(s, n))
    && OnceEach(s)
  }

  lemma NoneTwice(s: Entries, nodes: set<Node?<int>>)
    requires Ascending(s, LT) && Listed(s, nodes)
    ensures OnceEach(s)
  {
  }

  lemma ListedRows(s: Entries, nodes: set<Node?<int>>, cos: seq<Node<int>>)
    requires Listed(s, nodes) && nodes <= All(cos)
    ensures forall i :: 0 <= i < |s| ==> s[i].id in nodes && IsBorn(s[i], cos, Keys(cos))
    ensures forall n :: n in nodes ==> Listing(s, n)
  {
    forall i | 0 <= i < |s| ensures s[i].id in nodes && IsBorn(s[i], cos, Keys(cos)) {
      assert s[i].id in All(cos);
      var v :| 0 <= v < |cos| && cos[v] == s[i].id;
      assert Keys(cos)[v] == s[i].key;
    }
  }

  lemma RowsOf(head: Head<int>, cos: seq<Node<int>>, a: Deadlines)
    requires Valid(head) && Holding(head, cos, a)
    ensures Rows(Items(head.tree), Ids(head.tree), cos, Keys(cos))
  {
    assert Ids(head.tree) <= All(cos) && Ascending(Items(head.tree), LT);
    hide Ids, Items, Valid, HasKey, Listed, IsBorn, Listing, OnceEach, All, Among, Ascending;
    ItemsListed(head);
    ListedRows(Items(head.tree), Ids(head.tree), cos);
    NoneTwice(Items(head.tree), Ids(head.tree));
  }

  lemma RestIn(s: Entries, nodes: set<Node?<int>>, cos: seq<Node<int>>, keys: seq<int>, a: Deadlines, w: nat, x: Item<Node?<int>, int>)
    requires |keys| == |cos| && Rows(s, nodes, cos, keys) && Among(nodes, cos, keys, a) && w < |cos| && x in s && x.id != cos[w]
    ensures x.key in (a - {w}).Values
  {
    hide OnceEach, Listing, Distinct;
    assert IsBorn(x, cos, keys);
    var v :| 0 <= v < |cos| && cos[v] == x.id && keys[v] == x.key;
    assert v in a - {w} && (a - {w})[v] == x.key;
  }

  lemma RestHas(s: Entries, nodes: set<Node?<int>>, cos: seq<Node<int>>, keys: seq<int>, a: Deadlines, w: nat, v: nat)
    returns (x: Item<Node?<int>, int>)
    requires |keys| == |cos| && Rows(s, nodes, cos, keys) && Among(nodes, cos, keys, a) && w < |cos| && v in a && v != w
    ensures x in s && x.id != cos[w] && x.key == a[v]
  {
    hide OnceEach;
    assert Listing(s, cos[v]);
    var j :| 0 <= j < |s| && s[j].id == cos[v];
    x := s[j];
    assert IsBorn(x, cos, keys);
    var u :| 0 <= u < |cos| && cos[u] == x.id && keys[u] == x.key;
    Others(cos, v);
    Others(cos, w);
  }

  /** The deadlines of all but one sleeper, in the tree and by birth. */
  lemma RestDeadlines(s: Entries, nodes: set<Node?<int>>, cos: seq<Node<int>>, keys: seq<int>, a: Deadlines, w: nat, rest: Entries)
    requires |keys| == |cos| && Rows(s, nodes, cos, keys) && Among(nodes, cos, keys, a) && w < |cos| && Without(s, cos[w], rest)
    ensures DeadlineQueue.Deadlines(rest) == (a - {w}).Values
  {
    var d := a - {w};
    RestAt(s, cos[w], rest);
    hide Without, Rows, Among;
    forall k | k in DeadlineQueue.Deadlines(rest) ensures k in d.Values {
      var i :| 0 <= i < |rest| && rest[i].key == k;
      assert rest[i] in rest;
      RestIn(s, nodes, cos, keys, a, w, rest[i]);
    }
    forall k | k in d.Values ensures k in DeadlineQueue.Deadlines(rest) {
      var v :| v in d && d[v] == k;
      var x := RestHas(s, nodes, cos, keys, a, w, v);
      assert x in rest;
    }
  }

  /** The items but the one of `co`. */
  lemma RestAt(s: Entries, co: Node<int>, rest: Entries)
    requires Without(s, co, rest) && OnceEach(s)
    ensures forall x :: x in rest <==> x in s && x.id != co
  {
    if i :| 0 <= i < |s| && s[i].id == co && rest == Drop(s, i) {
      forall x ensures x in rest <==> x in s && x.id != co {
        if x in s && x.id != co {
          var j :| 0 <= j < |s| && s[j] == x;
          assert rest[if j < i then j else j - 1] == x;
        }
        if x in rest {
          var j :| 0 <= j < |rest| && rest[j] == x;
          assert x == s[if j < i then j else j + 1];
        }
      }
    }
  }

  lemma {:induction false} FewDeadlines(a: Deadlines)
    ensures |a.Values| <= |a|
    decreases |a|
  {
    if a != map[] {
      var w :| w in a;
      var b := a - {w};
      FewDeadlines(b);
      forall v | v in a.Values ensures v in b.Values + {a[w]} {
        var k :| k in a && a[k] == v;
        assert k != w ==> k in b && b[k] == v;
      }
      assert a.Keys == b.Keys + {w};
      assert |a.Values| <= |b.Values + {a[w]}| by { Larger(a.Values, b.Values + {a[w]}); }
    }
  }

  lemma Larger(a: set<int>, b: set<int>)
    requires a <= b
    ensures |a| <= |b|
  {
    assert b == a + (b - a);
  }

  /** What sched_sleepdown has done, told by birth. */
  lemma Settled(items: Entries, nodes: set<Node?<int>>, cos: seq<Node<int>>, keys: seq<int>, a: Deadlines, w: nat,
                rest: Entries, msecs: nat, now: int, late: nat, k: int) returns (b: Deadlines)
    requires |keys| == |cos| && Rows(items, nodes, cos, keys) && Among(nodes, cos, keys, a) && w < |cos|
    requires Without(items, cos[w], rest)
    requires msecs > 0 ==>
      LeastFree(DeadlineQueue.Deadlines(rest), now + msecs * 1000, k) && k == now + msecs * 1000 + late
      && late <= |DeadlineQueue.Deadlines(rest)|
    ensures Moves(a, b, Sleeps(w, msecs, now))
    ensures Among(if msecs > 0 then nodes + {cos[w]} else nodes - {cos[w]}, cos, keys[w := k], b)
    ensures msecs == 0 ==> (now in DeadlineQueue.Deadlines(rest) <==> Unsafe(a, Sleeps(w, msecs, now)))
    ensures msecs > 0 ==> !Unsafe(a, Sleeps(w, msecs, now))
  {
    hide Rows, Among, Without, LeastFree, DeadlineQueue.Deadlines;
    RestDeadlines(items, nodes, cos, keys, a, w, rest);
    if msecs > 0 {
      b := (a - {w})[w := k];
      SleepMoves(a, w, msecs, now, k, late);
      Joins(nodes, cos, keys, a, w, k);
    } else {
      b := a - {w};
      Leaves(nodes, cos, keys, a, w, k);
    }
  }

  lemma KeysChanged(cos: seq<Node<int>>, keys: seq<int>, w: nat)
    requires |keys| == |cos| && w < |cos| && forall v :: 0 <= v < |cos| && v != w ==> cos[v].key == keys[v]
    ensures Keys(cos) == keys[w := cos[w].key]
  {
  }

  method DoSleep(head: Head<int>, cos: seq<Node<int>>, w: nat, msecs: nat, now: int, ghost a: Deadlines, ghost clock: int)
    returns (ghost b: Deadlines)
    requires Sleeping(head, All(cos), clock) && Holding(head, cos, a) && w < |cos| && 0 <= clock <= now
    modifies head`root, head`tree, cos[w], Ids(head.tree)
    ensures Holding(head, cos, b) && Moves(a, b, Sleeps(w, msecs, now)) && Ids(head.tree) <= All(cos)
    ensures Sleeping(head, All(cos), now) <==> !Unsafe(a, Sleeps(w, msecs, now))
    ensures Valid(head) && (msecs == 0 ==> cos[w].key == now)
    ensures Ids(head.tree) == if msecs > 0 then old(Ids(head.tree)) + {cos[w]} else old(Ids(head.tree)) - {cos[w]}
  {
    hide Ids, Items, Valid, Insort, Without, LeastFree, Sleeping, DeadlineQueue.Deadlines, Among, Distinct, All, Rows, Moves, Unsafe;
    ValidIfSleeping(head, All(cos), clock);
    HoldingFacts(head, cos, a);
    Others(cos, w);
    RowsOf(head, cos, a);
    ghost var items, nodes, keys := Items(head.tree), Ids(head.tree), Keys(cos);
    ghost var rest, late := SchedSleepdown(head, cos[w], msecs, now, All(cos), clock);
    b := Settled(items, nodes, cos, keys, a, w, rest, msecs, now, late, cos[w].key);
    assert forall v :: 0 <= v < |cos| ==> cos[v] in All(cos);
    KeysChanged(cos, keys, w);
    if msecs > 0 { ValidIfSleeping(head, All(cos), now); }
  }

  /** After a sleep of time 0 the next sleep of the coroutine throws another one out exactly if that was at the
      other's deadline. */
  method SleepTwice(head: Head<int>, cos: seq<Node<int>>, w: nat, now: int, ghost a: Deadlines, ghost clock: int)
    returns (ghost b: Deadlines, ghost gone: Node?<int>)
    requires Sleeping(head, All(cos), clock) && Holding(head, cos, a) && w < |cos| && 0 <= clock <= now
    modifies head`root, head`tree, cos[w], Ids(head.tree)
    ensures Moves(a, b, Sleeps(w, 0, now))
    ensures gone != null <==> Unsafe(a, Sleeps(w, 0, now))
    ensures gone != null ==> exists v :: v in b && v != w && v < |cos| && gone == cos[v] && b[v] == now
    ensures Ids(head.tree) == old(Ids(head.tree)) - {cos[w], gone}
  {
    hide Sleeping, Ids, Items, Valid, All, Among, Distinct;
    b := DoSleep(head, cos, w, 0, now, a, clock);
    HoldingFacts(head, cos, b);
    NoNull(cos);
    WhoHasKey(head, cos, b, now);
    gone := ThrowOut(head, cos[w], All(cos));
  }

  lemma NoNull(cos: seq<Node<int>>)
    ensures null !in All(cos)
  {
  }

  lemma WhoHasKey(head: Head<int>, cos: seq<Node<int>>, b: Deadlines, k: int)
    requires Valid(head) && Holding(head, cos, b)
    ensures HasKey(Items(head.tree), k) <==> k in b.Values
    ensures forall n :: n in Ids(head.tree) && n != null && n.key == k ==> exists v :: v in b && v < |cos| && n == cos[v] && b[v] == k
  {
    hide Ids, Items, Valid;
    ItemsListed(head);
  }

  lemma SleepMoves(a: Deadlines, w: nat, msecs: nat, now: int, k: int, late: nat)
    requires msecs > 0 && LeastFree((a - {w}).Values, now + msecs * 1000, k)
    requires k == now + msecs * 1000 + late && late <= |(a - {w}).Values|
    ensures Moves(a, (a - {w})[w := k], Sleeps(w, msecs, now))
  {
    FewDeadlines(a - {w});
  }

  /** The first sleeper, by birth. */
  lemma FirstSleeper(head: Head<int>, cos: seq<Node<int>>, a: Deadlines) returns (w: nat)
    requires Valid(head) && Holding(head, cos, a) && Items(head.tree) != []
    ensures w in a && cos[w] == Items(head.tree)[0].id && a[w] == Items(head.tree)[0].key
    ensures forall v :: v in a && v != w ==> a[w] < a[v]
  {
    hide Ids, Items, Head.Holds, RedBlackTree, HasKey;
    ItemsListed(head);
    assert Ascending(Items(head.tree), LT);
    var s := Items(head.tree);
    w :| 0 <= w < |cos| && cos[w] == s[0].id;
    forall v | v in a && v != w ensures a[w] < a[v] {
      var j :| 0 <= j < |s| && s[j].id == cos[v];
      assert j > 0;
    }
  }

  method DoExpire(head: Head<int>, cos: seq<Node<int>>, now: int, ghost a: Deadlines, ghost clock: int)
    returns (r: Node?<int>, ghost b: Deadlines)
    requires Sleeping(head, All(cos), clock) && Holding(head, cos, a) && clock <= now
    modifies head`root, head`tree, Ids(head.tree)
    ensures Sleeping(head, All(cos), now) && Holding(head, cos, b) && Moves(a, b, Expires(now))
  {
    hide Ids, Items, Valid, Sleeping, Among, Distinct, All;
    ValidIfSleeping(head, All(cos), clock);
    HoldingFacts(head, cos, a);
    ghost var nodes, keys, w: nat := Ids(head.tree), Keys(cos), 0;
    if Items(head.tree) == [] {
      Nobody(head, cos, a);
    } else {
      w := FirstSleeper(head, cos, a);
    }
    ghost var first := Items(head.tree);
    r := Expired(head, now, All(cos), clock);
    assert Keys(cos) == keys;
    assert first == [] ==> r == null;
    assert r == null && first != [] ==> first[0].key > now;
    assert r != null ==> w in a && a[w] <= now;
    if r == null {
      assert Ids(head.tree) == nodes;
      b := a;
    } else {
      Leaves(nodes, cos, keys, a, w, keys[w]);
      b := a - {w};
      assert keys == keys[w := keys[w]];
    }
    assert Holding(head, cos, b);
  }

  lemma Nobody(head: Head<int>, cos: seq<Node<int>>, a: Deadlines)
    requires Valid(head) && Holding(head, cos, a) && Items(head.tree) == []
    ensures a == map[]
  {
    ItemsListed(head);
  }

  lemma OneMore(cos: seq<Node<int>>, co: Node<int>)
    ensures All(cos + [co]) == All(cos) + {co}
    ensures co !in cos ==> co !in All(cos) && (Distinct(cos) ==> Distinct(cos + [co]))
  {
    forall c: Node?<int> ensures c in All(cos + [co]) <==> c in All(cos) || c == co {
      assert c in All(cos + [co]) <==> c in cos + [co];
    }
  }

  method Bear(head: Head<int>, cos: seq<Node<int>>, ghost a: Deadlines, ghost clock: int) returns (cos': seq<Node<int>>)
    requires Sleeping(head, All(cos), clock) && Holding(head, cos, a) && clock >= 0
    ensures |cos'| == |cos| + 1 && cos'[..|cos|] == cos && fresh(cos'[|cos|])
    ensures Sleeping(head, All(cos'), clock) && Holding(head, cos', a)
  {
    hide Ids, Sleeping;
    ValidIfSleeping(head, All(cos), clock);
    var co := new Node<int>(0);
    assert Sleeping(head, All(cos), clock);
    assert Keys(cos) == old(Keys(cos));
    cos' := cos + [co];
    OneMore(cos, co);
    hide All;
    NewCoroutine(head, All(cos), clock, co);
    assert Keys(cos') == Keys(cos) + [0];
  }

  /** An empty tree, without coroutines. */
  method Start() returns (head: Head<int>)
    ensures fresh(head) && Sleeping(head, All([]), 0) && Holding(head, [], map[])
  {
    head := new Head<int>(null);
    assert Bal<Node?<int>, int>(Leaf, 0);
    assert Snap(Ids(head.tree) + PathIds<Node?<int>, int>(Top)).Keys == {};
  }

  /** One call. */
  method Play(head: Head<int>, cos: seq<Node<int>>, s: Step, ghost a: Deadlines, ghost clock: int)
    returns (cos': seq<Node<int>>, ghost b: Deadlines)
    requires Sleeping(head, All(cos), clock) && Holding(head, cos, a) && clock >= 0
    requires (s.Sleeps? ==> s.who < |cos|) && clock <= Clock(s, clock) && !Unsafe(a, s)
    modifies head, cos
    ensures Sleeping(head, All(cos'), Clock(s, clock)) && Holding(head, cos', b) && Moves(a, b, s)
    ensures cos <= cos' && |cos'| == (if s.Born? then |cos| + 1 else |cos|)
    ensures s.Born? ==> fresh(cos'[|cos|])
  {
    hide Sleeping, Ids;
    Within(head, cos);
    cos', b := cos, a;
    match s {
      case Born =>
        cos' := Bear(head, cos, a, clock);
        assert cos' == cos + [cos'[|cos|]];
      case Sleeps(w, msecs, now) =>
        b := DoSleep(head, cos, w, msecs, now, a, clock);
      case Expires(now) =>
        var r;
        r, b := DoExpire(head, cos, now, a, clock);
    }
  }

  /** Any run from an empty tree: every call does to the sleepers what it should, so nobody ever throws another
      out or is woken early. */
  method Run(steps: seq<Step>) returns (head: Head<int>, cos: seq<Node<int>>, ghost trace: seq<Deadlines>)
    requires Playable(steps, 0, 0, map[])
    ensures |trace| == |steps| + 1 && trace[0] == map[]
    ensures forall i :: 0 <= i < |steps| ==> Moves(trace[i], trace[i + 1], steps[i])
    ensures Valid(head) && Holding(head, cos, trace[|steps|])
  {
    hide Sleeping, Moves, Unsafe, Ids, Holding;
    head := Start();
    cos, trace := [], [map[]];
    ghost var clock := 0;
    for i := 0 to |steps|
      invariant |trace| == i + 1 && trace[0] == map[] && clock >= 0 && fresh(head) && forall j :: 0 <= j < |cos| ==> fresh(cos[j])
      invariant Sleeping(head, All(cos), clock) && Holding(head, cos, trace[i]) && Playable(steps[i..], |cos|, clock, trace[i])
      invariant forall j :: 0 <= j < i ==> Moves(trace[j], trace[j + 1], steps[j])
    {
      assert steps[i..][0] == steps[i] && steps[i..][1..] == steps[i + 1..];
      ghost var b;
      cos, b := Play(head, cos, steps[i], trace[i], clock);
      trace, clock := trace + [b], Clock(steps[i], clock);
    }
    assert Valid(head) by { ValidIfSleeping(head, All(cos), clock); }
  }

  lemma ValidIfSleeping(head: Head<int>, all: set<Node?<int>>, clock: int)
    requires Sleeping(head, all, clock)
    ensures Valid(head) && Ids(head.tree) <= all && null !in Ids(head.tree)
  {
  }

  lemma Within(head: Head<int>, cos: seq<Node<int>>)
    requires Ids(head.tree) <= All(cos)
    ensures forall n :: n in Ids(head.tree) ==> n != null && n in cos
  {
  }
}
