/** The sleeping coroutines of nty_schedule.c: a red-black tree ordered by deadline.  A node's key is the
    coroutine's sleep_usecs, which stays behind when the coroutine leaves the tree. */
module DeadlineQueue {
  import opened Trees
  import opened LinkedTrees
  import opened SearchOrder
  import opened NtyTree
  import opened RedBlack

  type Entries = seq<Item<Node?<int>, int>>

  ghost function Deadlines(s: Entries): set<int> {
    set i | 0 <= i < |s| :: s[i].key
  }

  /** `all` are the coroutines of the scheduler and `clock` is a time that has passed.  A coroutine outside
      the tree keeps a deadline that is over, and no sleeper has that deadline. */
  ghost predicate Sleeping(head: Head<int>, all: set<Node?<int>>, clock: int)
    reads head, all, Ids(head.tree)
  {
    && Valid(head) && Ids(head.tree) <= all && null !in all
    && (forall c :: c in all && c !in Ids(head.tree) ==> 0 <= c.key <= clock)
    && (forall c, n :: c in all && c !in Ids(head.tree) && n in Ids(head.tree) ==> n.key != c.key)
    && (forall n :: n in Ids(head.tree) ==> n.key > 0)
  }

  /** A new coroutine, whose deadline calloc has set to 0, can join. */
  lemma NewCoroutine(head: Head<int>, all: set<Node?<int>>, clock: int, co: Node<int>)
    requires Sleeping(head, all, clock) && co !in all && co.key == 0 && clock >= 0
    ensures Sleeping(head, all + {co}, clock)
  {
  }

  /** The nodes of the tree and its items are the same, by node or by key. */
  lemma EntryOf(head: Head<int>)
    requires Valid(head)
    ensures forall n :: n in Ids(head.tree) ==> n != null && HasKey(Items(head.tree), n.key)
    ensures forall i :: 0 <= i < |Items(head.tree)| ==>
      var n := Items(head.tree)[i].id; n != null && n in Ids(head.tree) && n.key == Items(head.tree)[i].key
  {
    head.Keys(head.tree);
    forall n | n in Ids(head.tree) ensures n != null && HasKey(Items(head.tree), n.key) {
      var i := IndexOf(head.tree, n);
    }
  }

  lemma {:induction false} IndexOf(t: Shape<int>, n: Node?<int>) returns (i: nat)
    requires n in Ids(t)
    ensures i < |Items(t)| && Items(t)[i].id == n
  {
    if n in Ids(t.left) {
      i := IndexOf(t.left, n);
    } else if n == t.item.id {
      i := |Items(t.left)|;
    } else {
      i := IndexOf(t.right, n);
      i := |Items(t.left)| + 1 + i;
    }
  }

  ghost predicate AllTaken(taken: set<int>, from: int, upto: int) {
    forall j :: from <= j < upto ==> j in taken
  }

  /** `k` is the least deadline from `from` on that nobody has. */
  ghost predicate LeastFree(taken: set<int>, from: int, k: int) {
    from <= k && k !in taken && AllTaken(taken, from, k)
  }

  /** A run of taken deadlines is no longer than the number of sleepers. */
  lemma {:induction false} TakenFits(taken: set<int>, from: int, upto: int)
    requires from <= upto && AllTaken(taken, from, upto)
    ensures upto - from <= |taken|
    decreases upto - from
  {
    if from < upto {
      assert from in taken;
      assert AllTaken(taken - {from}, from + 1, upto);
      TakenFits(taken - {from}, from + 1, upto);
    }
  }

  lemma SameDeadline(head: Head<int>, a: Node<int>, b: Node<int>)
    requires Valid(head) && a in Ids(head.tree) && b in Ids(head.tree) && a.key == b.key
    ensures a == b
  {
    EntryOf(head);
    var i := IndexOf(head.tree, a);
    var j := IndexOf(head.tree, b);
    assert i == j;
  }

  /** `rest` are the items `s` without the one of `co`, if it has one. */
  ghost predicate Without(s: Entries, co: Node<int>, rest: Entries) {
    if exists i :: 0 <= i < |s| && s[i].id == co
    then exists i :: 0 <= i < |s| && s[i].id == co && rest == Drop(s, i)
    else rest == s
  }

  /** The keys the items list are the keys in the nodes, so equal items mean equal keys. */
  ghost predicate Listed(s: Entries, nodes: set<Node?<int>>)
    reads nodes
  {
    && (forall i :: 0 <= i < |s| ==> s[i].id != null && s[i].id in nodes && s[i].id.key == s[i].key)
    && (forall n :: n in nodes ==> exists i :: 0 <= i < |s| && s[i].id == n)
  }

  lemma ItemsListed(head: Head<int>)
    requires Valid(head)
    ensures Listed(Items(head.tree), Ids(head.tree))
  {
    EntryOf(head);
    forall n | n in Ids(head.tree) ensures exists i :: 0 <= i < |Items(head.tree)| && Items(head.tree)[i].id == n {
      var i := IndexOf(head.tree, n);
    }
  }

  ghost function KeysOf(nodes: set<Node?<int>>): map<Node?<int>, int>
    reads nodes
  {
    map n | n in nodes && n != null :: n.key
  }

  /** The items are the nodes with their keys. */
  ghost predicate Keyed(s: Entries, nodes: set<Node?<int>>, keys: map<Node?<int>, int>) {
    && (forall i :: 0 <= i < |s| ==> s[i].id in keys && keys[s[i].id] == s[i].key)
    && (forall n :: n in nodes ==> exists i :: 0 <= i < |s| && s[i].id == n)
  }

  lemma ItemsKeyed(head: Head<int>)
    requires Valid(head)
    ensures Keyed(Items(head.tree), Ids(head.tree), KeysOf(Ids(head.tree)))
  {
    hide Items, Ids, Valid;
    ItemsListed(head);
  }

  /** Where an item is gone, the nodes that are left have the keys they had. */
  lemma DropKeeps(s: Entries, i: nat, nodes: set<Node?<int>>, keys: map<Node?<int>, int>, nodes': set<Node?<int>>, keys': map<Node?<int>, int>)
    requires i < |s| && Keyed(s, nodes, keys) && Keyed(Drop(s, i), nodes', keys')
    ensures forall n :: n in nodes' ==> n in keys && n in keys' && keys'[n] == keys[n]
  {
    var u := Drop(s, i);
    forall n | n in nodes' ensures n in keys && n in keys' && keys'[n] == keys[n] {
      var j :| 0 <= j < |u| && u[j].id == n;
      assert u[j] == s[if j < i then j else j + 1];
    }
  }

  lemma KeyAt(s: Entries, nodes: set<Node?<int>>, keys: map<Node?<int>, int>, r: Node<int>)
    requires Keyed(s, nodes, keys) && r in keys
    ensures forall i :: 0 <= i < |s| && s[i].id == r ==> s[i].key == keys[r]
  {
  }

  /** RB_REMOVE changes no deadline. */
  method TakeOut(head: Head<int>, r: Node<int>, ghost all: set<Node?<int>>) returns (ghost i: nat)
    requires Valid(head) && r in Ids(head.tree) && Ids(head.tree) <= all && null !in all
    modifies head`root, head`tree, Ids(head.tree)
    ensures Valid(head) && Ids(head.tree) == old(Ids(head.tree)) - {r}
    ensures i < |old(Items(head.tree))| && old(Items(head.tree))[i] == Entry(r, old(r.key))
    ensures Items(head.tree) == Drop(old(Items(head.tree)), i)
    ensures forall n :: n in all ==> n.key == old(n.key)
  {
    hide Items, Ids, Valid, Keyed, Drop;
    ItemsKeyed(head);
    ghost var s, nodes, keys := Items(head.tree), Ids(head.tree), KeysOf(Ids(head.tree));
    KeyAt(s, nodes, keys, r);
    i := Remove(head, r);
    ItemsKeyed(head);
    DropKeeps(s, i, nodes, keys, Ids(head.tree), KeysOf(Ids(head.tree)));
    assert s[i] == Entry(r, old(r.key));
    assert forall n :: n in Ids(head.tree) ==> n.key == keys[n];
    assert forall n :: n in Ids(head.tree) ==> n.key == old(n.key);
    assert r.key == old(r.key);
  }

  /** The start of nty_schedule_sched_sleepdown: whoever sits at the old deadline leaves the tree. */
  method ThrowOut(head: Head<int>, co: Node<int>, ghost all: set<Node?<int>>) returns (ghost gone: Node?<int>)
    requires Valid(head) && Ids(head.tree) <= all && null !in all && co in all
    modifies head`root, head`tree, Ids(head.tree)
    ensures Valid(head) && (gone != null <==> HasKey(old(Items(head.tree)), old(co.key)))
    ensures gone == null ==> Items(head.tree) == old(Items(head.tree)) && Ids(head.tree) == old(Ids(head.tree))
    ensures gone != null ==>
      gone in old(Ids(head.tree)) && old(gone.key) == old(co.key) && Ids(head.tree) == old(Ids(head.tree)) - {gone}
    ensures gone != null ==> Without(old(Items(head.tree)), gone, Items(head.tree))
    ensures forall n :: n in all ==> n.key == old(n.key)
  {
    hide Items, Ids, Valid, Drop, HasKey;
    var tmp, steps := Find(head, co.key);
    gone := tmp;
    if tmp != null {
      ghost var s := Items(head.tree);
      ghost var i := TakeOut(head, tmp, all);
      assert s[i].id == tmp;
    }
  }

  /** In a scheduler in order that is never another coroutine. */
  method Forget(head: Head<int>, co: Node<int>, ghost all: set<Node?<int>>, ghost clock: int)
    requires Sleeping(head, all, clock) && co in all
    modifies head`root, head`tree, Ids(head.tree)
    ensures Valid(head) && Ids(head.tree) == old(Ids(head.tree)) - {co}
    ensures Without(old(Items(head.tree)), co, Items(head.tree))
    ensures forall n :: n in Ids(head.tree) || n == co ==> n.key == old(n.key)
  {
    hide Items, Ids, Valid, Drop, HasKey;
    FindsItself(head, co, all, clock);
    ghost var s := Items(head.tree);
    ghost var gone := ThrowOut(head, co, all);
    if gone == null { assert Without(s, co, s); }
  }

  /** Looking up the deadline a coroutine was last given finds that coroutine or nobody. */
  lemma FindsItself(head: Head<int>, co: Node<int>, all: set<Node?<int>>, clock: int)
    requires Sleeping(head, all, clock) && co in all
    ensures forall r :: r in Ids(head.tree) && r != null && r.key == co.key ==> r == co
    ensures HasKey(Items(head.tree), co.key) <==> co in Ids(head.tree)
    ensures co !in Ids(head.tree) ==> Without(Items(head.tree), co, Items(head.tree))
  {
    EntryOf(head);
    hide Items, Ids;
    forall r | r in Ids(head.tree) && r != null && r.key == co.key ensures r == co {
      if co in Ids(head.tree) { SameDeadline(head, r, co); }
    }
    if HasKey(Items(head.tree), co.key) {
      var i :| 0 <= i < |Items(head.tree)| && Items(head.tree)[i].key == co.key;
      assert Items(head.tree)[i].id in Ids(head.tree);
    }
  }

  lemma DeadlineOf(s: Entries, k: int)
    ensures HasKey(s, k) <==> k in Deadlines(s)
  {
  }

  lemma InsortListed(s: Entries, it: Item<Node?<int>, int>)
    ensures it in Insort(s, it, LT)
    ensures forall x :: x in Insort(s, it, LT) ==> x in s || x == it
  {
    InsortKeys(s, it, LT);
  }

  /** The loop of nty_schedule_sched_sleepdown: one microsecond later until the deadline is free. */
  method Probe(head: Head<int>, co: Node<int>, ghost all: set<Node?<int>>) returns (ghost late: nat)
    requires Valid(head) && co !in Ids(head.tree) && Ids(head.tree) <= all && null !in all
    modifies head`root, head`tree, co, Ids(head.tree)
    ensures Valid(head) && Ids(head.tree) == old(Ids(head.tree)) + {co}
    ensures LeastFree(Deadlines(old(Items(head.tree))), old(co.key), co.key)
    ensures late == co.key - old(co.key) && late <= |Deadlines(old(Items(head.tree)))|
    ensures Items(head.tree) == Insort(old(Items(head.tree)), Item(co, co.key), LT)
    ensures forall n :: n in all && n != co ==> n.key == old(n.key)
  {
    hide Items, Ids, Ascending, Head.Holds, RedBlackTree, HasKey, Deadlines, Insort;
    ghost var s, nodes := Items(head.tree), Ids(head.tree);
    ghost var from, taken := co.key, Deadlines(s);
    ItemsListed(head);
    late := 0;
    DeadlineOf(s, co.key);
    var tmp := Insert(head, co);
    while tmp != null
      invariant Valid(head) && Ids(head.tree) == if tmp == null then nodes + {co} else nodes
      invariant Items(head.tree) == if tmp == null then Insort(s, Item(co, co.key), LT) else s
      invariant co.key == from + late && AllTaken(taken, from, co.key) && late <= |taken|
      invariant tmp != null <==> co.key in taken
      decreases |taken| - late
    {
      co.key := co.key + 1;
      late := late + 1;
      TakenFits(taken, from, co.key);
      DeadlineOf(s, co.key);
      tmp := Insert(head, co);
    }
    ItemsListed(head);
    ghost var u := Items(head.tree);
    InsortListed(s, Entry(co, co.key));
    forall n | n in Ids(head.tree) && n != co ensures n.key == old(n.key) {
      var j :| 0 <= j < |u| && u[j].id == n;
      assert u[j] in s;
    }
  }

  lemma TakenBySomeone(head: Head<int>, k: int)
    requires Valid(head)
    ensures k in Deadlines(Items(head.tree)) <==> exists n :: n in Ids(head.tree) && n != null && n.key == k
  {
    EntryOf(head);
    var s := Items(head.tree);
    if k in Deadlines(s) {
      var i :| 0 <= i < |s| && s[i].key == k;
      assert s[i].id in Ids(head.tree);
    }
    forall n | n in Ids(head.tree) && n != null && n.key == k ensures k in Deadlines(s) {
      assert HasKey(s, n.key);
    }
  }

  /** nty_schedule_sched_sleepdown at `now` microseconds after the birth of the scheduler.  For a positive time
      the coroutine gets the least free deadline, and nobody else is moved or thrown out.  Time 0 only takes
      it out, and the next call is safe exactly if nobody is due at this very microsecond. */
  method SchedSleepdown(head: Head<int>, co: Node<int>, msecs: nat, now: int, ghost all: set<Node?<int>>, ghost clock: int)
    returns (ghost rest: Entries, ghost late: nat)
    requires Sleeping(head, all, clock) && co in all && 0 <= clock <= now
    modifies head`root, head`tree, co, Ids(head.tree)
    ensures Valid(head) && Without(old(Items(head.tree)), co, rest)
    ensures forall n :: n in all && n != co ==> n.key == old(n.key)
    ensures msecs > 0 ==>
      && Sleeping(head, all, now) && Ids(head.tree) == old(Ids(head.tree)) + {co}
      && Items(head.tree) == Insort(rest, Item(co, co.key), LT)
      && LeastFree(Deadlines(rest), now + msecs * 1000, co.key)
      && co.key == now + msecs * 1000 + late && late <= |Deadlines(rest)|
    ensures msecs == 0 ==>
      && Items(head.tree) == rest && Ids(head.tree) == old(Ids(head.tree)) - {co} && co.key == now
      && (Sleeping(head, all, now) <==> now !in Deadlines(rest))
  {
    hide Items, Ids, Ascending, Head.Holds, RedBlackTree, HasKey, Deadlines, Insort, Without;
    var usecs := msecs * 1000;
    Forget(head, co, all, clock);
    rest := Items(head.tree);
    co.key := now + usecs;
    late := 0;
    if msecs > 0 {
      late := Probe(head, co, all);
    } else {
      TakenBySomeone(head, now);
    }
  }

  lemma FirstGone(s: Entries, i: nat)
    requires Ascending(s, LT) && i < |s| && s[i].key == s[0].key
    ensures Drop(s, i) == s[1..]
  {
    assert i == 0;
  }

  lemma DistinctDeadlines(head: Head<int>)
    requires Valid(head)
    ensures forall a, b :: a in Ids(head.tree) && b in Ids(head.tree) && a != b ==>
      a != null && b != null && a.key != b.key
  {
    EntryOf(head);
    forall a, b | a in Ids(head.tree) && b in Ids(head.tree) && a != b ensures a.key != b.key {
      if a.key == b.key { SameDeadline(head, a, b); }
    }
  }

  method RemoveFirst(head: Head<int>, r: Node<int>, ghost all: set<Node?<int>>)
    requires Valid(head) && r in Ids(head.tree) && Ids(head.tree) <= all && null !in all
    requires Items(head.tree) != [] && Items(head.tree)[0] == Entry(r, r.key)
    modifies head`root, head`tree, Ids(head.tree)
    ensures Valid(head) && Ids(head.tree) == old(Ids(head.tree)) - {r}
    ensures Items(head.tree) == old(Items(head.tree))[1..]
    ensures forall n :: n in all ==> n.key == old(n.key)
  {
    Sorted(head);
    hide Items, Ids, Valid, Ascending, Drop;
    ghost var s := Items(head.tree);
    ghost var i := TakeOut(head, r, all);
    FirstGone(s, i);
  }

  /** nty_schedule_expired at time `now`. */
  method Expired(head: Head<int>, now: int, ghost all: set<Node?<int>>, ghost clock: int) returns (r: Node?<int>)
    requires Sleeping(head, all, clock) && clock <= now
    modifies head`root, head`tree, Ids(head.tree)
    ensures Sleeping(head, all, now)
    ensures r == null ==> Items(head.tree) == old(Items(head.tree)) && (Items(head.tree) == [] || Items(head.tree)[0].key > now)
    ensures r != null ==>
      && old(Items(head.tree)) != [] && old(Items(head.tree))[0] == Item(r, r.key) && r.key <= now
      && Items(head.tree) == old(Items(head.tree))[1..]
    ensures Ids(head.tree) == old(Ids(head.tree)) - {r}
    ensures forall n :: n in all ==> n.key == old(n.key)
  {
    hide Items, Ids, Ascending, Head.Holds, RedBlackTree, HasKey, Valid;
    r := MinMax(head, L);
    if r != null && r.key <= now {
      DistinctDeadlines(head);
      RemoveFirst(head, r, all);
    } else {
      r := null;
    }
  }

  /** The same, when the first `n` sleepers of `s` have left. */
  method ExpireNext(head: Head<int>, now: int, ghost s: Entries, ghost n: nat, ghost all: set<Node?<int>>, ghost clock: int)
    returns (r: Node?<int>)
    requires Sleeping(head, all, clock) && clock <= now && n <= |s| && Items(head.tree) == s[n..]
    modifies head`root, head`tree, Ids(head.tree)
    ensures Sleeping(head, all, now) && Ids(head.tree) <= old(Ids(head.tree))
    ensures r == null ==> Items(head.tree) == s[n..] && (n < |s| ==> s[n].key > now)
    ensures r != null ==> n < |s| && s[n].id == r && s[n].key <= now && Items(head.tree) == s[n + 1..]
  {
    hide *;
    r := Expired(head, now, all, clock);
  }

  /** The first step of the main loop, with the clock read anew each time: what is due leaves in the order of
      the deadlines, and what stays is not due yet. */
  method DrainExpired(head: Head<int>, clock: nat -> int, ghost all: set<Node?<int>>) returns (due: seq<Node?<int>>)
    requires Sleeping(head, all, clock(0)) && forall i, j :: 0 <= i <= j ==> clock(i) <= clock(j)
    modifies head`root, head`tree, Ids(head.tree)
    ensures Sleeping(head, all, clock(|due|)) && |due| <= |old(Items(head.tree))|
    ensures Items(head.tree) == old(Items(head.tree))[|due|..]
    ensures forall i :: 0 <= i < |due| ==> old(Items(head.tree))[i].id == due[i] && old(Items(head.tree))[i].key <= clock(i)
    ensures forall i :: 0 <= i < |Items(head.tree)| ==> Items(head.tree)[i].key > clock(|due|)
  {
    hide *;
    ghost var s, nodes := Items(head.tree), Ids(head.tree);
    assert s[0..] == s;
    due := [];
    var expired := ExpireNext(head, clock(0), s, 0, all, clock(0));
    while expired != null
      invariant Sleeping(head, all, clock(|due|)) && Ids(head.tree) <= nodes && |due| <= |s|
      invariant forall i :: 0 <= i < |due| ==> s[i].id == due[i] && s[i].key <= clock(i)
      invariant expired != null ==> |due| < |s| && s[|due|].id == expired && s[|due|].key <= clock(|due|)
      invariant Items(head.tree) == if expired == null then s[|due|..] else s[|due| + 1..]
      invariant expired == null && |due| < |s| ==> s[|due|].key > clock(|due|)
      decreases |s| - |due|
    {
      due := due + [expired];
      expired := ExpireNext(head, clock(|due|), s, |due|, all, clock(|due| - 1));
    }
    FirstDue(head, all, clock(|due|));
  }

  /** The rest of the tree is due no earlier than the first item. */
  lemma FirstDue(head: Head<int>, all: set<Node?<int>>, clock: int)
    requires Sleeping(head, all, clock)
    ensures forall i :: 0 <= i < |Items(head.tree)| ==> Items(head.tree)[i].key >= Items(head.tree)[0].key
  {
    hide Items, Ids, Head.Holds, RedBlackTree;
  }

  lemma Sorted(head: Head<int>)
    requires Valid(head)
    ensures Ascending(Items(head.tree), LT)
  {
  }

  /** nty_schedule_min_timeout: how long epoll may wait. */
  method MinTimeout(head: Head<int>, now: int) returns (usecs: nat)
    requires Valid(head)
    ensures Items(head.tree) == [] ==> usecs == 3000000
    ensures Items(head.tree) != [] ==>
      (usecs == 0 <==> Items(head.tree)[0].key <= now) && (usecs > 0 ==> now + usecs == Items(head.tree)[0].key)
  {
    var co := MinMax(head, L);
    if co == null {
      return 3000000;
    }
    if co.key > now {
      return co.key - now;
    }
    usecs := 0;
  }
}
