/** The connection pool of mysql_connectPool.c.  Each operation is what happens under the pool's mutex; what
    the MySQL calls answer is a parameter. */
module ConnectPool {

  const MAX_POOL_SIZE := 10
  const MIN_POOL_SIZE := 3

  type Handle = nat

  class Conn {
    var mysql: Handle
    var inUse: bool
    var next: Conn?

    constructor (mysql: Handle)
      ensures this.mysql == mysql && !inUse && next == null
    {
      this.mysql, inUse, next := mysql, false, null;
    }
  }

  function At(c: seq<Conn>, j: nat): Conn? {
    if j < |c| then c[j] else null
  }

  ghost function Elems(c: seq<Conn>): set<Conn> { set x | x in c }

  ghost predicate Distinct(c: seq<Conn>) {
    forall i, j :: 0 <= i < j < |c| ==> c[i] != c[j]
  }

  /** `head` starts the list of the connections `c`, which does not run into itself. */
  ghost predicate List(c: seq<Conn>, head: Conn?)
    reads Elems(c)`next
  {
    && Distinct(c) && head == At(c, 0)
    && forall j :: 0 <= j < |c| ==> c[j].next == At(c, j + 1)
  }

  lemma Ends(c: seq<Conn>, head: Conn?)
    requires List(c, head)
    ensures Distinct(c) && (head == null <==> c == []) && (head != null ==> head == c[0] && head in Elems(c))
  {
  }

  lemma NextOf(c: seq<Conn>, head: Conn?, j: nat)
    requires List(c, head) && j < |c|
    ensures c[j] in Elems(c) && c[j].next == At(c, j + 1)
  {
  }

  lemma NextAll(c: seq<Conn>, head: Conn?)
    requires List(c, head)
    ensures head == At(c, 0) && forall j :: 0 <= j < |c| ==> c[j].next == At(c, j + 1)
  {
  }

  lemma Tail(c: seq<Conn>, head: Conn?)
    requires List(c, head) && c != []
    ensures List(c[1..], c[0].next) && Elems(c[1..]) == Elems(c) - {c[0]}
  {
    var d := c[1..];
    assert forall j :: 0 <= j < |d| ==> d[j] == c[j + 1];
    assert c[0].next == At(c, 1) && c == [c[0]] + d;
  }

  lemma Cons(x: Conn, c: seq<Conn>, head: Conn?)
    requires List(c, head) && x !in Elems(c) && x.next == head
    ensures List([x] + c, x) && Elems([x] + c) == Elems(c) + {x}
  {
    var d := [x] + c;
    forall j | 0 <= j < |d| ensures d[j].next == At(d, j + 1) {
      if j > 0 { assert d[j] == c[j - 1]; }
    }
  }

  function Cut(c: seq<Conn>, i: nat): seq<Conn>
    requires i < |c|
  {
    c[..i] + c[i + 1..]
  }

  lemma CutFirst(x: Conn, c: seq<Conn>)
    ensures Cut([x] + c, 0) == c
  {
  }

  lemma CutMembers(c: seq<Conn>, i: nat)
    requires Distinct(c) && i < |c|
    ensures Distinct(Cut(c, i)) && |Cut(c, i)| == |c| - 1 && Elems(Cut(c, i)) == Elems(c) - {c[i]} && c[i] in Elems(c)
  {
    var d := Cut(c, i);
    assert forall j :: 0 <= j < |d| ==> d[j] == if j < i then c[j] else c[j + 1];
    forall x | x in c && x != c[i] ensures x in d {
      var j :| 0 <= j < |c| && c[j] == x;
      assert d[if j < i then j else j - 1] == x;
    }
  }

  /** The slot that led to the connection at `i` now leads past it. */
  lemma CutLinks(c: seq<Conn>, i: nat, head': Conn?)
    requires Distinct(c) && i < |c|
    requires forall j :: 0 <= j < |c| && j != i ==> c[j].next == if j + 1 == i then At(c, i + 1) else At(c, j + 1)
    requires head' == if i == 0 then At(c, 1) else At(c, 0)
    ensures List(Cut(c, i), head')
  {
    var d := Cut(c, i);
    CutMembers(c, i);
    forall j | 0 <= j < |d| ensures d[j].next == At(d, j + 1) {
      assert d[j] == if j < i then c[j] else c[j + 1];
      assert At(d, j + 1) == if j + 1 < i then At(c, j + 1) else At(c, j + 2);
    }
  }

  /** What the foreign calls of one operation answer. */
  datatype Answers = Answers(ping: bool, handle: Handle, connect: bool)

  datatype Got = Connection(mysql: Handle) | Nothing | TryAgain

  ghost predicate AllMarked(s: set<Conn>, inUse: bool)
    reads s`inUse
  {
    forall x :: x in s ==> x.inUse == inUse
  }

  lemma MarkedPart(s: set<Conn>, t: set<Conn>, inUse: bool)
    requires AllMarked(s, inUse) && t <= s
    ensures AllMarked(t, inUse)
  {
  }

  lemma OneLess(f: set<Conn>, u: set<Conn>, x: Conn)
    requires f !! u && x in u
    ensures f !! u - {x} && f + (u - {x}) == f + u - {x} && u - {x} <= u
  {
  }

  class Pool {
    var freeList: Conn?
    var usedList: Conn?
    var total: int
    ghost var free: seq<Conn>
    ghost var used: seq<Conn>

    ghost predicate Lists()
      reads this`free, this`used, this`freeList, this`usedList, Elems(free)`next, Elems(used)`next
    {
      List(free, freeList) && List(used, usedList) && Elems(free) !! Elems(used)
    }

    /** Every connection knows which list it is on. */
    ghost predicate Marked()
      reads this`free, this`used, Elems(free)`inUse, Elems(used)`inUse
    {
      AllMarked(Elems(free), false) && AllMarked(Elems(used), true)
    }

    ghost function Members(): set<Conn>
      reads this`free, this`used
    {
      Elems(free) + Elems(used)
    }

    /** No two connections have one handle. */
    ghost predicate OneEach()
      reads this`free, this`used, Members()`mysql
    {
      forall x, y :: x in Members() && y in Members() && x.mysql == y.mysql ==> x == y
    }

    /** Both lists end, share nothing, know where they are, and add up to the total, which is in bounds. */
    ghost predicate Valid()
      reads this, Members()
    {
      Lists() && Marked() && OneEach() && total == |free| + |used| <= MAX_POOL_SIZE
    }

    ghost function Handles(): set<Handle>
      reads this`free, this`used, Members()`mysql
    {
      set x | x in Members() :: x.mysql
    }

    /** No other connection has this handle. */
    ghost predicate OnlyOf(conn: Conn, handle: Handle)
      reads this`free, this`used, Members()`mysql
    {
      forall x :: x in Members() && x != conn ==> x.mysql != handle
    }

    /** mysql_init, if it is called, returns no handle that is in use.  That of the first free connection may
        come back, which has just been closed then. */
    ghost predicate Possible(a: Answers)
      reads this`free, this`used, Members()`mysql
    {
      if free == [] then a.handle !in Handles() else a.ping || OnlyOf(free[0], a.handle)
    }

    /** create_db_connection; `a.handle` is what mysql_init returns, a handle nobody has. */
    method CreateConnection(a: Answers) returns (conn: Conn?)
      ensures conn == null <==> !a.connect
      ensures conn != null ==> fresh(conn) && conn.mysql == a.handle && !conn.inUse
    {
      conn := null;
      if a.connect {
        conn := new Conn(a.handle);
      }
    }

    /** The first free connection moves to the front of the used ones. */
    method TakeFree() returns (conn: Conn)
      requires Lists() && Marked() && free != []
      modifies this`freeList, this`usedList, this`free, this`used, {free[0]}`next, {free[0]}`inUse
      ensures Lists() && Marked() && conn == old(free[0]) && free == old(free)[1..] && used == [conn] + old(used)
      ensures Members() == old(Members()) && |free| + |used| == |old(free)| + |old(used)|
    {
      Ends(free, freeList);
      Tail(free, freeList);
      hide List, At, Distinct, Elems;
      conn := freeList;
      freeList := conn.next;
      free := free[1..];
      conn.inUse := true;
      conn.next := usedList;
      Cons(conn, used, usedList);
      usedList := conn;
      used := [conn] + used;
    }

    method PushUsed(conn: Conn)
      requires Lists() && Marked() && conn !in Members() && conn.inUse
      modifies this`usedList, this`used, conn`next
      ensures Lists() && Marked() && used == [conn] + old(used) && Members() == old(Members()) + {conn}
    {
      hide List, At, Distinct, Elems;
      conn.next := usedList;
      Cons(conn, used, usedList);
      usedList := conn;
      used := [conn] + used;
    }

    method PushFree(conn: Conn)
      requires Lists() && Marked() && conn !in Members() && !conn.inUse
      modifies this`freeList, this`free, conn`next
      ensures Lists() && Marked() && free == [conn] + old(free) && Members() == old(Members()) + {conn}
    {
      hide List, At, Distinct, Elems;
      conn.next := freeList;
      Cons(conn, free, freeList);
      freeList := conn;
      free := [conn] + free;
    }

    lemma UsedLinks()
      requires Lists()
      ensures List(used, usedList) && forall i, k :: 0 <= i < k < |used| ==> used[i] != used[k]
    {
    }

    /** The loop `while (*pp != conn)`: what lies before a connection that is on the used list. */
    method FindUsed(conn: Conn, ghost i: nat) returns (prev: Conn?)
      requires Lists() && i < |used| && used[i] == conn
      ensures prev == if i == 0 then null else used[i - 1]
    {
      hide List, At, Distinct, Elems, Lists;
      UsedLinks();
      AtIs(used, 0);
      prev := null;
      var cur := usedList;
      ghost var k := 0;
      while cur != conn
        invariant k <= i && cur == used[k] && (k < i ==> cur != conn) && prev == if k == 0 then null else used[k - 1]
        decreases i - k
      {
        NextOf(used, usedList, k);
        AtIs(used, k + 1);
        prev := cur;
        cur := cur.next;
        k := k + 1;
      }
    }

    /** The loop of release_connection_to_pool: the first used connection with this handle. */
    method FindHandle(mysql: Handle) returns (conn: Conn?, prev: Conn?, ghost i: nat)
      requires Lists()
      ensures conn == null <==> forall x :: x in used ==> x.mysql != mysql
      ensures conn != null ==>
        i < |used| && used[i] == conn && conn.mysql == mysql && prev == if i == 0 then null else used[i - 1]
      ensures conn != null ==> forall k :: 0 <= k < i ==> used[k].mysql != mysql
    {
      Ends(used, usedList);
      hide List, At;
      prev, conn, i := null, usedList, 0;
      while conn != null && conn.mysql != mysql
        invariant i <= |used| && conn == (if i < |used| then used[i] else null)
        invariant prev == if i == 0 then null else used[i - 1]
        invariant forall k :: 0 <= k < i ==> used[k].mysql != mysql
        decreases |used| - i
      {
        NextOf(used, usedList, i);
        AtIs(used, i + 1);
        prev := conn;
        conn := conn.next;
        i := i + 1;
      }
    }

    /** The slot `*pp` that leads to the used connection at `i`, behind `prev`, is set past it. */
    method BypassUsed(prev: Conn?, conn: Conn, ghost i: nat)
      requires Lists() && Marked() && i < |used| && used[i] == conn && prev == if i == 0 then null else used[i - 1]
      modifies this`usedList, this`used, Elems(used)`next
      ensures Lists() && Marked() && used == Cut(old(used), i) && |used| == |old(used)| - 1
      ensures Members() == old(Members()) - {conn}
    {
      Ends(used, usedList);
      CutMembers(used, i);
      OneLess(Elems(free), Elems(used), conn);
      MarkedPart(Elems(used), Elems(Cut(used, i)), true);
      ghost var rest, f, u := Cut(used, i), Elems(free), Elems(used);
      assert f !! Elems(rest) && f + Elems(rest) == f + u - {conn};
      hide *;
      LinkPast(prev, conn, i);
      used := rest;
      Together(f, Elems(rest));
    }

    lemma Together(f: set<Conn>, u: set<Conn>)
      requires List(free, freeList) && List(used, usedList) && f == Elems(free) && u == Elems(used) && f !! u
      requires AllMarked(f, false) && AllMarked(u, true)
      ensures Lists() && Marked() && Members() == f + u
    {
    }

    method LinkPast(prev: Conn?, conn: Conn, ghost i: nat)
      requires List(used, usedList) && i < |used| && used[i] == conn && prev == if i == 0 then null else used[i - 1]
      requires List(free, freeList) && Elems(free) !! Elems(used)
      requires AllMarked(Elems(free), false) && AllMarked(Elems(Cut(used, i)), true)
      modifies this`usedList, Elems(used)`next
      ensures List(Cut(used, i), usedList) && List(free, freeList)
      ensures AllMarked(Elems(free), false) && AllMarked(Elems(Cut(used, i)), true)
    {
      Ends(used, usedList);
      NextAll(used, usedList);
      AtIs(used, 0);
      hide At, List, Cut;
      if prev == null {
        usedList := conn.next;
      } else {
        prev.next := conn.next;
      }
      CutLinks(used, i, usedList);
    }

    /** get_connection_from_pool, one pass under the mutex.  `TryAgain` is its wait before the next pass. */
    method Get(a: Answers) returns (got: Got)
      requires Valid() && Possible(a)
      modifies this, Members()
      ensures Valid()
      ensures got.Connection? ==> used != [] && used[0].mysql == got.mysql && used[1..] == old(used)
      ensures got.Connection? && old(free) != [] ==>
        used[0] == old(free[0]) && free == old(free)[1..] && got.mysql == if a.ping then old(free[0].mysql) else a.handle
      ensures got.Connection? && old(free) == [] ==> fresh(used[0]) && free == [] && total == old(total) + 1 && got.mysql == a.handle
      ensures got.Nothing? ==> used == old(used) && old(free) != [] && free == old(free)[1..]
      ensures got.Nothing? <==> old(free) != [] && !a.ping && !a.connect
      ensures got.TryAgain? ==> free == old(free) == [] && used == old(used)
      ensures got.TryAgain? <==> old(free) == [] && (old(total) == MAX_POOL_SIZE || !a.connect)
      ensures forall x :: (x in old(free) && x != old(free[0])) || x in old(used) ==> x.mysql == old(x.mysql)
    {
      Ends(free, freeList);
      hide List, At, Distinct, Elems;
      if freeList != null {
        got := Reuse(a);
      } else if total < MAX_POOL_SIZE {
        got := Enlarge(a);
      } else {
        got := TryAgain;
      }
    }

    /** The first free connection, reconnected if it does not answer, or dropped if that fails. */
    method Reuse(a: Answers) returns (got: Got)
      requires Valid() && Possible(a) && free != []
      modifies this, Members()
      ensures Valid() && free == old(free)[1..]
      ensures got.Connection? ==> used == [old(free[0])] + old(used) && used[0].mysql == got.mysql
      ensures got.Connection? ==> got.mysql == if a.ping then old(free[0].mysql) else a.handle
      ensures got.Nothing? ==> used == old(used)
      ensures if a.ping || a.connect then got.Connection? else got.Nothing?
      ensures forall x :: (x in old(free) && x != old(free[0])) || x in old(used) ==> x.mysql == old(x.mysql)
    {
      hide List, At, Distinct, Cut;
      var conn := TakeFree();
      if !a.ping {
        Reopen(conn, a.handle);
        if !a.connect {
          Drop(conn);
          CutFirst(conn, old(used));
          return Nothing;
        }
      }
      got := Connection(conn.mysql);
    }

    /** mysql_init for a connection that stays where it is. */
    method Reopen(conn: Conn, handle: Handle)
      requires Valid() && conn in Members() && OnlyOf(conn, handle)
      modifies conn`mysql
      ensures Valid() && conn.mysql == handle
    {
      hide List, At, Distinct;
      conn.mysql := handle;
    }

    /** The end of a failed reconnection: the first used connection goes away. */
    method Drop(conn: Conn)
      requires Valid() && used != [] && used[0] == conn
      modifies this`usedList, this`used, this`total, Elems(used)`next
      ensures Valid() && used == Cut(old(used), 0) && free == old(free)
    {
      hide List, At, Distinct, Cut;
      var prev := FindUsed(conn, 0);
      BypassUsed(prev, conn, 0);
      total := total - 1;
    }

    /** One more connection, straight onto the used list. */
    method Enlarge(a: Answers) returns (got: Got)
      requires Valid() && a.handle !in Handles() && total < MAX_POOL_SIZE
      modifies this
      ensures Valid() && free == old(free)
      ensures got == if a.connect then Connection(a.handle) else TryAgain
      ensures a.connect ==>
        used != [] && fresh(used[0]) && used[0].mysql == a.handle && used[1..] == old(used) && total == old(total) + 1
      ensures !a.connect ==> used == old(used)
    {
      hide List, At, Distinct;
      var conn := CreateConnection(a);
      assert Lists() && Marked() && OneEach();
      if conn == null { return TryAgain; }
      conn.inUse := true;
      PushUsed(conn);
      total := total + 1;
      got := Connection(conn.mysql);
    }

    method GiveBack(conn: Conn)
      requires Lists() && Marked() && conn !in Members()
      modifies this`freeList, this`free, conn`next, conn`inUse
      ensures Lists() && Marked() && free == [conn] + old(free) && Members() == old(Members()) + {conn} && !conn.inUse
    {
      hide List, At, Distinct, Elems;
      conn.inUse := false;
      PushFree(conn);
    }

    /** release_connection_to_pool: the used connection with this handle goes back to the free ones, or, if it
        does not answer, goes away; an unknown handle changes nothing. */
    method Release(mysql: Handle, ping: bool) returns (known: bool, ghost i: nat)
      requires Valid()
      modifies this, Members()
      ensures Valid() && (known <==> exists x :: x in old(used) && old(x.mysql) == mysql)
      ensures !known ==> free == old(free) && used == old(used)
      ensures known ==> i < |old(used)| && old(used[i].mysql) == mysql && used == Cut(old(used), i)
      ensures known ==> free == if ping then [old(used)[i]] + old(free) else old(free)
      ensures known ==> total == old(total) - if ping then 0 else 1
      ensures known ==> forall k :: 0 <= k < i ==> old(used[k].mysql) != mysql
      ensures forall x :: x in old(free) || x in old(used) ==> x.mysql == old(x.mysql)
    {
      hide List, At, Distinct, Cut;
      var conn, prev;
      conn, prev, i := FindHandle(mysql);
      if conn == null { return false, i; }
      BypassUsed(prev, conn, i);
      if !ping {
        total := total - 1;
      } else {
        GiveBack(conn);
      }
      known := true;
    }

    /** The free connections have these handles, in this order, and no connection is used. */
    ghost predicate AllFree(made: seq<Handle>)
      reads this`free, this`used, free
    {
      used == [] && |free| == |made| && forall j :: 0 <= j < |free| ==> free[j].mysql == made[j]
    }

    /** init_connection_pool: of the first connections those that could be made, all of them free, the last one first. */
    constructor (answers: nat -> Answers)
      requires forall i, j :: 0 <= i < j && answers(i).connect ==> answers(j).handle != answers(i).handle
      ensures Valid() && fresh(Members()) && AllFree(Made(answers, MIN_POOL_SIZE))
    {
      freeList, usedList, total, free, used := null, null, 0, [], [];
      new;
      hide List, At, Distinct, Valid, AllFree, Made;
      MadeTells(answers, 0);
      NobodyIn();
      for i := 0 to MIN_POOL_SIZE
        invariant Valid() && fresh(Members()) && AllFree(Made(answers, i)) && |Made(answers, i)| <= i
      {
        MadeTells(answers, i);
        NewHandle(answers, i);
        ghost var before := Members();
        AddInitial(answers(i), Made(answers, i));
        assert Members() <= before + (Members() - before);
      }
    }

    lemma NobodyIn()
      requires freeList == usedList == null && total == 0 && free == used == []
      ensures Valid() && Members() == {} && AllFree([])
    {
      EmptyList();
    }

    /** One round of init_connection_pool. */
    method AddInitial(a: Answers, ghost made: seq<Handle>)
      requires Valid() && AllFree(made) && a.handle !in made && |made| < MAX_POOL_SIZE
      modifies this
      ensures Valid() && fresh(Members() - old(Members())) && AllFree(if a.connect then [a.handle] + made else made)
    {
      hide List, At, Distinct;
      var conn := CreateConnection(a);
      assert Lists() && Marked() && OneEach();
      assert forall x :: x in Members() ==> x.mysql != a.handle;
      if conn != null {
        ghost var was := free;
        PushFree(conn);
        total := total + 1;
        hide AllMarked, Elems;
        AllFreeCons(conn, was, made);
      }
    }

    lemma AllFreeCons(conn: Conn, was: seq<Conn>, made: seq<Handle>)
      requires used == [] && |was| == |made| && forall j :: 0 <= j < |was| ==> was[j].mysql == made[j]
      requires free == [conn] + was
      ensures AllFree([conn.mysql] + made)
    {
    }

    method PopFree() returns (conn: Conn)
      requires List(free, freeList) && free != []
      modifies this`freeList, this`free
      ensures List(free, freeList) && free == old(free)[1..] && conn == old(free[0])
    {
      Ends(free, freeList);
      Tail(free, freeList);
      conn := freeList;
      freeList := conn.next;
      free := free[1..];
    }

    method PopUsed() returns (conn: Conn)
      requires List(used, usedList) && used != []
      modifies this`usedList, this`used
      ensures List(used, usedList) && used == old(used)[1..] && conn == old(used[0])
    {
      Ends(used, usedList);
      Tail(used, usedList);
      conn := usedList;
      usedList := conn.next;
      used := used[1..];
    }

    /** The first loop of close_connection_pool. */
    method CloseFree() returns (closed: seq<Handle>)
      requires List(free, freeList)
      modifies this`freeList, this`free
      ensures free == [] && freeList == null && |closed| == |old(free)|
      ensures forall k :: 0 <= k < |closed| ==> closed[k] == old(free)[k].mysql
    {
      hide List, At, Distinct;
      closed := [];
      Ends(free, freeList);
      while freeList != null
        invariant List(free, freeList) && (freeList != null <==> free != [])
        invariant |closed| <= |old(free)| && free == old(free)[|closed|..]
        invariant forall k :: 0 <= k < |closed| ==> closed[k] == old(free)[k].mysql
        decreases |free|
      {
        var conn := PopFree();
        Ends(free, freeList);
        closed := closed + [conn.mysql];
      }
    }

    /** The second loop. */
    method CloseUsed() returns (closed: seq<Handle>)
      requires List(used, usedList)
      modifies this`usedList, this`used
      ensures used == [] && usedList == null && |closed| == |old(used)|
      ensures forall k :: 0 <= k < |closed| ==> closed[k] == old(used)[k].mysql
    {
      hide List, At, Distinct;
      closed := [];
      Ends(used, usedList);
      while usedList != null
        invariant List(used, usedList) && (usedList != null <==> used != [])
        invariant |closed| <= |old(used)| && used == old(used)[|closed|..]
        invariant forall k :: 0 <= k < |closed| ==> closed[k] == old(used)[k].mysql
        decreases |used|
      {
        var conn := PopUsed();
        Ends(used, usedList);
        closed := closed + [conn.mysql];
      }
    }

    /** close_connection_pool: every connection is closed once, and nothing is left. */
    method Close() returns (closed: seq<Handle>)
      requires Valid()
      modifies this
      ensures Valid() && total == 0 && free == used == []
      ensures |closed| == |old(free)| + |old(used)|
      ensures forall k :: 0 <= k < |closed| ==> closed[k] == old((free + used)[k].mysql)
    {
      hide List, At, Distinct;
      closed := CloseFree();
      var more := CloseUsed();
      closed := closed + more;
      total := 0;
      EmptyList();
    }
  }

  /** The handles of the first `n` connections that could be made, the last one first. */
  function Made(answers: nat -> Answers, n: nat): seq<Handle> {
    if n == 0 then [] else (if answers(n - 1).connect then [answers(n - 1).handle] else []) + Made(answers, n - 1)
  }

  lemma MadeTells(answers: nat -> Answers, n: nat)
    ensures Made(answers, 0) == []
    ensures Made(answers, n + 1) == if answers(n).connect then [answers(n).handle] + Made(answers, n) else Made(answers, n)
  {
  }

  lemma NewHandle(answers: nat -> Answers, n: nat)
    requires forall i, j :: 0 <= i < j && answers(i).connect ==> answers(j).handle != answers(i).handle
    ensures answers(n).handle !in Made(answers, n)
  {
    MadeOnly(answers, n);
  }

  lemma {:induction false} MadeOnly(answers: nat -> Answers, n: nat)
    ensures forall h :: h in Made(answers, n) ==> exists k :: 0 <= k < n && answers(k).connect && answers(k).handle == h
  {
    if n > 0 {
      MadeOnly(answers, n - 1);
    }
  }

  /** If no attempt from number `k` on succeeds, nothing is added; if the one before them did, its handle is first. */
  lemma {:induction false} LastMadeFirst(answers: nat -> Answers, k: nat, n: nat)
    requires k <= n && forall j: nat :: k <= j < n ==> !answers(j).connect
    ensures Made(answers, n) == Made(answers, k)
    ensures k == 0 ==> Made(answers, n) == []
    ensures k > 0 && answers(k - 1).connect ==> Made(answers, n) == [answers(k - 1).handle] + Made(answers, k - 1)
    decreases n - k
  {
    if k < n {
      LastMadeFirst(answers, k + 1, n);
    }
  }

  lemma EmptyList()
    ensures List([], null) && Elems([]) == {}
  {
  }

  lemma AtIs(c: seq<Conn>, j: nat)
    ensures At(c, j) == if j < |c| then c[j] else null
  {
  }
}
