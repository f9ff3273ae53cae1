/** Whole runs of the connection pool: calls in any order, with any answers of the server. */
module PoolRuns {
  import opened ConnectPool

  /** The handles of the free and of the used connections, in the order of the lists. */
  datatype Pools = Pools(free: seq<Handle>, used: seq<Handle>)

  /** get_connection_from_pool with what the server answers, or release_connection_to_pool. */
  datatype Call = Gets(a: Answers) | Releases(mysql: Handle, ping: bool)

  datatype Outcome = Given(got: Got) | Taken(known: bool)

  // ---------- what a run should do ----------

  function IndexOf(s: seq<Handle>, h: Handle): (i: nat)
    ensures i <= |s| && (i < |s| ==> s[i] == h) && forall k :: 0 <= k < i ==> s[k] != h
  {
    if s == [] || s[0] == h then 0 else 1 + IndexOf(s[1..], h)
  }

  function CutAt(s: seq<Handle>, i: nat): seq<Handle>
    requires i < |s|
  {
    s[..i] + s[i + 1..]
  }

  function Next(p: Pools, c: Call): Pools {
    match c
    case Gets(a) =>
      if p.free != [] then
        if a.ping then Pools(p.free[1..], [p.free[0]] + p.used)
        else if a.connect then Pools(p.free[1..], [a.handle] + p.used)
        else Pools(p.free[1..], p.used)
      else if |p.used| < MAX_POOL_SIZE && a.connect then Pools([], [a.handle] + p.used)
      else p
    case Releases(mysql, ping) =>
      var i := IndexOf(p.used, mysql);
      if i == |p.used| then p else Pools(if ping then [mysql] + p.free else p.free, CutAt(p.used, i))
  }

  function Answer(p: Pools, c: Call): Outcome {
    match c
    case Gets(a) =>
      Given(if p.free != [] && a.ping then Connection(p.free[0])
            else if p.free != [] then (if a.connect then Connection(a.handle) else Nothing)
            else if |p.used| < MAX_POOL_SIZE && a.connect then Connection(a.handle)
            else TryAgain)
    case Releases(mysql, ping) => Taken(mysql in p.used)
  }

  /** mysql_init, if it is called, returns no handle that is in use; that of the first free connection has been
      closed then. */
  predicate MayHappen(p: Pools, c: Call) {
    c.Gets? ==>
      if p.free == [] then c.a.handle !in p.used else c.a.ping || (c.a.handle !in p.free[1..] && c.a.handle !in p.used)
  }

  predicate Playable(p: Pools, calls: seq<Call>)
    decreases |calls|
  {
    calls == [] || (MayHappen(p, calls[0]) && Playable(Next(p, calls[0]), calls[1..]))
  }

  function Final(p: Pools, calls: seq<Call>): Pools
    decreases |calls|
  {
    if calls == [] then p else Final(Next(p, calls[0]), calls[1..])
  }

  function Outcomes(p: Pools, calls: seq<Call>): seq<Outcome>
    decreases |calls|
  {
    if calls == [] then [] else [Answer(p, calls[0])] + Outcomes(Next(p, calls[0]), calls[1..])
  }

  // ---------- what follows ----------

  ghost predicate NoTwins(s: seq<Handle>) {
    forall i, j :: 0 <= i < j < |s| ==> s[i] != s[j]
  }

  /** No handle is in the pool twice, and the pool is not too large. */
  ghost predicate Sound(p: Pools) {
    NoTwins(p.free) && NoTwins(p.used) && (forall h :: h in p.free ==> h !in p.used) && |p.free| + |p.used| <= MAX_POOL_SIZE
  }

  lemma CutTwins(s: seq<Handle>, i: nat)
    requires NoTwins(s) && i < |s|
    ensures NoTwins(CutAt(s, i)) && s[i] !in CutAt(s, i) && forall h :: h in CutAt(s, i) ==> h in s
    ensures |CutAt(s, i)| == |s| - 1
  {
    var u := CutAt(s, i);
    assert forall k :: 0 <= k < |u| ==> u[k] == s[if k < i then k else k + 1];
  }

  lemma TailTwins(s: seq<Handle>)
    requires NoTwins(s) && s != []
    ensures NoTwins(s[1..]) && s[0] !in s[1..] && forall h :: h in s[1..] ==> h in s
  {
    assert forall k :: 0 <= k < |s| - 1 ==> s[1..][k] == s[k + 1];
  }

  /** A connection that is handed out was in nobody's hands, and whatever is called keeps the pool sound. */
  lemma SoundKept(p: Pools, c: Call)
    requires Sound(p) && MayHappen(p, c)
    ensures Sound(Next(p, c))
    ensures c.Gets? && Answer(p, c).got.Connection? ==> Answer(p, c).got.mysql !in p.used
  {
    hide NoTwins, CutAt;
    match c
    case Gets(a) =>
      if p.free != [] {
        TailTwins(p.free);
        ConsTwins(p.free[0], p.used);
      }
      ConsTwins(a.handle, p.used);
      NoneTwins();
    case Releases(mysql, ping) =>
      var i := IndexOf(p.used, mysql);
      if i < |p.used| {
        CutTwins(p.used, i);
        ConsTwins(mysql, p.free);
      }
  }

  lemma NoneTwins()
    ensures NoTwins([])
  {
  }

  lemma ConsTwins(h: Handle, s: seq<Handle>)
    ensures forall x :: x in [h] + s <==> x == h || x in s
    ensures NoTwins(s) && h !in s ==> NoTwins([h] + s)
  {
  }

  lemma {:induction false} AlwaysSound(p: Pools, calls: seq<Call>)
    requires Sound(p) && Playable(p, calls)
    ensures Sound(Final(p, calls))
    decreases |calls|
  {
    if calls != [] {
      SoundKept(p, calls[0]);
      AlwaysSound(Next(p, calls[0]), calls[1..]);
    }
  }

  /** Of handles that are in use, the one released last is handed out first; a Get that reconnects hands out the new handle. */
  lemma ReleaseThenGet(p: Pools, mysql: Handle, a: Answers)
    requires mysql in p.used
    ensures var q := Next(p, Releases(mysql, true));
      && Answer(p, Releases(mysql, true)) == Taken(true)
      && Answer(q, Gets(a)) ==
           Given(if a.ping then Connection(mysql) else if a.connect then Connection(a.handle) else Nothing)
      && (a.ping ==> Next(q, Gets(a)).free == p.free && multiset(Next(q, Gets(a)).used) == multiset(p.used))
  {
    var i := IndexOf(p.used, mysql);
    assert p.used == p.used[..i] + [mysql] + p.used[i + 1..];
  }

  // ---------- the pool ----------

  ghost function HandlesOf(c: seq<Conn>): (s: seq<Handle>)
    reads c
    ensures |s| == |c| && forall i :: 0 <= i < |c| ==> s[i] == c[i].mysql
  {
    seq(|c|, i requires 0 <= i < |c| reads c => c[i].mysql)
  }

  ghost function Look(pool: Pool): Pools
    reads pool`free, pool`used, pool.free, pool.used
  {
    Pools(HandlesOf(pool.free), HandlesOf(pool.used))
  }

  lemma SameHandles(c: seq<Conn>, hs: seq<Handle>)
    requires |c| == |hs| && forall i :: 0 <= i < |c| ==> c[i].mysql == hs[i]
    ensures HandlesOf(c) == hs
  {
  }

  /** A list of connections of which no two are one and no two have one handle. */
  lemma NoTwinsIn(pool: Pool, c: seq<Conn>)
    requires pool.OneEach() && ConnectPool.Distinct(c) && forall i :: 0 <= i < |c| ==> c[i] in pool.Members()
    ensures NoTwins(HandlesOf(c))
  {
    forall i, j | 0 <= i < j < |c| ensures c[i].mysql != c[j].mysql {
      assert c[i] in pool.Members() && c[j] in pool.Members() && c[i] != c[j];
    }
  }

  lemma PoolFacts(pool: Pool)
    requires pool.Valid()
    ensures pool.total == |pool.free| + |pool.used| && Sound(Look(pool))
    ensures ConnectPool.Distinct(pool.free)
  {
    hide At, HandlesOf;
    var f, u := pool.free, pool.used;
    assert forall i :: 0 <= i < |f| ==> f[i] in Elems(f);
    assert forall i :: 0 <= i < |u| ==> u[i] in Elems(u);
    NoTwinsIn(pool, f);
    NoTwinsIn(pool, u);
    forall i, j | 0 <= i < |f| && 0 <= j < |u| ensures f[i].mysql != u[j].mysql {
      assert f[i] in pool.Members() && u[j] in pool.Members() && f[i] != u[j];
    }
    hide NoTwins;
    forall h | h in Look(pool).free ensures h !in Look(pool).used {
      var i :| 0 <= i < |f| && HandlesOf(f)[i] == h;
    }
  }

  lemma PossibleIf(pool: Pool, a: Answers)
    requires pool.Valid() && MayHappen(Look(pool), Gets(a))
    ensures pool.Possible(a)
  {
    hide List, At;
  }

  /** A Get, told by the connections and by the handles. */
  lemma AfterGet(pool: Pool, a: Answers, got: Got, f: seq<Conn>, u: seq<Conn>, p: Pools)
    requires |f| == |p.free| && |u| == |p.used|
    requires (forall i :: 1 <= i < |f| ==> f[i].mysql == p.free[i]) && forall i :: 0 <= i < |u| ==> u[i].mysql == p.used[i]
    requires got.Connection? ==> pool.used != [] && pool.used[0].mysql == got.mysql && pool.used[1..] == u
    requires !got.Connection? ==> pool.used == u
    requires pool.free == if f != [] then f[1..] else f
    requires got.Connection? && f != [] ==> got.mysql == if a.ping then p.free[0] else a.handle
    requires got.Connection? && f == [] ==> got.mysql == a.handle
    requires got.Nothing? <==> f != [] && !a.ping && !a.connect
    requires got.TryAgain? <==> f == [] && (|u| == MAX_POOL_SIZE || !a.connect)
    requires |u| <= MAX_POOL_SIZE
    ensures Look(pool) == Next(p, Gets(a)) && Given(got) == Answer(p, Gets(a))
  {
    var q := Next(p, Gets(a));
    SameHandles(pool.free, q.free);
    SameHandles(pool.used, q.used);
  }

  method PlayGet(pool: Pool, a: Answers) returns (got: Got)
    requires pool.Valid() && MayHappen(Look(pool), Gets(a))
    modifies pool, pool.Members()
    ensures pool.Valid() && Look(pool) == Next(old(Look(pool)), Gets(a)) && Given(got) == Answer(old(Look(pool)), Gets(a))
    ensures fresh(pool.Members() - old(pool.Members()))
  {
    hide Pool.Valid, Pool.Possible, Next, Answer, HandlesOf, Pool.Members, Sound, ConnectPool.Distinct, MayHappen, Elems;
    PoolFacts(pool);
    SoundSize(Look(pool));
    PossibleIf(pool, a);
    MembersAre(pool);
    ghost var f, u, p := pool.free, pool.used, Look(pool);
    NotFirst(f);
    got := pool.Get(a);
    assert forall i :: 0 <= i < |u| ==> u[i] in u;
    AfterGet(pool, a, got, f, u, p);
    GotMembers(pool, f, u);
  }

  lemma NotFirst(f: seq<Conn>)
    requires ConnectPool.Distinct(f)
    ensures forall i :: 1 <= i < |f| ==> f[i] in f && f[i] != f[0]
  {
  }

  lemma MembersAre(pool: Pool)
    ensures pool.Members() == Elems(pool.free) + Elems(pool.used)
  {
  }

  /** Whoever is in the pool was in it, or is the first used connection. */
  lemma GotMembers(pool: Pool, f: seq<Conn>, u: seq<Conn>)
    requires pool.free == (if f != [] then f[1..] else f)
    requires pool.used == u || (pool.used != [] && pool.used[1..] == u)
    ensures pool.used == u || (f != [] && pool.used[0] == f[0]) ==> pool.Members() <= Elems(f) + Elems(u)
    ensures pool.used != [] ==> pool.Members() <= Elems(f) + Elems(u) + {pool.used[0]}
  {
    assert pool.used != u ==> pool.used == [pool.used[0]] + u;
  }

  lemma AfterRelease(pool: Pool, mysql: Handle, ping: bool, i: nat, f: seq<Conn>, u: seq<Conn>, p: Pools)
    requires |f| == |p.free| && |u| == |p.used| && i < |u| && u[i].mysql == mysql && forall k :: 0 <= k < i ==> u[k].mysql != mysql
    requires (forall i :: 0 <= i < |f| ==> f[i].mysql == p.free[i]) && forall i :: 0 <= i < |u| ==> u[i].mysql == p.used[i]
    requires pool.used == Cut(u, i) && pool.free == if ping then [u[i]] + f else f
    ensures Look(pool) == Next(p, Releases(mysql, ping)) && Answer(p, Releases(mysql, ping)) == Taken(true)
    ensures pool.Members() <= Elems(f) + Elems(u)
  {
    var q := Next(p, Releases(mysql, ping));
    assert IndexOf(p.used, mysql) == i;
    SameHandles(pool.free, q.free);
    SameHandles(pool.used, q.used);
  }

  method PlayRelease(pool: Pool, mysql: Handle, ping: bool) returns (known: bool)
    requires pool.Valid()
    modifies pool, pool.Members()
    ensures pool.Valid() && Look(pool) == Next(old(Look(pool)), Releases(mysql, ping))
    ensures Taken(known) == Answer(old(Look(pool)), Releases(mysql, ping))
    ensures fresh(pool.Members() - old(pool.Members()))
  {
    hide Pool.Valid, Next, HandlesOf, Pool.Members, Cut, IndexOf, Answer, Elems;
    MembersAre(pool);
    ghost var f, u, p := pool.free, pool.used, Look(pool);
    assert forall i :: 0 <= i < |f| ==> f[i] in f;
    assert forall i :: 0 <= i < |u| ==> u[i] in u;
    ghost var i;
    known, i := pool.Release(mysql, ping);
    if known {
      AfterRelease(pool, mysql, ping, i, f, u, p);
    } else {
      Unknown(pool, mysql, ping, f, u, p);
    }
  }

  lemma Unknown(pool: Pool, mysql: Handle, ping: bool, f: seq<Conn>, u: seq<Conn>, p: Pools)
    requires |f| == |p.free| && |u| == |p.used| && forall x :: x in u ==> x.mysql != mysql
    requires (forall i :: 0 <= i < |f| ==> f[i].mysql == p.free[i]) && forall i :: 0 <= i < |u| ==> u[i].mysql == p.used[i]
    requires pool.used == u && pool.free == f
    ensures Look(pool) == p == Next(p, Releases(mysql, ping)) && Answer(p, Releases(mysql, ping)) == Taken(false)
    ensures pool.Members() == Elems(f) + Elems(u)
  {
    SameHandles(f, p.free);
    SameHandles(u, p.used);
    forall i | 0 <= i < |u| ensures p.used[i] != mysql { assert u[i] in u; }
  }

  method Play(pool: Pool, c: Call) returns (outcome: Outcome)
    requires pool.Valid() && MayHappen(Look(pool), c)
    modifies pool, pool.Members()
    ensures pool.Valid() && Look(pool) == Next(old(Look(pool)), c) && outcome == Answer(old(Look(pool)), c)
    ensures fresh(pool.Members() - old(pool.Members()))
  {
    hide Pool.Valid, Next, Answer, HandlesOf, Pool.Members, Look;
    match c
    case Gets(a) =>
      var got := PlayGet(pool, a);
      outcome := Given(got);
    case Releases(mysql, ping) =>
      var known := PlayRelease(pool, mysql, ping);
      outcome := Taken(known);
  }

  lemma NextCall(p: Pools, calls: seq<Call>, i: nat)
    requires i < |calls| && Playable(p, calls[i..])
    ensures var q := Next(p, calls[i]);
      && MayHappen(p, calls[i]) && Playable(q, calls[i + 1..]) && Final(p, calls[i..]) == Final(q, calls[i + 1..])
      && Outcomes(p, calls[i..]) == [Answer(p, calls[i])] + Outcomes(q, calls[i + 1..])
  {
    assert calls[i..][0] == calls[i] && calls[i..][1..] == calls[i + 1..];
    hide Next, Answer, MayHappen;
  }

  lemma NoCall(p: Pools, calls: seq<Call>)
    ensures calls[|calls|..] == [] && Final(p, calls[|calls|..]) == p && Outcomes(p, calls[|calls|..]) == []
  {
  }

  /** Any run of calls, whatever the server answers: each outcome and the handles in both lists are those the
      calls determine; both lists stay disjoint, flags and total right, and the pool within its bound. */
  method Run(pool: Pool, calls: seq<Call>) returns (outcomes: seq<Outcome>)
    requires pool.Valid() && Playable(Look(pool), calls)
    modifies pool, pool.Members()
    ensures pool.Valid() && Look(pool) == Final(old(Look(pool)), calls) && outcomes == Outcomes(old(Look(pool)), calls)
    ensures Sound(Look(pool)) && pool.total == |Look(pool).free| + |Look(pool).used| <= MAX_POOL_SIZE
  {
    hide Pool.Valid, Next, Answer, MayHappen, Playable, Final, Outcomes, Sound, HandlesOf;
    ghost var p := Look(pool);
    outcomes := [];
    assert calls[0..] == calls;
    for i := 0 to |calls|
      invariant pool.Valid() && Playable(Look(pool), calls[i..])
      invariant Final(p, calls) == Final(Look(pool), calls[i..])
      invariant Outcomes(p, calls) == outcomes + Outcomes(Look(pool), calls[i..])
      invariant fresh(pool.Members() - old(pool.Members()))
    {
      NextCall(Look(pool), calls, i);
      ghost var before := pool.Members();
      var outcome := Play(pool, calls[i]);
      assert pool.Members() - old(pool.Members()) <= (pool.Members() - before) + (before - old(pool.Members()));
      assert outcomes + ([outcome] + Outcomes(Look(pool), calls[i + 1..])) == outcomes + [outcome] + Outcomes(Look(pool), calls[i + 1..]);
      outcomes := outcomes + [outcome];
    }
    NoCall(Look(pool), calls);
    PoolFacts(pool);
    SoundSize(Look(pool));
  }

  lemma SoundSize(p: Pools)
    requires Sound(p)
    ensures |p.free| + |p.used| <= MAX_POOL_SIZE
  {
  }
}
