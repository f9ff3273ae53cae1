/** The command dispatch of kvstore.c over the tree and the hash engine, against two maps. */
module Kvstore {
  import opened CStrings
  import opened Options
  import KvsRbtree
  import KvsHash

  datatype Engine = Tree | Hash
  datatype Op = Set | Get | Mod | Del | Exist
  datatype Request = Request(engine: Engine, op: Op, key: Option<CString>, value: Option<CString>)
  datatype Reply = Ok | Exists | NoExist | Error | SetError | Value(v: CString)
  datatype State = State(tree: map<CString, CString>, hash: map<CString, CString>)

  // ---------- what a client should see ----------

  function Content(s: State, e: Engine): map<CString, CString> {
    if e.Tree? then s.tree else s.hash
  }

  /** The map after one command. */
  function Next(m: map<CString, CString>, r: Request): map<CString, CString> {
    if r.key.None? then m
    else if r.op.Set? && r.value.Some? && r.key.value !in m then m[r.key.value := r.value.value]
    else if r.op.Mod? && r.value.Some? && r.key.value in m then m[r.key.value := r.value.value]
    else if r.op.Del? then m - {r.key.value}
    else m
  }

  /** The answer to one command.  The engines report a missing argument or key in different words. */
  function Answer(m: map<CString, CString>, r: Request): Reply {
    var present := r.key.Some? && r.key.value in m;
    match r.op
    case Set =>
      if r.key.None? || r.value.None? then (if r.engine.Tree? then SetError else Error)
      else if present then Exists else Ok
    case Get => if present then Value(m[r.key.value]) else NoExist
    case Mod =>
      if r.key.None? || (r.engine.Tree? && r.value.None?) then Error
      else if present then Ok else NoExist
    case Del => if present then Ok else Error
    case Exist => if present then Exists else NoExist
  }

  function After(s: State, r: Request): State {
    if r.engine.Tree? then s.(tree := Next(s.tree, r)) else s.(hash := Next(s.hash, r))
  }

  /** What the code can be asked: hash keys with a slot in the table, a new value for HMOD of a present key,
      and no RDEL, which is not part of this model. */
  predicate Served(s: State, r: Request) {
    && (r.engine.Hash? && r.key.Some? ==> 0 <= KvsHash.Slot(r.key.value))
    && (r.engine.Hash? && r.op.Mod? && r.key.Some? && r.key.value in s.hash ==> r.value.Some?)
    && !(r.engine.Tree? && r.op.Del?)
  }

  predicate AllServed(s: State, rs: seq<Request>)
    decreases |rs|
  {
    rs == [] || (Served(s, rs[0]) && AllServed(After(s, rs[0]), rs[1..]))
  }

  function Replies(s: State, rs: seq<Request>): seq<Reply>
    decreases |rs|
  {
    if rs == [] then [] else [Answer(Content(s, rs[0].engine), rs[0])] + Replies(After(s, rs[0]), rs[1..])
  }

  function Final(s: State, rs: seq<Request>): State
    decreases |rs|
  {
    if rs == [] then s else Final(After(s, rs[0]), rs[1..])
  }

  lemma NextRequest(s: State, rs: seq<Request>, i: nat)
    requires i < |rs| && AllServed(s, rs[i..])
    ensures var s' := After(s, rs[i]);
      && Served(s, rs[i]) && AllServed(s', rs[i + 1..]) && Final(s, rs[i..]) == Final(s', rs[i + 1..])
      && Replies(s, rs[i..]) == [Answer(Content(s, rs[i].engine), rs[i])] + Replies(s', rs[i + 1..])
  {
    assert rs[i..][0] == rs[i] && rs[i..][1..] == rs[i + 1..];
    hide Served, After, Answer;
  }

  lemma NoRequest(s: State, rs: seq<Request>)
    ensures rs[|rs|..] == [] && Final(s, rs[|rs|..]) == s && Replies(s, rs[|rs|..]) == []
  {
  }

  // ---------- the server ----------

  class Server {
    const tree: KvsRbtree.TreeStore
    const hash: KvsHash.HashTable

    ghost predicate Valid()
      reads this, tree, tree.inst, tree.inst.nil, tree.nodes, hash, hash.nodes, hash.repr
    {
      tree.Valid() && hash.Valid()
    }

    ghost function Stored(): State
      reads this, tree, hash
    {
      State(tree.store, hash.store)
    }

    /** init_kvengine. */
    constructor ()
      ensures Valid() && Stored() == State(map[], map[])
    {
      tree := new KvsRbtree.TreeStore();
      hash := new KvsHash.HashTable();
    }

    /** The tree half of kvs_filter_protocol. */
    method ServeTree(r: Request) returns (reply: Reply)
      requires Valid() && r.engine.Tree? && Served(Stored(), r)
      modifies tree`store, tree`nodes, tree.inst, tree.nodes
      ensures Valid() && fresh(tree.nodes - old(tree.nodes))
      ensures Stored() == After(old(Stored()), r) && reply == Answer(old(tree.store), r)
    {
      hide KvsRbtree.TreeStore.Valid, KvsHash.HashTable.Valid, KvsHash.Slot;
      match r.op
      case Set =>
        var ret := tree.Set(r.key, r.value);
        reply := if ret < 0 then SetError else if ret == 0 then Ok else Exists;
      case Get =>
        var result := tree.Get(r.key);
        reply := if result.None? then NoExist else Value(result.value);
      case Mod =>
        var ret := tree.Mod(r.key, r.value);
        reply := if ret < 0 then Error else if ret == 0 then Ok else NoExist;
      case Exist =>
        var ret := tree.Exist(r.key);
        reply := if ret == 0 then Exists else NoExist;
    }

    /** The hash half of kvs_filter_protocol. */
    method ServeHash(r: Request) returns (reply: Reply)
      requires Valid() && r.engine.Hash? && Served(Stored(), r)
      modifies hash`count, hash`chains, hash`store, hash`repr, hash.nodes, hash.repr
      ensures Valid() && fresh(hash.repr - old(hash.repr))
      ensures Stored() == After(old(Stored()), r) && reply == Answer(old(hash.store), r)
    {
      hide KvsRbtree.TreeStore.Valid, KvsHash.HashTable.Valid, KvsHash.Slot;
      match r.op
      case Set =>
        var ret := hash.Set(r.key, r.value);
        reply := if ret < 0 then Error else if ret == 0 then Ok else Exists;
      case Get =>
        var result := hash.Get(r.key);
        reply := if result.None? then NoExist else Value(result.value);
      case Del =>
        var ret := hash.Del(r.key);
        reply := if ret < 0 then Error else if ret == 0 then Ok else NoExist;
      case Mod =>
        var ret := hash.Mod(r.key, r.value);
        reply := if ret < 0 then Error else if ret == 0 then Ok else NoExist;
      case Exist =>
        var ret := hash.Exist(r.key);
        reply := if ret == 0 then Exists else NoExist;
    }

    /** kvs_filter_protocol for a whole stream of commands. */
    method Serve(rs: seq<Request>) returns (replies: seq<Reply>)
      requires Valid() && AllServed(Stored(), rs)
      modifies tree`store, tree`nodes, tree.inst, tree.nodes
      modifies hash`count, hash`chains, hash`store, hash`repr, hash.nodes, hash.repr
      ensures Valid() && Stored() == Final(old(Stored()), rs)
      ensures replies == Replies(old(Stored()), rs)
    {
      hide KvsRbtree.TreeStore.Valid, KvsHash.HashTable.Valid, KvsHash.Slot, Served, Answer, After, AllServed, Replies, Final;
      ghost var s := Stored();
      assert rs[0..] == rs;
      var i := 0;
      replies := [];
      while i < |rs|
        invariant 0 <= i <= |rs| && Valid()
        invariant fresh(tree.nodes - old(tree.nodes)) && fresh(hash.repr - old(hash.repr))
        invariant AllServed(Stored(), rs[i..])
        invariant replies + Replies(Stored(), rs[i..]) == Replies(s, rs)
        invariant Final(Stored(), rs[i..]) == Final(s, rs)
      {
        NextRequest(Stored(), rs, i);
        var reply;
        if rs[i].engine.Tree? {
          reply := ServeTree(rs[i]);
        } else {
          reply := ServeHash(rs[i]);
        }
        replies := replies + [reply];
        i := i + 1;
      }
      NoRequest(Stored(), rs);
    }
  }

  // ---------- what follows for clients ----------

  /** The request touches this key of this engine with something other than a read. */
  predicate Writes(r: Request, e: Engine, k: CString) {
    r.engine == e && r.key == Some(k) && (r.op.Set? || r.op.Mod? || r.op.Del?)
  }

  /** What was stored is read back, whatever is asked of other keys and of the other engine in between. */
  lemma {:induction false} ReadBack(s: State, rs: seq<Request>, e: Engine, k: CString)
    requires forall i :: 0 <= i < |rs| ==> !Writes(rs[i], e, k)
    ensures var m, m' := Content(s, e), Content(Final(s, rs), e);
            (k in m <==> k in m') && (k in m ==> m'[k] == m[k])
    decreases |rs|
  {
    if rs != [] {
      assert !Writes(rs[0], e, k);
      ReadBack(After(s, rs[0]), rs[1..], e, k);
    }
  }

  /** What a key holds, as a client finds out: every later GET, EXIST, MOD, DEL and SET tells it. */
  ghost predicate Holds(s: State, e: Engine, k: CString, v: CString) {
    forall r: Request :: r.engine == e && r.key == Some(k) ==>
      var m := Content(s, e);
      && (r.op.Get? ==> Answer(m, r) == Value(v)) && (r.op.Exist? ==> Answer(m, r) == Exists)
      && (r.value.Some? && r.op.Mod? ==> Answer(m, r) == Ok) && (r.op.Del? ==> Answer(m, r) == Ok)
      && (r.value.Some? && r.op.Set? ==> Answer(m, r) == Exists)
  }

  ghost predicate Lacks(s: State, e: Engine, k: CString) {
    forall r: Request :: r.engine == e && r.key == Some(k) ==>
      var m := Content(s, e);
      && (r.op.Get? ==> Answer(m, r) == NoExist) && (r.op.Exist? ==> Answer(m, r) == NoExist)
      && (r.value.Some? && r.op.Mod? ==> Answer(m, r) == NoExist) && (r.op.Del? ==> Answer(m, r) == Error)
      && (r.value.Some? && r.op.Set? ==> Answer(m, r) == Ok)
  }

  lemma HoldsIf(s: State, e: Engine, k: CString)
    ensures k in Content(s, e) ==> Holds(s, e, k, Content(s, e)[k])
    ensures k !in Content(s, e) ==> Lacks(s, e, k)
  {
  }

  /** In the beginning no key is there. */
  lemma FirstLacks(e: Engine, k: CString)
    ensures Lacks(State(map[], map[]), e, k)
  {
  }

  /** A SET or MOD that is answered "ok" makes every later request find its value, until the key is written again. */
  lemma StoredIsFound(s: State, r: Request, rs: seq<Request>)
    requires (r.op.Set? || r.op.Mod?) && r.value.Some? && Answer(Content(s, r.engine), r) == Ok
    requires forall i :: 0 <= i < |rs| ==> !Writes(rs[i], r.engine, r.key.value)
    ensures Holds(Final(After(s, r), rs), r.engine, r.key.value, r.value.value)
  {
    ReadBack(After(s, r), rs, r.engine, r.key.value);
    HoldsIf(Final(After(s, r), rs), r.engine, r.key.value);
  }

  /** A SET that is answered "ok" makes the later GET answer with its value, and a second SET "exist". */
  lemma SetThenGet(s: State, r: Request, rs: seq<Request>)
    requires r.op.Set? && Answer(Content(s, r.engine), r) == Ok
    requires forall i :: 0 <= i < |rs| ==> !Writes(rs[i], r.engine, r.key.value)
    ensures var m := Content(Final(After(s, r), rs), r.engine);
            && Answer(m, r.(op := Get)) == Value(r.value.value)
            && Answer(m, r.(op := Exist)) == Exists && Answer(m, r) == Exists
  {
    ReadBack(After(s, r), rs, r.engine, r.key.value);
  }

  /** A MOD that is answered "ok" makes every later GET answer with its value until the key is written again. */
  lemma ModThenGet(s: State, r: Request, rs: seq<Request>)
    requires r.op.Mod? && r.value.Some? && Answer(Content(s, r.engine), r) == Ok
    requires forall i :: 0 <= i < |rs| ==> !Writes(rs[i], r.engine, r.key.value)
    ensures Answer(Content(Final(After(s, r), rs), r.engine), r.(op := Get)) == Value(r.value.value)
  {
    ReadBack(After(s, r), rs, r.engine, r.key.value);
  }

  /** After a DEL answered "ok" GET, EXIST and MOD answer "no exist" and DEL "error", until the key is written again. */
  lemma DelThenGone(s: State, r: Request, rs: seq<Request>)
    requires r.op.Del? && Answer(Content(s, r.engine), r) == Ok
    requires forall i :: 0 <= i < |rs| ==> !Writes(rs[i], r.engine, r.key.value)
    ensures Lacks(Final(After(s, r), rs), r.engine, r.key.value)
  {
    ReadBack(After(s, r), rs, r.engine, r.key.value);
    HoldsIf(Final(After(s, r), rs), r.engine, r.key.value);
  }

  /** A GET, an EXIST, and whatever else is not answered "ok" change nothing. */
  lemma OnlyOkChanges(s: State, r: Request)
    requires r.op.Get? || r.op.Exist? || Answer(Content(s, r.engine), r) != Ok
    ensures After(s, r) == s
  {
    var m := Content(s, r.engine);
    assert r.key.Some? && r.key.value !in m ==> m - {r.key.value} == m;
  }

  /** The words for a missing argument. */
  lemma Refusals(m: map<CString, CString>, r: Request)
    requires r.key.None?
    ensures r.op.Set? ==> Answer(m, r) == if r.engine.Tree? then SetError else Error
    ensures r.op.Mod? || r.op.Del? ==> Answer(m, r) == Error
    ensures r.op.Get? || r.op.Exist? ==> Answer(m, r) == NoExist
  {
  }
}
