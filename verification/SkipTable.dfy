/** The skip list of kvs_skiptable.c, for any outcome of the coin that chooses the levels. */
module SkipTable {

  const MAX_LEVEL := 6

  class Node {
    const key: int
    const value: int
    const forward: array<Node?>

    constructor (level: nat, key: int, value: int)
      ensures this.key == key && this.value == value
      ensures fresh(forward) && forward.Length == level + 1
    {
      this.key, this.value := key, value;
      forward := new Node?[level + 1];
    }
  }


  function Nth(c: seq<Node>, j: nat): Node? { if j < |c| then c[j] else null }

  ghost predicate Reaches(n: Node, i: nat) { i < n.forward.Length }

  /** The first place from `j` on of a node that is tall enough for level `i`. */
  ghost function NextTall(c: seq<Node>, j: nat, i: nat): (r: nat)
    requires j <= |c|
    ensures j <= r <= |c| && (r < |c| ==> Reaches(c[r], i))
    ensures forall k :: j <= k < r ==> !Reaches(c[k], i)
    decreases |c| - j
  {
    if j == |c| || Reaches(c[j], i) then j else NextTall(c, j + 1, i)
  }

  /** What the nodes of `c` hold, as a value: the forward slots of each node. */
  ghost function Towers(c: seq<Node>): map<Node, seq<Node?>>
    reads set n | n in c :: n.forward
  {
    map n | n in c :: n.forward[..]
  }

  /** `c` is the header followed by all nodes in order. Every slot of every node leads to the next node
      that is tall enough to have that slot. */
  ghost predicate Linked(c: seq<Node>, m: map<Node, seq<Node?>>) {
    && (forall n :: n in c ==> n in m && |m[n]| == n.forward.Length)
    && (forall j, i :: 0 <= j < |c| && 0 <= i < |m[c[j]]| ==> m[c[j]][i] == Nth(c, NextTall(c, j + 1, i)))
  }

  /** No node occurs twice, nodes have slots of their own, keys ascend, and nobody is taller than `level`. */
  ghost predicate Ordered(c: seq<Node>, level: int) {
    && |c| > 0 && 0 <= level <= MAX_LEVEL && c[0].forward.Length == MAX_LEVEL + 1
    && (forall j, k :: 0 <= j < k < |c| ==> c[j] != c[k] && c[j].forward != c[k].forward)
    && (forall j, k :: 1 <= j < k < |c| ==> c[j].key < c[k].key)
    && (forall j :: 1 <= j < |c| ==> 1 <= c[j].forward.Length <= level + 1)
  }

  /** `c[u]` is the last node before place `p` that reaches level `i`. */
  ghost predicate LastTall(c: seq<Node>, p: nat, i: nat, u: nat) {
    u < p <= |c| && Reaches(c[u], i) && NextTall(c, u + 1, i) >= p
  }

  function With(c: seq<Node>, p: nat, n: Node): seq<Node>
    requires p <= |c|
  {
    c[..p] + [n] + c[p..]
  }

  /** What `n` at place `p` does to the next tall node, seen from a place before it ... */
  lemma {:induction false} NextBefore(c: seq<Node>, p: nat, n: Node, j: nat, i: nat)
    requires j <= p <= |c|
    ensures var r := NextTall(c, j, i);
      NextTall(With(c, p, n), j, i) == if r < p then r else if Reaches(n, i) then p else r + 1
    decreases p - j
  {
    var c' := With(c, p, n);
    if j == p {
      NextAfter(c, p, n, p, i);
    } else {
      assert c'[j] == c[j];
      if !Reaches(c[j], i) { NextBefore(c, p, n, j + 1, i); }
    }
  }

  /** ... and from a place after it. */
  lemma {:induction false} NextAfter(c: seq<Node>, p: nat, n: Node, j: nat, i: nat)
    requires p <= j <= |c|
    ensures NextTall(With(c, p, n), j + 1, i) == NextTall(c, j, i) + 1
    decreases |c| - j
  {
    if j < |c| {
      assert With(c, p, n)[j + 1] == c[j];
      if !Reaches(c[j], i) { NextAfter(c, p, n, j + 1, i); }
    }
  }

  function Patched(was: Node?, n: Node, us: seq<nat>, j: nat, i: nat): Node? {
    if i < |us| && us[i] == j then n else was
  }

  /** The writes of an insertion: on every level the new node reaches, it goes behind `us[i]`. */
  ghost predicate Spliced(c: seq<Node>, m: map<Node, seq<Node?>>, m': map<Node, seq<Node?>>, n: Node, us: seq<nat>) {
    && n in m' && |us| == |m'[n]| == n.forward.Length
    && (forall x :: x in c ==> x in m && x in m' && |m'[x]| == |m[x]|)
    && (forall i :: 0 <= i < |us| ==> us[i] < |c| && i < |m[c[us[i]]]| && m'[n][i] == m[c[us[i]]][i])
    && (forall j, i :: 0 <= j < |c| && 0 <= i < |m[c[j]]| ==>
          m'[c[j]][i] == Patched(m[c[j]][i], n, us, j, i))
  }

  lemma StopsAtTall(c: seq<Node>, j: nat, u: nat, i: nat)
    requires j <= u < |c| && Reaches(c[u], i)
    ensures NextTall(c, j, i) <= u
  {
    hide NextTall;
  }

  lemma LastIsLast(c: seq<Node>, p: nat, i: nat, u: nat, j: nat)
    requires LastTall(c, p, i, u) && j < p && Reaches(c[j], i)
    ensures j <= u && (j < u ==> NextTall(c, j + 1, i) <= u)
  {
    if j < u { StopsAtTall(c, j + 1, u, i); }
  }

  lemma NthShifts(c: seq<Node>, p: nat, n: Node, r: nat)
    requires p <= |c| && r <= |c|
    ensures r < p ==> Nth(With(c, p, n), r) == Nth(c, r)
    ensures p <= r ==> Nth(With(c, p, n), r + 1) == Nth(c, r)
    ensures Nth(With(c, p, n), p) == n
  {
  }

  lemma {:induction false} SkipShort(c: seq<Node>, j: nat, p: nat, i: nat)
    requires j <= p <= |c| && NextTall(c, j, i) >= p
    ensures NextTall(c, j, i) == NextTall(c, p, i)
    decreases p - j
  {
    if j < p { SkipShort(c, j + 1, p, i); }
  }

  ghost predicate Splicing(c: seq<Node>, m: map<Node, seq<Node?>>, m': map<Node, seq<Node?>>, n: Node, us: seq<nat>, p: nat) {
    && Linked(c, m) && Spliced(c, m, m', n, us) && p <= |c|
    && (forall i :: 0 <= i < |us| ==> LastTall(c, p, i, us[i]))
  }

  /** What is known about slot `i` of the node at `j`, before and after. */
  lemma SlotFacts(c: seq<Node>, m: map<Node, seq<Node?>>, m': map<Node, seq<Node?>>, n: Node, us: seq<nat>, p: nat, j: nat, i: nat)
    requires Splicing(c, m, m', n, us, p) && j < |c| && i < |m[c[j]]|
    ensures Reaches(c[j], i) && m[c[j]][i] == Nth(c, NextTall(c, j + 1, i)) && (Reaches(n, i) <==> i < |us|)
    ensures c[j] in m' && i < |m'[c[j]]|
    ensures m'[c[j]][i] == Patched(m[c[j]][i], n, us, j, i)
    ensures i < |us| ==> LastTall(c, p, i, us[i])
  {
    hide NextTall, Nth, LastTall;
  }

  lemma SpliceBefore(c: seq<Node>, m: map<Node, seq<Node?>>, m': map<Node, seq<Node?>>, n: Node, us: seq<nat>, p: nat, j: nat, i: nat)
    requires Splicing(c, m, m', n, us, p) && j < p && i < |m[c[j]]|
    ensures c[j] in m' && i < |m'[c[j]]| && m'[c[j]][i] == Nth(With(c, p, n), NextTall(With(c, p, n), j + 1, i))
  {
    SlotFacts(c, m, m', n, us, p, j, i);
    var r := NextTall(c, j + 1, i);
    NextBefore(c, p, n, j + 1, i);
    NthShifts(c, p, n, r);
    hide Splicing, With, Nth, NextTall, Reaches;
    if i < |us| && us[i] != j {
      var u := us[i];
      LastIsLast(c, p, i, u, j);
    }
  }

  lemma SpliceAt(c: seq<Node>, m: map<Node, seq<Node?>>, m': map<Node, seq<Node?>>, n: Node, us: seq<nat>, p: nat, i: nat)
    requires Splicing(c, m, m', n, us, p) && i < |us|
    ensures n in m' && i < |m'[n]| && m'[n][i] == Nth(With(c, p, n), NextTall(With(c, p, n), p + 1, i))
  {
    var u := us[i];
    assert LastTall(c, p, i, u) && u < |c| && i < |m[c[u]]| && n in m' && i < |m'[n]| && m'[n][i] == m[c[u]][i] by {
      hide Nth, NextTall, LastTall;
    }
    SlotFacts(c, m, m', n, us, p, u, i);
    hide Splicing, With, Nth, NextTall;
    NextAfter(c, p, n, p, i);
    NthShifts(c, p, n, NextTall(c, p, i));
    SkipShort(c, u + 1, p, i);
  }

  lemma SpliceAfter(c: seq<Node>, m: map<Node, seq<Node?>>, m': map<Node, seq<Node?>>, n: Node, us: seq<nat>, p: nat, j: nat, i: nat)
    requires Splicing(c, m, m', n, us, p) && p <= j < |c| && i < |m[c[j]]|
    ensures c[j] in m' && i < |m'[c[j]]| && m'[c[j]][i] == Nth(With(c, p, n), NextTall(With(c, p, n), j + 2, i))
  {
    SlotFacts(c, m, m', n, us, p, j, i);
    hide Splicing, With, Nth, NextTall;
    NextAfter(c, p, n, j + 1, i);
    NthShifts(c, p, n, NextTall(c, j + 1, i));
  }

  lemma SpliceLinks(c: seq<Node>, m: map<Node, seq<Node?>>, m': map<Node, seq<Node?>>, n: Node, us: seq<nat>, p: nat)
    requires Splicing(c, m, m', n, us, p)
    ensures Linked(With(c, p, n), m')
  {
    var c' := With(c, p, n);
    forall j, i | 0 <= j < |c'| && 0 <= i < |m'[c'[j]]| ensures m'[c'[j]][i] == Nth(c', NextTall(c', j + 1, i)) {
      if j < p {
        SpliceBefore(c, m, m', n, us, p, j, i);
      } else if j == p {
        SpliceAt(c, m, m', n, us, p, i);
      } else {
        SpliceAfter(c, m, m', n, us, p, j - 1, i);
      }
    }
  }

  // ---------- the levels ----------

  /** The nodes of `s` that are tall enough for level `i`, in order. */
  ghost function Tall(s: seq<Node>, i: nat): seq<Node> {
    if s == [] then [] else (if Reaches(s[0], i) then [s[0]] else []) + Tall(s[1..], i)
  }

  /** Level `i` has exactly the nodes that are tall enough for it. */
  lemma {:induction false} OnLevel(s: seq<Node>, i: nat, n: Node)
    ensures n in Tall(s, i) <==> n in s && Reaches(n, i)
  {
    if s != [] {
      OnLevel(s[1..], i, n);
      assert s == [s[0]] + s[1..];
    }
  }

  /** Each level is what the level below has of taller nodes. */
  lemma {:induction false} LevelsNest(s: seq<Node>, i: nat, k: nat)
    requires i <= k
    ensures Tall(Tall(s, i), k) == Tall(s, k)
  {
    if s != [] {
      LevelsNest(s[1..], i, k);
      if Reaches(s[0], i) {
        assert Tall(s, i)[0] == s[0] && Tall(s, i)[1..] == Tall(s[1..], i);
      } else {
        assert Tall(s, i) == Tall(s[1..], i) && Tall(s, k) == Tall(s[1..], k);
      }
    }
  }

  lemma {:induction false} TallAscends(s: seq<Node>, i: nat)
    requires forall j, k :: 0 <= j < k < |s| ==> s[j].key < s[k].key
    ensures forall n :: n in Tall(s, i) ==> n in s
    ensures forall j, k :: 0 <= j < k < |Tall(s, i)| ==> Tall(s, i)[j].key < Tall(s, i)[k].key
  {
    if s != [] {
      TallAscends(s[1..], i);
      forall n | n in Tall(s, i) ensures n in s {
        if n != s[0] { assert n in Tall(s[1..], i); }
      }
      assert forall n :: n in Tall(s[1..], i) ==> s[0].key < n.key;
    }
  }

  lemma {:induction false} TallFrom(c: seq<Node>, j: nat, i: nat)
    requires j <= |c|
    ensures var r := NextTall(c, j, i);
      Tall(c[j..], i) == if r == |c| then [] else [c[r]] + Tall(c[r + 1..], i)
    decreases |c| - j
  {
    if j < |c| {
      assert c[j..][0] == c[j] && c[j..][1..] == c[j + 1..];
      if !Reaches(c[j], i) { TallFrom(c, j + 1, i); }
    }
  }

  /** The nodes of a level from place `u` on, where one of them stands. */
  ghost function Onward(c: seq<Node>, u: nat, i: nat): seq<Node> {
    if u < |c| then [c[u]] + Tall(c[u + 1..], i) else []
  }

  lemma OnwardStarts(row: seq<Node>, c: seq<Node>, i: nat)
    requires |c| > 0 && row == []
    ensures Tall(c[1..], i) == row + Onward(c, NextTall(c, 1, i), i)
  {
    hide Tall, NextTall;
    TallFrom(c, 1, i);
  }

  lemma OnwardEnds(row: seq<Node>, c: seq<Node>, u: nat, i: nat)
    requires u >= |c|
    ensures row + Onward(c, u, i) == row
  {
  }

  lemma RowStep(row: seq<Node>, c: seq<Node>, u: nat, i: nat)
    requires u < |c|
    ensures row + Onward(c, u, i) == row + [c[u]] + Onward(c, NextTall(c, u + 1, i), i)
  {
    hide Tall, NextTall;
    TallFrom(c, u + 1, i);
    var r := NextTall(c, u + 1, i);
    assert Tall(c[u + 1..], i) == Onward(c, r, i);
  }

  // ---------- the operations ----------

  /** The level a coin gives: every toss below it was won, the next one lost, unless it is the highest there is. */
  ghost predicate TopBy(coin: nat -> bool, l: int) {
    0 <= l <= MAX_LEVEL && (forall k: nat :: k < l ==> coin(k)) && (l == MAX_LEVEL || !coin(l))
  }

  function Higher(a: int, b: int): int { if a < b then b else a }

  ghost predicate KeyIn(c: seq<Node>, key: int) {
    exists j :: 1 <= j < |c| && c[j].key == key
  }

  class SkipList {
    var level: int
    const header: Node
    ghost var nodes: seq<Node>  // the header, then the nodes in the order of level 0

    constructor ()
      ensures Valid() && nodes == [header] && fresh(header) && fresh(header.forward)
    {
      level := 0;
      header := new Node(MAX_LEVEL, -1, -1);
      nodes := [];
      new;
      nodes := [header];
      for i := 0 to MAX_LEVEL + 1
        invariant header.forward.Length == MAX_LEVEL + 1 && level == 0 && nodes == [header]
        invariant fresh(header) && fresh(header.forward)
        invariant forall k :: 0 <= k < i ==> header.forward[k] == null
      {
        header.forward[i] := null;
      }
    }

    ghost predicate Valid()
      reads this, set n | n in nodes :: n.forward
    {
      && Ordered(nodes, level) && nodes[0] == header && Linked(nodes, Towers(nodes))
    }

    /** What slot `i` of the node at place `j` holds. */
    lemma Slot(j: nat, i: nat)
      requires Valid() && j < |nodes| && Reaches(nodes[j], i)
      ensures nodes[j].forward[i] == Nth(nodes, NextTall(nodes, j + 1, i))
    {
      assert Towers(nodes)[nodes[j]][i] == nodes[j].forward[i];
    }

    /** Level `i` is left at place `u`: the node there is below the key, the next one on that level is not. */
    ghost predicate LeftAt(key: int, i: nat, u: nat)
      reads this`nodes
    {
      && u < |nodes| && Reaches(nodes[u], i) && (0 < u ==> nodes[u].key < key)
      && var r := NextTall(nodes, u + 1, i); r < |nodes| ==> nodes[r].key >= key
    }

    lemma NextOnGround(u: nat)
      requires Valid() && u < |nodes|
      ensures NextTall(nodes, u + 1, 0) == u + 1
    {
      hide Linked;
      assert u + 1 < |nodes| ==> Reaches(nodes[u + 1], 0);
    }

    /** Leaving level 0 at `u` fixes the place of the key. */
    lemma PlaceFound(key: int, u: nat)
      requires Valid() && LeftAt(key, 0, u)
      ensures forall k :: u < k < |nodes| ==> nodes[k].key >= key
      ensures forall k :: 1 <= k <= u ==> nodes[k].key < key
    {
      NextOnGround(u);
      hide Linked, NextTall, Reaches;
    }

    /** Every level was left right before that place. */
    lemma LeftBefore(key: int, i: nat, u: nat, u0: nat)
      requires Valid() && LeftAt(key, i, u) && LeftAt(key, 0, u0)
      ensures LastTall(nodes, u0 + 1, i, u)
    {
      PlaceFound(key, u0);
      hide Linked, NextTall, Reaches;
    }

    /** The inner loop of insert and search: along level `i` while the next key is smaller. */
    method Walk(key: int, i: nat, from: Node, ghost j: nat) returns (current: Node, ghost u: nat)
      requires Valid() && j < |nodes| && from == nodes[j] && Reaches(from, i) && (0 < j ==> from.key < key)
      ensures LeftAt(key, i, u) && current == nodes[u]
    {
      current, u := from, j;
      Slot(u, i);
      while current.forward[i] != null && current.forward[i].key < key
        invariant u < |nodes| && current == nodes[u] && Reaches(current, i) && (0 < u ==> current.key < key)
        invariant current.forward[i] == Nth(nodes, NextTall(nodes, u + 1, i))
        decreases |nodes| - u
      {
        current := current.forward[i];
        u := NextTall(nodes, u + 1, i);
        Slot(u, i);
      }
    }

    /** The walk of display along one level. */
    method DisplayLevel(i: nat) returns (row: seq<Node>)
      requires Valid() && i <= level
      ensures row == Tall(nodes[1..], i)
      ensures forall j, k :: 0 <= j < k < |row| ==> row[j].key < row[k].key
    {
      hide Linked, Ordered, NextTall, Tall, Valid, Onward;
      Rising();
      TallAscends(nodes[1..], i);
      row := [];
      Slot(0, i);
      OnwardStarts(row, nodes, i);
      var node := header.forward[i];
      ghost var u: nat := NextTall(nodes, 1, i);
      while node != null
        invariant u <= |nodes| && node == Nth(nodes, u) && (node != null ==> Reaches(node, i))
        invariant Tall(nodes[1..], i) == row + Onward(nodes, u, i)
        decreases |nodes| - u
      {
        RowStep(row, nodes, u, i);
        row := row + [node];
        Slot(u, i);
        node := node.forward[i];
        u := NextTall(nodes, u + 1, i);
      }
      OnwardEnds(row, nodes, u, i);
    }

    lemma Rising()
      requires Valid()
      ensures |nodes| > 0 && nodes[0] == header && Reaches(header, level) && level >= 0
      ensures forall j, k :: 0 <= j < k < |nodes[1..]| ==> nodes[1..][j].key < nodes[1..][k].key
    {
      hide Linked;
    }

    ghost predicate HasKey(key: int)
      reads this`nodes
    {
      KeyIn(nodes, key)
    }

    /** search: true exactly for the keys in the list, and then with the value stored under the key. */
    method Search(key: int) returns (found: bool, value: int)
      requires Valid()
      ensures found <==> HasKey(key)
      ensures found ==> exists j :: 1 <= j < |nodes| && nodes[j].key == key && nodes[j].value == value
    {
      hide Linked, NextTall;
      var current := header;
      ghost var u: nat := 0;
      var i := level;
      while i >= 0
        invariant -1 <= i <= level && u < |nodes| && current == nodes[u] && (0 < u ==> current.key < key)
        invariant i >= 0 ==> Reaches(current, i)
        invariant i < 0 ==> LeftAt(key, 0, u)
      {
        current, u := Walk(key, i, current, u);
        i := i - 1;
      }
      PlaceFound(key, u);
      NextOnGround(u);
      Slot(u, 0);
      var next := current.forward[0];
      if next != null && next.key == key {
        return true, next.value;
      }
      return false, 0;
    }

    /** The loop of insert that hangs `n` into every level it reaches. */
    method Splice(n: Node, update: array<Node>, top: nat, ghost us: seq<nat>)
      requires Ordered(nodes, level) && n !in nodes && forall x :: x in nodes ==> x.forward != n.forward
      requires n.forward.Length == top + 1 == |us| && top < update.Length
      requires forall i :: 0 <= i <= top ==> us[i] < |nodes| && update[i] == nodes[us[i]] && i < nodes[us[i]].forward.Length
      modifies n.forward, set x | x in nodes :: x.forward
      ensures forall i :: 0 <= i <= top ==> n.forward[i] == old(nodes[us[i]].forward[i])
      ensures forall j, i :: 0 <= j < |nodes| && 0 <= i < nodes[j].forward.Length ==>
        nodes[j].forward[i] == Patched(old(nodes[j].forward[i]), n, us, j, i)
    {
      for k := 0 to top + 1
        invariant forall i :: 0 <= i < k ==> n.forward[i] == old(nodes[us[i]].forward[i])
        invariant forall j, i :: 0 <= j < |nodes| && 0 <= i < nodes[j].forward.Length ==>
          nodes[j].forward[i] == if i < k then Patched(old(nodes[j].forward[i]), n, us, j, i) else old(nodes[j].forward[i])
      {
        n.forward[k] := update[k].forward[k];
        update[k].forward[k] := n;
      }
    }

    /** randomLevel: the number of coins won before the first one lost, at most MAX_LEVEL. */
    method RandomLevel(coin: nat -> bool) returns (l: nat)
      ensures TopBy(coin, l)
    {
      l := 0;
      while coin(l) && l < MAX_LEVEL
        invariant l <= MAX_LEVEL && forall k :: 0 <= k < l ==> coin(k)
      {
        l := l + 1;
      }
    }

    /** The first loop of insert: where each level in use is left. */
    method FindPlaces(key: int, update: array<Node>) returns (ghost us: seq<nat>)
      requires Valid() && update.Length == MAX_LEVEL + 1
      modifies update
      ensures |us| == MAX_LEVEL + 1
      ensures forall i :: 0 <= i <= level ==> LeftAt(key, i, us[i]) && update[i] == nodes[us[i]]
    {
      hide Linked, NextTall;
      var current := header;
      ghost var u: nat := 0;
      us := seq(MAX_LEVEL + 1, _ => 0);
      var i := level;
      while i >= 0
        invariant -1 <= i <= level && |us| == MAX_LEVEL + 1 && Valid()
        invariant u < |nodes| && current == nodes[u] && (0 < u ==> current.key < key)
        invariant i >= 0 ==> Reaches(current, i)
        invariant forall k :: i < k <= level ==> LeftAt(key, k, us[k]) && update[k] == nodes[us[k]]
      {
        current, u := Walk(key, i, current, u);
        update[i] := current;
        us := us[i := u];
        i := i - 1;
      }
    }

    /** A level above the old top is left at the header. */
    lemma HeaderIsLast(i: nat, p: nat)
      requires Valid() && level < i <= MAX_LEVEL && 1 <= p <= |nodes|
      ensures LastTall(nodes, p, i, 0)
    {
      hide Linked, NextTall;
    }

    /** The new node takes its place in the list. */
    ghost method Adopt(n: Node, p: nat, top: nat, us: seq<nat>, m: map<Node, seq<Node?>>)
      requires Ordered(nodes, level) && nodes[0] == header && n !in nodes && 1 <= p <= |nodes| && top <= level
      requires forall x :: x in nodes ==> x.forward != n.forward
      requires n.forward.Length == top + 1 == |us|
      requires forall k :: p <= k < |nodes| ==> nodes[k].key > n.key
      requires forall k :: 1 <= k < p ==> nodes[k].key < n.key
      requires Splicing(nodes, m, Towers(With(nodes, p, n)), n, us, p)
      modifies this`nodes
      ensures Valid() && nodes == With(old(nodes), p, n)
    {
      SpliceLinks(nodes, m, Towers(With(nodes, p, n)), n, us, p);
      WithOrdered(nodes, p, n, level);
      nodes := With(nodes, p, n);
    }

    /** The writes for the levels above the old top, which start at the header. */
    method RaiseTop(top: nat, update: array<Node>)
      requires update.Length == MAX_LEVEL + 1 && top <= MAX_LEVEL && level >= 0
      modifies update, this`level
      ensures level == Higher(old(level), top)
      ensures forall k :: 0 <= k <= top ==> update[k] == if k <= old(level) then old(update[k]) else header
    {
      if top > level {
        for i := level + 1 to top + 1
          invariant level == old(level)
          invariant forall k :: 0 <= k <= top ==> update[k] == if level < k < i then header else old(update[k])
        {
          update[i] := header;
        }
        level := top;
      }
    }

    /** Where the nodes stand from which the new one will hang on each of its levels. */
    lemma Hangers(top: nat, us: seq<nat>, p: nat) returns (vs: seq<nat>)
      requires Valid() && |us| == MAX_LEVEL + 1 && top <= MAX_LEVEL && 1 <= p <= |nodes|
      requires forall i :: 0 <= i <= level ==> LastTall(nodes, p, i, us[i])
      ensures |vs| == top + 1 && forall i :: 0 <= i <= top ==> vs[i] == if i <= level then us[i] else 0
      ensures forall i :: 0 <= i <= top ==>
        LastTall(nodes, p, i, vs[i]) && vs[i] < |nodes| && i < nodes[vs[i]].forward.Length
    {
      hide Linked, NextTall;
      var low := level;
      vs := seq(top + 1, i requires 0 <= i <= top => if i <= low then us[i] else 0);
      forall i | 0 <= i <= top
        ensures LastTall(nodes, p, i, vs[i]) && vs[i] < |nodes| && i < nodes[vs[i]].forward.Length
      {
        if i > level { HeaderIsLast(i, p); }
      }
    }

    lemma StillOrdered(c: seq<Node>, low: int, high: int)
      requires Ordered(c, low) && low <= high <= MAX_LEVEL
      ensures Ordered(c, high)
    {
    }

    /** The levels above the old top start at the header. */
    method Raise(top: nat, update: array<Node>, ghost us: seq<nat>, ghost p: nat) returns (ghost vs: seq<nat>)
      requires Valid() && update.Length == |us| == MAX_LEVEL + 1 && top <= MAX_LEVEL && 1 <= p <= |nodes|
      requires forall i :: 0 <= i <= level ==> LastTall(nodes, p, i, us[i]) && update[i] == nodes[us[i]]
      modifies update, this`level
      ensures level == Higher(old(level), top) && Ordered(nodes, level)
      ensures |vs| == top + 1
      ensures forall i :: 0 <= i <= top ==>
        LastTall(nodes, p, i, vs[i]) && vs[i] < |nodes| && update[i] == nodes[vs[i]] && i < nodes[vs[i]].forward.Length
    {
      StillOrdered(nodes, level, if top > level then top else level);
      hide Linked, NextTall, LastTall, Reaches;
      vs := Hangers(top, us, p);
      RaiseTop(top, update);
    }

    method AddNode(key: int, value: int, top: nat, update: array<Node>, ghost us: seq<nat>, ghost p: nat)
      requires Valid() && update.Length == |us| == MAX_LEVEL + 1 && top <= MAX_LEVEL && 1 <= p <= |nodes|
      requires forall i :: 0 <= i <= level ==> LastTall(nodes, p, i, us[i]) && update[i] == nodes[us[i]]
      requires forall k :: p <= k < |nodes| ==> nodes[k].key > key
      requires forall k :: 1 <= k < p ==> nodes[k].key < key
      modifies this, update, set x | x in nodes :: x.forward
      ensures Valid() && p < |nodes| && fresh(nodes[p]) && fresh(nodes[p].forward)
      ensures nodes == With(old(nodes), p, nodes[p]) && nodes[p].key == key && nodes[p].value == value
      ensures nodes[p].forward.Length == top + 1 && level == Higher(old(level), top)
    {
      hide NextTall, Linked, Spliced, LeftAt, LastTall, Reaches, Ordered, Towers;
      TowersHold(nodes);
      ghost var c, m := nodes, Towers(nodes);
      ghost var vs := Raise(top, update, us, p);
      var n := new Node(top, key, value);
      Splice(n, update, top, vs);
      SplicedNow(c, p, m, n, vs);
      Adopt(n, p, top, vs, m);
    }

    /** What the walk down has found out about the key. */
    lemma PlaceOf(key: int, us: seq<nat>)
      requires Valid() && |us| == MAX_LEVEL + 1 && forall i :: 0 <= i <= level ==> LeftAt(key, i, us[i])
      ensures var p := us[0] + 1;
        && p <= |nodes| && Reaches(nodes[us[0]], 0) && nodes[us[0]].forward[0] == Nth(nodes, p)
        && (forall i :: 0 <= i <= level ==> LastTall(nodes, p, i, us[i]))
        && (HasKey(key) <==> p < |nodes| && nodes[p].key == key)
        && (forall k :: 1 <= k < p ==> nodes[k].key < key)
        && (!HasKey(key) ==> forall k :: p <= k < |nodes| ==> nodes[k].key > key)
    {
      PlaceFound(key, us[0]);
      NextOnGround(us[0]);
      Slot(us[0], 0);
      forall i | 0 <= i <= level ensures LastTall(nodes, us[0] + 1, i, us[i]) {
        LeftBefore(key, i, us[i], us[0]);
      }
      hide Linked, NextTall, LastTall, LeftAt;
      assert forall k :: 1 <= k < |nodes| ==> (nodes[k].key == key ==> us[0] + 1 <= k);
    }

    /** insert, for any coin: a new key gets a node at its place, as tall as the coin says; a key that is
        there already changes nothing. */
    method Insert(key: int, value: int, coin: nat -> bool) returns (ok: bool, ghost p: nat)
      requires Valid()
      modifies this, set x | x in nodes :: x.forward
      ensures Valid() && (ok <==> !old(HasKey(key)))
      ensures !ok ==> nodes == old(nodes) && level == old(level)
      ensures !ok ==> forall x :: x in nodes ==> x.forward[..] == old(x.forward[..])
      ensures ok ==> 1 <= p <= |old(nodes)| && p < |nodes| && fresh(nodes[p]) && fresh(nodes[p].forward)
                     && nodes == With(old(nodes), p, nodes[p]) && nodes[p].key == key && nodes[p].value == value
      ensures ok ==> TopBy(coin, nodes[p].forward.Length - 1) && level == Higher(old(level), nodes[p].forward.Length - 1)
    {
      hide Linked, NextTall, LastTall, LeftAt, HasKey;
      var update := new Node[MAX_LEVEL + 1](_ => header);
      ghost var us := FindPlaces(key, update);
      PlaceOf(key, us);
      p := us[0] + 1;
      var current := update[0].forward[0];
      if current == null || current.key != key {
        var top := RandomLevel(coin);
        AddNode(key, value, top, update, us, p);
        ok := true;
      } else {
        ok := false;
      }
    }
  }

  lemma TowersHold(c: seq<Node>)
    ensures forall x :: x in c ==> x in Towers(c) && Towers(c)[x] == x.forward[..]
  {
  }

  lemma SplicedNow(c: seq<Node>, p: nat, m: map<Node, seq<Node?>>, n: Node, us: seq<nat>)
    requires p <= |c| && |us| == n.forward.Length
    requires forall x :: x in c ==> x in m && |m[x]| == x.forward.Length
    requires forall i :: 0 <= i < |us| ==>
      us[i] < |c| && i < c[us[i]].forward.Length && n.forward[i] == m[c[us[i]]][i]
    requires forall j, i :: 0 <= j < |c| && 0 <= i < c[j].forward.Length ==>
      c[j].forward[i] == Patched(m[c[j]][i], n, us, j, i)
    ensures Spliced(c, m, Towers(With(c, p, n)), n, us)
  {
    var c' := With(c, p, n);
    assert c'[p] == n;
    assert forall j :: 0 <= j < |c| ==> c[j] == c'[if j < p then j else j + 1];
  }

  lemma WithOrdered(c: seq<Node>, p: nat, n: Node, level: nat)
    requires Ordered(c, level) && 1 <= p <= |c| && n !in c && 1 <= n.forward.Length <= level + 1
    requires forall x :: x in c ==> x.forward != n.forward
    requires forall k :: p <= k < |c| ==> c[k].key > n.key
    requires forall k :: 1 <= k < p ==> c[k].key < n.key
    ensures Ordered(With(c, p, n), level)
  {
    var c' := With(c, p, n);
    assert forall j :: 0 <= j < |c'| ==> c'[j] == if j < p then c[j] else if j == p then n else c[j - 1];
  }

  /** The contents after a run of inserts: the first value given for a key stays. */
  function FirstWins(run: seq<(int, int)>): map<int, int> {
    if run == [] then map[]
    else
      var m, last := FirstWins(run[..|run| - 1]), run[|run| - 1];
      if last.0 in m then m else m[last.0 := last.1]
  }

  ghost predicate Stores(c: seq<Node>, m: map<int, int>) {
    && (forall j :: 1 <= j < |c| ==> c[j].key in m && m[c[j].key] == c[j].value)
    && (forall k :: k in m <==> KeyIn(c, k))
  }

  lemma WithStores(c: seq<Node>, p: nat, n: Node, m: map<int, int>)
    requires 1 <= p <= |c| && Stores(c, m) && n.key !in m
    ensures Stores(With(c, p, n), m[n.key := n.value])
  {
    var c' := With(c, p, n);
    assert forall j :: 0 <= j < |c'| ==> c'[j] == if j < p then c[j] else if j == p then n else c[j - 1];
    assert c'[p].key == n.key;
    forall k | KeyIn(c, k) ensures KeyIn(c', k) {
      var j :| 1 <= j < |c| && c[j].key == k;
      assert c'[if j < p then j else j + 1].key == k;
    }
  }

  /** A run of inserts, with coins of its own for each of them. */
  method InsertAll(run: seq<(int, int)>, coins: nat -> nat -> bool) returns (list: SkipList)
    ensures list.Valid() && Stores(list.nodes, FirstWins(run))
    ensures forall k :: list.HasKey(k) <==> exists i :: 0 <= i < |run| && run[i].0 == k
  {
    hide Ordered, Linked, Stores, KeyIn, FirstWins;
    list := new SkipList();
    NoneStored(list.nodes);
    for i := 0 to |run|
      invariant list.Valid() && fresh(list) && Stores(list.nodes, FirstWins(run[..i]))
      invariant forall n :: n in list.nodes ==> fresh(n.forward)
    {
      ghost var c := list.nodes;
      RunStep(run, i);
      StoredKeys(c, FirstWins(run[..i]));
      var ok, p := list.Insert(run[i].0, run[i].1, coins(i));
      if ok {
        WithStores(c, p, list.nodes[p], FirstWins(run[..i]));
        assert forall n :: n in list.nodes ==> n in c || n == list.nodes[p];
      }
    }
    assert run[..|run|] == run;
    RunKeys(run);
    StoredKeys(list.nodes, FirstWins(run));
  }

  lemma NoneStored(c: seq<Node>)
    requires |c| == 1
    ensures Stores(c, FirstWins([]))
  {
  }

  lemma StoredKeys(c: seq<Node>, m: map<int, int>)
    requires Stores(c, m)
    ensures forall k :: k in m <==> KeyIn(c, k)
  {
  }

  lemma RunStep(run: seq<(int, int)>, i: nat)
    requires i < |run|
    ensures var m, last := FirstWins(run[..i]), run[i];
      FirstWins(run[..i + 1]) == if last.0 in m then m else m[last.0 := last.1]
  {
    assert run[..i + 1][..i] == run[..i];
  }

  lemma {:induction false} FirstValue(run: seq<(int, int)>, i: nat)
    requires i < |run| && forall j :: 0 <= j < i ==> run[j].0 != run[i].0
    ensures run[i].0 in FirstWins(run) && FirstWins(run)[run[i].0] == run[i].1
    decreases |run|
  {
    var init := run[..|run| - 1];
    if i < |run| - 1 {
      FirstValue(init, i);
    } else {
      RunKeys(init);
    }
  }

  lemma {:induction false} RunKeys(run: seq<(int, int)>)
    ensures forall k :: k in FirstWins(run) <==> exists i :: 0 <= i < |run| && run[i].0 == k
  {
    if run != [] {
      var init := run[..|run| - 1];
      RunKeys(init);
      forall k ensures k in FirstWins(run) <==> exists i :: 0 <= i < |run| && run[i].0 == k {
        if i :| 0 <= i < |run| && run[i].0 == k && i < |run| - 1 { assert init[i].0 == k; }
        if k in FirstWins(init) { var i :| 0 <= i < |init| && init[i].0 == k; assert run[i].0 == k; }
        assert run[|run| - 1].0 in FirstWins(run);
      }
    }
  }
}
