/** The chained hash table of kvs_hash.c, proved against a map. */
module KvsHash {
  import opened CStrings
  import opened Options

  const MAX_TABLE_SIZE: nat := 1024

  /** A byte as a plain (signed) char. */
  function Signed(b: Byte): int {
    if b < 128 then b else b - 256
  }

  function CharSum(key: CString): int {
    if key == [] then 0 else CharSum(key[..|key| - 1]) + Signed(key[|key| - 1])
  }

  /** The sums of two texts add up; a byte counts as a signed char. */
  lemma {:induction false} CharSumAdds(a: CString, b: CString)
    ensures CharSum(a + b) == CharSum(a) + CharSum(b)
    ensures CharSum([]) == 0 && forall x: Byte :: CharSum([x]) == if x < 128 then x as int else x - 256
    decreases |b|
  {
    forall x: Byte ensures CharSum([x]) == Signed(x) {
      assert [x][..0] == [];
    }
    if b == [] {
      assert a + b == a;
    } else {
      var n := |b| - 1;
      CharSumAdds(a, b[..n]);
      assert (a + b)[..|a + b| - 1] == a + b[..n];
    }
  }

  /** So the slot of a text whose sum is not negative is that sum modulo the size of the table. */
  lemma SlotOfSum(key: CString)
    ensures CharSum(key) >= 0 ==> Slot(key) == CharSum(key) % 1024
    ensures CharSum(key) < 0 ==> -1024 < Slot(key) <= 0 && (CharSum(key) - Slot(key)) % 1024 == 0
  {
    hide CharSum;
    TruncRest(CharSum(key));
  }

  lemma TruncRest(a: int)
    ensures a >= 0 ==> TruncMod(a, 1024) == a % 1024
    ensures a < 0 ==> -1024 < TruncMod(a, 1024) <= 0 && (a - TruncMod(a, 1024)) % 1024 == 0
  {
    if a < 0 {
      var q, r := -a / 1024, -a % 1024;
      assert -a == 1024 * q + r && TruncMod(a, 1024) == -r;
      assert a - TruncMod(a, 1024) == 1024 * -q;
    }
  }

  /** The C remainder: it has the sign of the dividend. */
  function TruncMod(a: int, n: nat): int
    requires n > 0
  {
    if a >= 0 then a % n else -(-a % n)
  }

  /** The slot of a key.  It is negative for some keys with bytes above 127. */
  function Slot(key: CString): int {
    TruncMod(CharSum(key), MAX_TABLE_SIZE)
  }

  lemma SlotInTable(key: CString)
    ensures Slot(key) < MAX_TABLE_SIZE
    ensures 0 <= Slot(key) <==> CharSum(key) >= 0 || CharSum(key) % MAX_TABLE_SIZE == 0
  {
    hide CharSum;
    NegatedRest(CharSum(key));
  }

  lemma NegatedRest(a: int)
    ensures 0 <= -a % 1024 < 1024 && (-a % 1024 == 0 <==> a % 1024 == 0)
  {
    var q, r, p, s := a / 1024, a % 1024, -a / 1024, -a % 1024;
    assert a == 1024 * q + r && -a == 1024 * p + s;
    assert 1024 * (p + q) + (r + s) == 0;
  }

  lemma {:induction false} AsciiSlot(key: CString)
    requires forall i :: 0 <= i < |key| ==> key[i] < 128
    ensures CharSum(key) >= 0 && 0 <= Slot(key) < MAX_TABLE_SIZE
  {
    if key != [] { AsciiSlot(key[..|key| - 1]); }
  }

  lemma NegativeSlot()
    ensures Slot([200]) == -56
  {
    assert [200][..0] == [];
    assert CharSum([200]) == CharSum([200][..0]) + Signed(200);
  }

  class HashNode {
    var key: CString
    var value: CString
    var next: HashNode?

    constructor (key: CString, value: CString, next: HashNode?)
      ensures this.key == key && this.value == value && this.next == next
    {
      this.key, this.value, this.next := key, value, next;
    }
  }

  // ---------- the table as a value ----------

  datatype Cell = Cell(key: CString, value: CString, next: HashNode?)
  datatype Entry = Entry(key: CString, value: CString)
  type Heap = map<HashNode, Cell>
  type Chain = seq<HashNode>

  ghost function Snap(s: set<HashNode>): Heap
    reads s
  {
    map n | n in s :: Cell(n.key, n.value, n.next)
  }

  function After(c: Chain, j: nat): HashNode? {
    if j + 1 < |c| then c[j + 1] else null
  }

  /** `first` starts the list of nodes `c`. */
  ghost predicate Linked(h: Heap, first: HashNode?, c: Chain) {
    && first == (if c == [] then null else c[0])
    && forall j :: 0 <= j < |c| ==> c[j] in h && h[c[j]].next == After(c, j)
  }

  ghost function Entries(h: Heap, c: Chain): (e: seq<Entry>)
    requires forall j :: 0 <= j < |c| ==> c[j] in h
    ensures |e| == |c|
    ensures forall j :: 0 <= j < |c| ==> e[j] == Entry(h[c[j]].key, h[c[j]].value)
  {
    seq(|c|, j requires 0 <= j < |c| => Entry(h[c[j]].key, h[c[j]].value))
  }

  ghost predicate HasKey(e: seq<Entry>, k: CString) {
    exists j :: 0 <= j < |e| && e[j].key == k
  }

  /** `e` are the entries of `m` whose keys belong in slot `i`, each once. */
  ghost predicate Bucket(i: int, e: seq<Entry>, m: map<CString, CString>) {
    && (forall j :: 0 <= j < |e| ==> Slot(e[j].key) == i && e[j].key in m && e[j].value == m[e[j].key])
    && (forall j, k :: 0 <= j < k < |e| ==> e[j].key != e[k].key)
    && (forall k :: k in m && Slot(k) == i ==> HasKey(e, k))
  }

  ghost predicate Slotted(h: Heap, first: HashNode?, c: Chain, i: int, m: map<CString, CString>) {
    Linked(h, first, c) && Bucket(i, Entries(h, c), m)
  }

  /** The heads and the nodes hold exactly the entries of `m`, every one in its own slot. */
  ghost predicate TableOk(h: Heap, heads: seq<HashNode?>, chains: seq<Chain>, m: map<CString, CString>) {
    && |heads| == |chains| == MAX_TABLE_SIZE
    && (forall k :: k in m ==> 0 <= Slot(k))
    && (forall i :: 0 <= i < |chains| ==> Slotted(h, heads[i], chains[i], i, m))
  }

  lemma Distinct(h: Heap, first: HashNode?, c: Chain, i: int, m: map<CString, CString>, j: nat)
    requires Slotted(h, first, c, i, m) && j < |c|
    ensures c[j] in h && Slot(h[c[j]].key) == i && h[c[j]].key in m && h[c[j]].value == m[h[c[j]].key]
    ensures forall k :: 0 <= k < |c| && k != j ==> c[k] != c[j]
  {
    hide Slot;
    var e := Entries(h, c);
    forall k | 0 <= k < |c| && k != j ensures c[k] != c[j] {
      assert e[k].key != e[j].key;
    }
  }

  /** Writes outside a slot, and an entry that belongs elsewhere, leave the slot alone. */
  lemma Elsewhere(h: Heap, h': Heap, first: HashNode?, c: Chain, i: int, m: map<CString, CString>,
                  m': map<CString, CString>, key: CString, n: HashNode)
    requires Slotted(h, first, c, i, m) && Slot(key) != i && m' - {key} == m - {key}
    requires n in h ==> Slot(h[n].key) != i
    requires forall x :: x in h && x != n ==> x in h' && h'[x] == h[x]
    ensures Slotted(h', first, c, i, m')
  {
    hide Slot;
    var e := Entries(h, c);
    forall j | 0 <= j < |c| ensures c[j] != n {
      assert Slot(e[j].key) == i;
    }
    assert Entries(h', c) == e;
    forall k ensures k != key ==> (k in m <==> k in m') && (k in m ==> m[k] == m'[k]) {
      assert k != key ==> (k in m <==> k in m - {key}) && (k in m' <==> k in m' - {key});
      if k != key && k in m { assert (m - {key})[k] == m[k]; }
    }
  }

  // What a new, a changed and a lost entry do to the contents of a slot ...

  lemma GrownBucket(i: int, e: seq<Entry>, m: map<CString, CString>, n: Entry)
    requires Bucket(i, e, m) && n.key !in m && Slot(n.key) == i
    ensures Bucket(i, [n] + e, m[n.key := n.value])
  {
    hide Slot;
    var u, m' := [n] + e, m[n.key := n.value];
    forall k | k in m' && Slot(k) == i ensures HasKey(u, k) {
      if k == n.key {
        assert u[0].key == k;
      } else {
        var j :| 0 <= j < |e| && e[j].key == k;
        assert u[j + 1].key == k;
      }
    }
  }

  lemma ChangedBucket(i: int, e: seq<Entry>, m: map<CString, CString>, j: nat, v: CString)
    requires Bucket(i, e, m) && j < |e|
    ensures Bucket(i, e[j := Entry(e[j].key, v)], m[e[j].key := v])
  {
    hide Slot;
    var u, m' := e[j := Entry(e[j].key, v)], m[e[j].key := v];
    forall k | k in m' && Slot(k) == i ensures HasKey(u, k) {
      var l :| 0 <= l < |e| && e[l].key == k;
      assert u[l].key == k;
    }
  }

  lemma ShrunkBucket(i: int, e: seq<Entry>, m: map<CString, CString>, j: nat)
    requires Bucket(i, e, m) && j < |e|
    ensures Bucket(i, e[..j] + e[j + 1..], m - {e[j].key})
  {
    hide Slot;
    var u, m' := e[..j] + e[j + 1..], m - {e[j].key};
    assert forall k :: 0 <= k < |u| ==> u[k] == e[if k < j then k else k + 1];
    forall key | key in m' && Slot(key) == i ensures HasKey(u, key) {
      var k :| 0 <= k < |e| && e[k].key == key;
      assert u[if k < j then k else k - 1].key == key;
    }
  }

  // ... and to its links.

  lemma GrownLinks(h: Heap, first: HashNode?, c: Chain, n: HashNode, key: CString, value: CString)
    requires Linked(h, first, c) && n !in h
    ensures var h' := h[n := Cell(key, value, first)];
            Linked(h', n, [n] + c) && Entries(h', [n] + c) == [Entry(key, value)] + Entries(h, c)
  {
    var u, h' := [n] + c, h[n := Cell(key, value, first)];
    forall j | 0 <= j < |u|
      ensures u[j] in h' && h'[u[j]].next == After(u, j)
      ensures Entry(h'[u[j]].key, h'[u[j]].value) == ([Entry(key, value)] + Entries(h, c))[j]
    {
      if j > 0 { GrownAt(h, first, c, n, j); }
    }
    assert Entries(h', u) == [Entry(key, value)] + Entries(h, c);
  }

  lemma GrownAt(h: Heap, first: HashNode?, c: Chain, n: HashNode, j: nat)
    requires Linked(h, first, c) && n !in h && 0 < j <= |c|
    ensures ([n] + c)[j] == c[j - 1] && c[j - 1] in h && c[j - 1] != n && h[c[j - 1]].next == After([n] + c, j)
  {
  }

  lemma ChangedLinks(h: Heap, first: HashNode?, c: Chain, j: nat, v: CString)
    requires Linked(h, first, c) && j < |c| && forall k :: 0 <= k < |c| && k != j ==> c[k] != c[j]
    ensures var h' := h[c[j] := h[c[j]].(value := v)];
            Linked(h', first, c) && Entries(h', c) == Entries(h, c)[j := Entry(h[c[j]].key, v)]
  {
  }

  lemma ShrunkLinks(h: Heap, h': Heap, first: HashNode?, c: Chain, j: nat)
    requires Linked(h, first, c) && j < |c| && forall k, l :: 0 <= k < l < |c| ==> c[k] != c[l]
    requires h' == if j == 0 then h else h[c[j - 1] := h[c[j - 1]].(next := After(c, j))]
    ensures Linked(h', if j == 0 then After(c, 0) else first, c[..j] + c[j + 1..])
  {
    var u := c[..j] + c[j + 1..];
    forall k | 0 <= k < |u| ensures u[k] in h' && h'[u[k]].next == After(u, k) {
      var x := if k < j then k else k + 1;
      assert u[k] == c[x] && h[c[x]].next == After(c, x);
      if k + 1 < |u| {
        assert u[k + 1] == c[if k + 1 < j then k + 1 else k + 2];
      }
      if k + 1 != j {
        assert j > 0 ==> c[x] != c[j - 1];
      }
    }
  }

  lemma ShrunkEntries(h: Heap, h': Heap, c: Chain, j: nat)
    requires (forall k :: 0 <= k < |c| ==> c[k] in h) && j < |c|
    requires h' == if j == 0 then h else h[c[j - 1] := h[c[j - 1]].(next := After(c, j))]
    ensures Entries(h', c[..j] + c[j + 1..]) == Entries(h, c)[..j] + Entries(h, c)[j + 1..]
  {
    var u, e := c[..j] + c[j + 1..], Entries(h, c);
    forall k | 0 <= k < |u| ensures Entries(h', u)[k] == (e[..j] + e[j + 1..])[k] {
      assert u[k] == c[if k < j then k else k + 1];
    }
  }

  /** A new node in front of a slot. */
  lemma Grown(h: Heap, first: HashNode?, c: Chain, i: int, m: map<CString, CString>, n: HashNode, key: CString, value: CString)
    requires Slotted(h, first, c, i, m) && n !in h && key !in m && Slot(key) == i
    ensures Slotted(h[n := Cell(key, value, first)], n, [n] + c, i, m[key := value])
  {
    hide Slot, Bucket;
    GrownLinks(h, first, c, n, key, value);
    GrownBucket(i, Entries(h, c), m, Entry(key, value));
  }

  /** A new value in a node. */
  lemma Changed(h: Heap, first: HashNode?, c: Chain, i: int, m: map<CString, CString>, j: nat, v: CString)
    requires Slotted(h, first, c, i, m) && j < |c|
    ensures Slotted(h[c[j] := h[c[j]].(value := v)], first, c, i, m[h[c[j]].key := v])
  {
    hide Slot, Bucket;
    Distinct(h, first, c, i, m, j);
    ChangedLinks(h, first, c, j, v);
    ChangedBucket(i, Entries(h, c), m, j, v);
  }

  /** A node bypassed by its predecessor, or by the head of the slot. */
  lemma Shrunk(h: Heap, h': Heap, first: HashNode?, c: Chain, i: int, m: map<CString, CString>, j: nat)
    requires Slotted(h, first, c, i, m) && j < |c|
    requires h' == if j == 0 then h else h[c[j - 1] := h[c[j - 1]].(next := After(c, j))]
    ensures Slotted(h', if j == 0 then After(c, 0) else first, c[..j] + c[j + 1..], i, m - {h[c[j]].key})
  {
    hide Slot, Bucket, After;
    forall k, l | 0 <= k < l < |c| ensures c[k] != c[l] { Distinct(h, first, c, i, m, k); }
    ShrunkLinks(h, h', first, c, j);
    ShrunkEntries(h, h', c, j);
    ShrunkBucket(i, Entries(h, c), m, j);
  }

  // ---------- the count ----------

  ghost function Nodes(chains: seq<Chain>): nat {
    if chains == [] then 0 else Nodes(chains[..|chains| - 1]) + |chains[|chains| - 1]|
  }

  ghost function KeysBelow(m: map<CString, CString>, n: int): set<CString> {
    set k | k in m && Slot(k) < n
  }

  lemma {:induction false} KeysOnce(e: seq<Entry>) returns (keys: set<CString>)
    requires forall j, k :: 0 <= j < k < |e| ==> e[j].key != e[k].key
    ensures |keys| == |e| && forall k :: k in keys <==> HasKey(e, k)
  {
    if e == [] {
      keys := {};
    } else {
      var l := |e| - 1;
      var rest := KeysOnce(e[..l]);
      keys := rest + {e[l].key};
      forall k ensures k in keys <==> HasKey(e, k) {
        if k in rest { var j :| 0 <= j < l && e[..l][j].key == k; assert e[j].key == k; }
        if j :| 0 <= j < |e| && e[j].key == k { assert j < l ==> e[..l][j].key == k; }
      }
    }
  }

  /** A slot holds one node for each key that belongs there. */
  lemma SlotSize(i: nat, e: seq<Entry>, m: map<CString, CString>)
    requires Bucket(i, e, m)
    ensures |KeysBelow(m, i + 1)| == |KeysBelow(m, i)| + |e|
  {
    hide Slot;
    var keys := KeysOnce(e);
    assert KeysBelow(m, i + 1) == KeysBelow(m, i) + keys;
    assert KeysBelow(m, i) !! keys;
  }

  lemma {:induction false} NodesBelow(h: Heap, heads: seq<HashNode?>, chains: seq<Chain>, m: map<CString, CString>, n: nat)
    requires TableOk(h, heads, chains, m) && n <= |chains|
    ensures Nodes(chains[..n]) == |KeysBelow(m, n)|
  {
    hide Slot, Bucket;
    if n == 0 {
      assert KeysBelow(m, 0) == {};
    } else {
      NodesBelow(h, heads, chains, m, n - 1);
      assert Slotted(h, heads[n - 1], chains[n - 1], n - 1, m);
      SlotSize(n - 1, Entries(h, chains[n - 1]), m);
      assert chains[..n][..n - 1] == chains[..n - 1];
    }
  }

  /** The chains together hold as many nodes as the map has keys. */
  lemma NodesAreKeys(h: Heap, heads: seq<HashNode?>, chains: seq<Chain>, m: map<CString, CString>)
    requires TableOk(h, heads, chains, m)
    ensures Nodes(chains) == |m|
  {
    NodesBelow(h, heads, chains, m, |chains|);
    assert chains[..|chains|] == chains;
    forall k | k in m ensures Slot(k) < |chains| { SlotInTable(k); }
    hide Slot, Slotted;
    assert KeysBelow(m, |chains|) == m.Keys;
  }

  lemma TableLength(h: Heap, heads: seq<HashNode?>, chains: seq<Chain>, m: map<CString, CString>)
    requires TableOk(h, heads, chains, m)
    ensures |heads| == |chains| == MAX_TABLE_SIZE
  {
  }

  lemma TableSlot(h: Heap, heads: seq<HashNode?>, chains: seq<Chain>, m: map<CString, CString>, i: nat)
    requires TableOk(h, heads, chains, m) && i < MAX_TABLE_SIZE
    ensures |heads| == |chains| == MAX_TABLE_SIZE && Slotted(h, heads[i], chains[i], i, m)
  {
  }

  lemma SlotHas(h: Heap, first: HashNode?, c: Chain, m: map<CString, CString>, key: CString)
    requires Slotted(h, first, c, Slot(key), m)
    ensures Linked(h, first, c)
    ensures key in m <==> exists j :: 0 <= j < |c| && h[c[j]].key == key
  {
    hide Slot;
    var e, i := Entries(h, c), Slot(key);
    if key in m {
      var j :| 0 <= j < |e| && e[j].key == key;
      assert h[c[j]].key == key;
    }
    if j :| 0 <= j < |c| && h[c[j]].key == key {
      assert e[j].key in m;
    }
  }

  lemma OneKeyMore(m: map<CString, CString>, key: CString, value: CString)
    requires key !in m
    ensures m[key := value] - {key} == m - {key} && |m[key := value]| == |m| + 1
  {
    assert m[key := value].Keys == m.Keys + {key};
  }

  /** A new node in front of the slot of its key. */
  lemma Added(h: Heap, heads: seq<HashNode?>, chains: seq<Chain>, m: map<CString, CString>, key: CString, value: CString, n: HashNode)
    requires TableOk(h, heads, chains, m) && 0 <= Slot(key) < MAX_TABLE_SIZE == |heads| == |chains| && key !in m && n !in h
    ensures var i := Slot(key);
            && TableOk(h[n := Cell(key, value, heads[i])], heads[i := n], chains[i := [n] + chains[i]], m[key := value])
            && |m[key := value]| == |m| + 1
  {
    hide Slot, Slotted, TableOk;
    var i, m' := Slot(key), m[key := value];
    TableSlot(h, heads, chains, m, i);
    Grown(h, heads[i], chains[i], i, m, n, key, value);
    OneKeyMore(m, key, value);
    OneSlot(h, h[n := Cell(key, value, heads[i])], heads, chains, m, m', key, n, n, [n] + chains[i]);
  }

  /** Bypassing entry `j` of the slot of its key. */
  lemma Removed(h: Heap, h': Heap, heads: seq<HashNode?>, chains: seq<Chain>, m: map<CString, CString>, key: CString, j: nat)
    requires TableOk(h, heads, chains, m) && 0 <= Slot(key) < MAX_TABLE_SIZE
    requires var c := chains[Slot(key)];
             && j < |c| && c[j] in h && h[c[j]].key == key
             && (j > 0 ==> c[j - 1] in h)
             && h' == if j == 0 then h else h[c[j - 1] := h[c[j - 1]].(next := After(c, j))]
    ensures var i, c := Slot(key), chains[Slot(key)];
            && TableOk(h', heads[i := if j == 0 then After(c, 0) else heads[i]], chains[i := c[..j] + c[j + 1..]], m - {key})
            && key in m && |m - {key}| == |m| - 1
  {
    hide Slot, Slotted, TableOk;
    var i := Slot(key);
    TableLength(h, heads, chains, m);
    var c := chains[i];
    TableSlot(h, heads, chains, m, i);
    Distinct(h, heads[i], c, i, m, j);
    if j > 0 { Distinct(h, heads[i], c, i, m, j - 1); }
    Shrunk(h, h', heads[i], c, i, m, j);
    assert (m - {key}).Keys == m.Keys - {key};
    OneSlot(h, h', heads, chains, m, m - {key}, key, if j == 0 then c[0] else c[j - 1],
            if j == 0 then After(c, 0) else heads[i], c[..j] + c[j + 1..]);
  }

  /** One slot is redone for one key, through at most one changed node `n` of that slot. */
  lemma OneSlot(h: Heap, h': Heap, heads: seq<HashNode?>, chains: seq<Chain>, m: map<CString, CString>, m': map<CString, CString>,
                key: CString, n: HashNode, first': HashNode?, c': Chain)
    requires TableOk(h, heads, chains, m) && 0 <= Slot(key) < MAX_TABLE_SIZE && m' - {key} == m - {key}
    requires n in h ==> Slot(h[n].key) == Slot(key)
    requires forall x :: x in h && x != n ==> x in h' && h'[x] == h[x]
    requires Slotted(h', first', c', Slot(key), m')
    ensures TableOk(h', heads[Slot(key) := first'], chains[Slot(key) := c'], m')
  {
    hide Slot, Slotted;
    var i := Slot(key);
    forall k | 0 <= k < |chains| && k != i ensures Slotted(h', heads[k], chains[k], k, m') {
      Elsewhere(h, h', heads[k], chains[k], k, m, m', key, n);
    }
    forall k | k in m' ensures 0 <= Slot(k) {
      if k != key { assert k in m' - {key}; assert k in m; }
    }
  }

  /** Along `next` until the key is found. */
  method Walk(first: HashNode?, key: CString, ghost h: Heap, ghost c: Chain) returns (node: HashNode?, ghost j: nat)
    requires Linked(h, first, c) && h == Snap(h.Keys)
    ensures node == null <==> !HasKey(Entries(h, c), key)
    ensures node != null ==> j < |c| && node == c[j] && node.key == key
  {
    hide StrCmp;
    node := first;
    j := 0;
    while node != null
      invariant 0 <= j <= |c| && node == if j < |c| then c[j] else null
      invariant forall i :: 0 <= i < j ==> h[c[i]].key != key
      decreases |c| - j
    {
      StrCmpZero(node.key, key);
      if StrCmp(node.key, key) == 0 {
        assert Entries(h, c)[j].key == key;
        return;
      }
      assert h[c[j]].next == After(c, j);
      node := node.next;
      j := j + 1;
    }
  }

  /** _hash, for the keys it sends into the table. */
  method HashIndex(key: CString) returns (idx: nat)
    requires 0 <= Slot(key)
    ensures idx == Slot(key) < MAX_TABLE_SIZE
  {
    var sum, i := 0, 0;
    while i < |key|
      invariant 0 <= i <= |key| && sum == CharSum(key[..i])
    {
      assert key[..i + 1][..i] == key[..i];
      sum := sum + Signed(key[i]);
      i := i + 1;
    }
    assert key[..i] == key;
    SlotInTable(key);
    idx := TruncMod(sum, MAX_TABLE_SIZE);
  }

  /** The hash engine of the key-value store.  A NULL argument is `None`. */
  class HashTable {
    var nodes: array<HashNode?>
    var count: int
    ghost var chains: seq<Chain>
    ghost var store: map<CString, CString>
    ghost var repr: set<HashNode>

    ghost predicate Valid()
      reads this, nodes, repr
    {
      TableOk(Snap(repr), nodes[..], chains, store) && count == |store|
    }

    /** kvs_hash_create, with the bucket array cleared. */
    constructor ()
      ensures Valid() && store == map[] && repr == {} && fresh(nodes)
    {
      nodes := new HashNode?[MAX_TABLE_SIZE](_ => null);
      count := 0;
      chains, store, repr := seq(MAX_TABLE_SIZE, _ => []), map[], {};
    }

    /** The walk along one bucket that every operation starts with. */
    method Lookup(key: CString) returns (node: HashNode?, ghost j: nat)
      requires Valid() && 0 <= Slot(key)
      ensures Slot(key) < MAX_TABLE_SIZE
      ensures node == null <==> key !in store
      ensures node != null ==> j < |chains[Slot(key)]| && node == chains[Slot(key)][j] && node.key == key
    {
      hide Slot, Linked, HasKey;
      var idx := HashIndex(key);
      ghost var h, c := Snap(repr), chains[idx];
      assert Slotted(h, nodes[..][idx], c, idx, store);
      node, j := Walk(nodes[idx], key, h, c);
    }

    /** kvs_hash_count: the number of nodes in all chains. */
    method Count() returns (n: int)
      requires Valid()
      ensures n == Nodes(chains) == |store|
    {
      NodesAreKeys(Snap(repr), nodes[..], chains, store);
      n := count;
    }

    /** kvs_hash_get. */
    method Get(key: Option<CString>) returns (value: Option<CString>)
      requires Valid() && (key.Some? ==> 0 <= Slot(key.value))
      ensures value == if key.Some? && key.value in store then Some(store[key.value]) else None
    {
      hide Slot;
      if key.None? {
        return None;
      }
      var node, j := Lookup(key.value);
      if node == null {
        return None;
      }
      ghost var i := Slot(key.value);
      Distinct(Snap(repr), nodes[..][i], chains[i], i, store, j);
      value := Some(node.value);
    }

    /** kvs_hash_set: 0 added, 1 already there, -1 missing argument. */
    method Set(key: Option<CString>, value: Option<CString>) returns (ret: int)
      requires Valid() && (key.Some? ==> 0 <= Slot(key.value))
      modifies this`count, this`chains, this`store, this`repr, nodes
      ensures Valid() && repr >= old(repr) && fresh(repr - old(repr))
      ensures key.None? || value.None? ==> ret == -1 && store == old(store)
      ensures key.Some? && value.Some? && key.value in old(store) ==> ret == 1 && store == old(store)
      ensures key.Some? && value.Some? && key.value !in old(store) ==>
        ret == 0 && store == old(store)[key.value := value.value]
    {
      if key.None? || value.None? {
        return -1;
      }
      var node, j := Lookup(key.value);
      if node != null {
        return 1;
      }
      Prepend(key.value, value.value);
      ret := 0;
    }

    /** The part of kvs_hash_set that adds a node to its bucket. */
    method Prepend(key: CString, value: CString)
      requires Valid() && 0 <= Slot(key) && key !in store
      modifies this`count, this`chains, this`store, this`repr, nodes
      ensures Valid() && repr >= old(repr) && fresh(repr - old(repr)) && store == old(store)[key := value]
    {
      hide Slot, Slotted, TableOk;
      TableLength(Snap(repr), nodes[..], chains, store);
      var idx := HashIndex(key);
      ghost var h, hs, c := Snap(repr), nodes[..], chains[idx];
      var newNode := new HashNode(key, value, nodes[idx]);
      Added(h, hs, chains, store, key, value, newNode);
      nodes[idx] := newNode;
      count := count + 1;
      chains, store, repr := chains[idx := [newNode] + c], store[key := value], repr + {newNode};
      assert Snap(repr) == h[newNode := Cell(key, value, hs[idx])];
      assert nodes[..] == hs[idx := newNode];
    }

    /** kvs_hash_mod: 0 changed, 1 no such key, -1 no key given.  A new value is needed only if the key is there. */
    method Mod(key: Option<CString>, value: Option<CString>) returns (ret: int)
      requires Valid() && (key.Some? ==> 0 <= Slot(key.value))
      requires key.Some? && key.value in store ==> value.Some?
      modifies this`store, repr`value
      ensures Valid() && repr == old(repr)
      ensures key.None? ==> ret == -1 && store == old(store)
      ensures key.Some? && key.value !in old(store) ==> ret == 1 && store == old(store)
      ensures key.Some? && key.value in old(store) ==> ret == 0 && store == old(store)[key.value := value.value]
    {
      hide Slot, Slotted, TableOk;
      if key.None? {
        return -1;
      }
      var node, j := Lookup(key.value);
      if node == null {
        return 1;
      }
      ghost var i, h, hs, m' := Slot(key.value), Snap(repr), nodes[..], store[key.value := value.value];
      TableSlot(h, hs, chains, store, i);
      Distinct(h, hs[i], chains[i], i, store, j);
      Changed(h, hs[i], chains[i], i, store, j, value.value);
      ghost var h' := h[node := h[node].(value := value.value)];
      assert m' - {key.value} == store - {key.value} && m'.Keys == store.Keys;
      OneSlot(h, h', hs, chains, store, m', key.value, node, hs[i], chains[i]);
      assert |m'| == |store|;
      node.value := value.value;
      store := m';
      assert Snap(repr) == h' && hs == hs[i := hs[i]] && chains == chains[i := chains[i]];
      ret := 0;
    }

    /** kvs_hash_exist: 0 there, 1 not there or no key given. */
    method Exist(key: Option<CString>) returns (ret: int)
      requires Valid() && (key.Some? ==> 0 <= Slot(key.value))
      ensures ret == if key.Some? && key.value in store then 0 else 1
    {
      var value := Get(key);
      ret := if value.None? then 1 else 0;
    }

    /** kvs_hash_del: 0 removed, -1 not there, -2 no key given. */
    method Del(key: Option<CString>) returns (ret: int)
      requires Valid() && (key.Some? ==> 0 <= Slot(key.value))
      modifies this`count, this`chains, this`store, nodes, repr`next
      ensures Valid() && repr == old(repr)
      ensures key.None? ==> ret == -2 && store == old(store)
      ensures key.Some? && key.value !in old(store) ==> ret == -1 && store == old(store)
      ensures key.Some? && key.value in old(store) ==> ret == 0 && store == old(store) - {key.value}
    {
      if key.None? {
        return -2;
      }
      hide Slot, Valid, StrCmp;
      BucketAt(key.value);
      var idx := HashIndex(key.value);
      var head := nodes[idx];
      ghost var h, c := Snap(repr), chains[idx];
      if head == null {
        return -1;
      }
      StrCmpZero(head.key, key.value);
      if StrCmp(head.key, key.value) == 0 {
        BypassFirst(idx, key.value, head);
        return 0;
      }
      ret := DelBehind(idx, key.value, head);
    }

    /** The part of kvs_hash_del behind the first node of a bucket. */
    method DelBehind(idx: nat, key: CString, head: HashNode) returns (ret: int)
      requires Valid() && idx == Slot(key) < nodes.Length == |chains| == MAX_TABLE_SIZE
      requires head == nodes[idx] && head.key != key
      modifies this`count, this`chains, this`store, repr`next
      ensures Valid()
      ensures key !in old(store) ==> ret == -1 && store == old(store)
      ensures key in old(store) ==> ret == 0 && store == old(store) - {key}
    {
      hide Slot, Valid, After;
      BucketAt(key);
      ghost var h, c := Snap(repr), chains[idx];
      var cur, j := Before(head, key, h, c);
      if cur.next == null {
        return -1;
      }
      SnapAt(cur.next, repr);
      BypassNext(idx, key, cur, cur.next, j + 1);
      ret := 0;
    }

    /** The bucket a key belongs to. */
    lemma BucketAt(key: CString)
      requires Valid() && 0 <= Slot(key)
      ensures Slot(key) < nodes.Length == |chains| == MAX_TABLE_SIZE
      ensures Linked(Snap(repr), nodes[Slot(key)], chains[Slot(key)])
      ensures key in store <==> exists j :: 0 <= j < |chains[Slot(key)]| && Snap(repr)[chains[Slot(key)][j]].key == key
    {
      SlotInTable(key);
      hide Slot, Slotted, Linked;
      TableSlot(Snap(repr), nodes[..], chains, store, Slot(key));
      SlotHas(Snap(repr), nodes[..][Slot(key)], chains[Slot(key)], store, key);
    }

    /** The head of a bucket skips its first node. */
    method BypassFirst(idx: nat, key: CString, tmp: HashNode)
      requires Valid() && idx == Slot(key) < MAX_TABLE_SIZE == |chains| && chains[idx] != []
      requires tmp == chains[idx][0] && tmp in repr && tmp.key == key && tmp.next == After(chains[idx], 0)
      modifies this`count, this`chains, this`store, nodes
      ensures Valid() && store == old(store) - {key}
    {
      hide Slot, Slotted, TableOk, Snap;
      SnapAt(tmp, repr);
      ghost var h, hs, c := Snap(repr), nodes[..], chains[idx];
      TableLength(h, hs, chains, store);
      Removed(h, h, hs, chains, store, key, 0);
      nodes[idx] := tmp.next;
      assert Snap(repr) == h && nodes[..] == hs[idx := After(c, 0)];
      count := count - 1;
      chains, store := chains[idx := c[..0] + c[1..]], store - {key};
    }

    /** The node before `tmp` skips it. */
    method BypassNext(idx: nat, key: CString, cur: HashNode, tmp: HashNode, ghost j: nat)
      requires Valid() && idx == Slot(key) < MAX_TABLE_SIZE == |chains| && 0 < j < |chains[idx]|
      requires tmp == chains[idx][j] && tmp in repr && tmp.key == key && tmp.next == After(chains[idx], j)
      requires cur == chains[idx][j - 1] && cur in repr
      modifies this`count, this`chains, this`store, cur`next
      ensures Valid() && store == old(store) - {key}
    {
      hide Slot, Slotted, TableOk, Snap;
      SnapAt(tmp, repr);
      SnapAt(cur, repr);
      ghost var h, hs, c := Snap(repr), nodes[..], chains[idx];
      TableLength(h, hs, chains, store);
      Removed(h, h[cur := h[cur].(next := tmp.next)], hs, chains, store, key, j);
      SetNext(cur, tmp.next, repr);
      assert nodes[..] == hs == hs[idx := hs[idx]];
      count := count - 1;
      chains, store := chains[idx := c[..j] + c[j + 1..]], store - {key};
    }
  }

  lemma SnapAt(n: HashNode, s: set<HashNode>)
    requires n in s
    ensures n in Snap(s) && Snap(s)[n] == Cell(n.key, n.value, n.next)
  {
  }

  /** One link is written. */
  method SetNext(n: HashNode, next: HashNode?, ghost s: set<HashNode>)
    requires n in s
    modifies n`next
    ensures n in old(Snap(s)) && Snap(s) == old(Snap(s))[n := old(Snap(s))[n].(next := next)]
  {
    n.next := next;
  }

  /** The walk of kvs_hash_del to the node before the one with the key, or to the last node. */
  method Before(head: HashNode, key: CString, ghost h: Heap, ghost c: Chain) returns (cur: HashNode, ghost j: nat)
    requires Linked(h, head, c) && h == Snap(h.Keys) && head.key != key
    ensures j < |c| && cur == c[j] && cur.next == After(c, j)
    ensures cur.next == null ==> forall i :: 0 <= i < |c| ==> h[c[i]].key != key
    ensures cur in h && (cur.next == null ==> j + 1 == |c|)
    ensures cur.next != null ==>
      j + 1 < |c| && cur.next == c[j + 1] && cur.next in h && cur.next.key == key && cur.next.next == After(c, j + 1)
  {
    hide StrCmp;
    cur := head;
    j := 0;
    while cur.next != null
      invariant j < |c| && cur == c[j] && cur.next == After(c, j)
      invariant forall i :: 0 <= i <= j ==> h[c[i]].key != key
      decreases |c| - j
    {
      assert cur.next == c[j + 1];
      StrCmpZero(cur.next.key, key);
      if StrCmp(cur.next.key, key) == 0 {
        break;
      }
      cur := cur.next;
      j := j + 1;
      assert h[c[j]].next == After(c, j);
    }
  }
}
