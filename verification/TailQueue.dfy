/** The tail queue of nty_queue.h.  A link holds the address of the slot that points to it; a slot lies at the
    start of a queue head or of an element's entry, and TAILQ_LAST and TAILQ_PREV read both as the same
    structure.  So do we: heads and elements are entries, and a slot's address is the entry it lies in. */
module TailQueue {

  class Entry {
    var next: Entry?  // tqh_first or tqe_next
    var prev: Entry?  // tqh_last or tqe_prev

    constructor ()
      ensures next == null && prev == null
    {
      next, prev := null, null;
    }
  }

  datatype Cell = Cell(next: Entry?, prev: Entry?)
  type Heap = map<Entry, Cell>

  ghost function Snap(c: seq<Entry>): Heap
    reads c
  {
    map n | n in c :: Cell(n.next, n.prev)
  }

  function After(c: seq<Entry>, j: nat): Entry? {
    if j + 1 < |c| then c[j + 1] else null
  }

  /** The holder of the link that leads back to the node at `j`: the next node, or the head's last slot. */
  function Back(c: seq<Entry>, j: nat): Entry
    requires c != []
  {
    if j + 1 < |c| then c[j + 1] else c[0]
  }

  ghost predicate Distinct(c: seq<Entry>) {
    forall i, j :: 0 <= i < j < |c| ==> c[i] != c[j]
  }

  /** The head `c[0]` and the elements behind it, linked both ways; the head knows the last slot. */
  ghost predicate Linked(c: seq<Entry>, m: Heap) {
    && c != [] && Distinct(c) && (forall n :: n in c ==> n in m)
    && (forall j :: 0 <= j < |c| ==> m[c[j]].next == After(c, j))
    && (forall j :: 0 <= j < |c| ==> m[Back(c, j)].prev == c[j])
  }

  ghost predicate Holds(c: seq<Entry>)
    reads c
  {
    Linked(c, Snap(c))
  }

  /** One slot of the queue, as the fields say it. */
  lemma SlotAt(c: seq<Entry>, j: nat)
    requires Holds(c) && j < |c|
    ensures c[j] in c && Back(c, j) in c && c[j].next == After(c, j) && Back(c, j).prev == c[j]
    ensures Back(c, j) == if After(c, j) != null then After(c, j) else c[0]
  {
    var m := Snap(c);
    assert m[c[j]].next == After(c, j) && m[Back(c, j)].prev == c[j];
  }

  /** TAILQ_INIT. */
  method Init(head: Entry)
    modifies head
    ensures Holds([head])
  {
    head.next := null;
    head.prev := head;
  }

  /** TAILQ_EMPTY, TAILQ_FIRST and TAILQ_LAST. */
  method Ends(head: Entry, ghost c: seq<Entry>) returns (empty: bool, first: Entry?, last: Entry?)
    requires Holds(c) && c[0] == head
    ensures empty <==> |c| == 1
    ensures first == if |c| == 1 then null else c[1]
    ensures last == if |c| == 1 then null else c[|c| - 1]
  {
    SlotAt(c, 0);
    SlotAt(c, |c| - 1);
    if |c| > 1 { SlotAt(c, |c| - 2); }
    empty := head.next == null;
    first := head.next;
    last := head.prev.prev.next;
  }

  /** TAILQ_NEXT and TAILQ_PREV. */
  method Beside(elm: Entry, ghost c: seq<Entry>, ghost i: nat) returns (next: Entry?, prev: Entry?)
    requires Holds(c) && 1 <= i < |c| && c[i] == elm
    ensures next == if i + 1 < |c| then c[i + 1] else null
    ensures prev == if i > 1 then c[i - 1] else null
  {
    SlotAt(c, i);
    SlotAt(c, i - 1);
    if i > 1 {
      SlotAt(c, i - 2);
    } else {
      SlotAt(c, |c| - 1);
    }
    next := elm.next;
    prev := elm.prev.prev.next;
  }

  // ---------- inserting ----------

  function With(s: seq<Entry>, p: nat, elm: Entry): seq<Entry>
    requires p <= |s|
  {
    s[..p] + [elm] + s[p..]
  }

  function Elsewhere(c: seq<Entry>, p: nat, elm: Entry, j: nat): Entry
    requires p < |c| && j <= |c|
  {
    if j <= p then c[j] else if j == p + 1 then elm else c[j - 1]
  }

  ghost predicate Placed(c: seq<Entry>, c': seq<Entry>, p: nat, elm: Entry) {
    && p < |c| && |c'| == |c| + 1 && (forall j :: 0 <= j < |c'| ==> c'[j] == Elsewhere(c, p, elm, j))
  }

  /** Where the entries are once `elm` has been put behind the one at `p`. */
  lemma WithAt(c: seq<Entry>, p: nat, elm: Entry)
    requires p < |c|
    ensures Placed(c, With(c, p + 1, elm), p, elm)
    ensures Distinct(c) && elm !in c ==> Distinct(With(c, p + 1, elm))
  {
  }

  /** What comes after each place, before and after. */
  lemma Moved(c: seq<Entry>, c': seq<Entry>, p: nat, elm: Entry, j: nat)
    requires Placed(c, c', p, elm) && j <= |c|
    ensures j == p ==> After(c', j) == elm && Back(c', j) == elm
    ensures j == p + 1 ==> After(c', j) == After(c, p) && Back(c', j) == Back(c, p)
    ensures j != p && j != p + 1 ==>
      var i := if j < p then j else j - 1; i < |c| && After(c', j) == After(c, i) && Back(c', j) == Back(c, i)
    ensures c'[j] == Elsewhere(c, p, elm, j)
  {
  }

  /** The entries that every insertion macro writes: the new one, the slot before it, and the holder of the
      link back to that slot. */
  ghost predicate Inserting(c: seq<Entry>, m: Heap, m': Heap, p: nat, elm: Entry) {
    && Linked(c, m) && p < |c| && elm !in c
    && elm in m' && m'[elm] == Cell(After(c, p), c[p])
    && (forall n :: n in c ==> n in m' && m'[n].next == if n == c[p] then elm else m[n].next)
    && (forall n :: n in c ==> n in m' && m'[n].prev == if n == Back(c, p) then elm else m[n].prev)
  }

  /** One place of the old queue, in both heaps. */
  lemma OldPlace(c: seq<Entry>, m: Heap, m': Heap, p: nat, elm: Entry, i: nat)
    requires Inserting(c, m, m', p, elm) && i < |c|
    ensures c[i] in m' && Back(c, i) in m'
    ensures m'[c[i]].next == if i == p then elm else After(c, i)
    ensures m'[Back(c, i)].prev == if i == p then elm else c[i]
  {
    BackOnce(c, p, i);
    hide After, Back;
    assert c[i] in c && m[c[i]].next == After(c, i) && m[Back(c, i)].prev == c[i];
  }

  /** Each slot has its own holder of the link back. */
  lemma BackOnce(c: seq<Entry>, p: nat, i: nat)
    requires Distinct(c) && p < |c| && i < |c|
    ensures Back(c, i) in c && (Back(c, i) == Back(c, p) ==> i == p)
  {
  }

  lemma Inserted(c: seq<Entry>, m: Heap, m': Heap, p: nat, elm: Entry)
    requires Inserting(c, m, m', p, elm)
    ensures Linked(With(c, p + 1, elm), m')
  {
    var c' := With(c, p + 1, elm);
    WithAt(c, p, elm);
    hide With, After, Back, Placed;
    forall j | 0 <= j < |c'|
      ensures c'[j] in m' && Back(c', j) in m' && m'[c'[j]].next == After(c', j) && m'[Back(c', j)].prev == c'[j]
    {
      InsertedAt(c, c', m, m', p, elm, j);
    }
  }

  lemma InsertedAt(c: seq<Entry>, c': seq<Entry>, m: Heap, m': Heap, p: nat, elm: Entry, j: nat)
    requires Inserting(c, m, m', p, elm) && Placed(c, c', p, elm) && j < |c'|
    ensures c'[j] in m' && Back(c', j) in m' && m'[c'[j]].next == After(c', j) && m'[Back(c', j)].prev == c'[j]
  {
    Moved(c, c', p, elm, j);
    OldPlace(c, m, m', p, elm, if j <= p then j else j - 1);
    hide Placed, After, Back, Linked;
  }

  lemma WithMembers(c: seq<Entry>, p: nat, elm: Entry)
    requires p < |c|
    ensures forall n :: n in With(c, p + 1, elm) <==> n in c || n == elm
    ensures With(c, |c|, elm) == c + [elm]
  {
  }

  /** The writes of an insertion, told by the fields. */
  lemma Written(c: seq<Entry>, m: Heap, p: nat, elm: Entry)
    requires Linked(c, m) && p < |c| && elm !in c
    requires elm.next == After(c, p) && elm.prev == c[p]
    requires forall n :: n in c ==> n.next == if n == c[p] then elm else m[n].next
    requires forall n :: n in c ==> n.prev == if n == Back(c, p) then elm else m[n].prev
    ensures Holds(c[..p + 1] + [elm] + c[p + 1..])
  {
    assert c != [] && With(c, p + 1, elm) == c[..p + 1] + [elm] + c[p + 1..];
    hide With, After, Back, Linked, Snap;
    WithMembers(c, p, elm);
    SnapOf(With(c, p + 1, elm));
    Inserted(c, m, Snap(With(c, p + 1, elm)), p, elm);
  }

  lemma SnapOf(c: seq<Entry>)
    ensures forall n :: n in c ==> n in Snap(c) && Snap(c)[n] == Cell(n.next, n.prev)
  {
  }

  lemma InFront(c: seq<Entry>, elm: Entry)
    requires c != []
    ensures c[..0 + 1] + [elm] + c[0 + 1..] == [c[0], elm] + c[1..]
  {
  }

  /** TAILQ_INSERT_HEAD. */
  method InsertHead(head: Entry, elm: Entry, ghost c: seq<Entry>)
    requires Holds(c) && c[0] == head && elm !in c
    modifies elm, c
    ensures Holds([head, elm] + c[1..])
  {
    ghost var m := Snap(c);
    SlotAt(c, 0);
    hide After, Back, Linked, Distinct, With;
    elm.next := head.next;
    if elm.next != null {
      head.next.prev := elm;
    } else {
      head.prev := elm;
    }
    head.next := elm;
    elm.prev := head;
    Written(c, m, 0, elm);
    InFront(c, elm);
  }

  /** TAILQ_INSERT_TAIL. */
  method InsertTail(head: Entry, elm: Entry, ghost c: seq<Entry>)
    requires Holds(c) && c[0] == head && elm !in c
    modifies elm, c
    ensures Holds(c + [elm])
  {
    assert c != [];
    ghost var m, p: nat := Snap(c), |c| - 1;
    hide Back, Linked, Distinct, With, Snap;
    SlotAt(c, p);
    SnapOf(c);
    WithMembers(c, p, elm);
    elm.next := null;
    elm.prev := head.prev;
    head.prev.next := elm;
    head.prev := elm;
    Written(c, m, p, elm);
    assert c[..p + 1] + [elm] + c[p + 1..] == c + [elm];
  }

  /** TAILQ_INSERT_AFTER. */
  method InsertAfter(head: Entry, listelm: Entry, elm: Entry, ghost c: seq<Entry>, ghost i: nat)
    requires Holds(c) && c[0] == head && elm !in c && 1 <= i < |c| && c[i] == listelm
    modifies elm, c
    ensures Holds(c[..i + 1] + [elm] + c[i + 1..])
  {
    ghost var m := Snap(c);
    SlotAt(c, i);
    hide After, Back, Linked, Distinct, With;
    elm.next := listelm.next;
    if elm.next != null {
      elm.next.prev := elm;
    } else {
      head.prev := elm;
    }
    listelm.next := elm;
    elm.prev := listelm;
    Written(c, m, i, elm);
  }

  /** TAILQ_INSERT_BEFORE, which does not need the head. */
  method InsertBefore(listelm: Entry, elm: Entry, ghost c: seq<Entry>, ghost i: nat)
    requires Holds(c) && elm !in c && 1 <= i < |c| && c[i] == listelm
    modifies elm, c
    ensures Holds(c[..i] + [elm] + c[i..])
  {
    ghost var m := Snap(c);
    SlotAt(c, i - 1);
    assert After(c, i - 1) == listelm;
    hide After, Back, Linked, Distinct, With;
    elm.prev := listelm.prev;
    elm.next := listelm;
    listelm.prev.next := elm;
    listelm.prev := elm;
    Written(c, m, i - 1, elm);
  }

  // ---------- removing ----------

  function Without(c: seq<Entry>, i: nat): seq<Entry>
    requires i < |c|
  {
    c[..i] + c[i + 1..]
  }

  lemma WithoutAt(c: seq<Entry>, i: nat, j: nat)
    requires Distinct(c) && 1 <= i < |c| && j < |c| - 1
    ensures var c' := Without(c, i);
      && |c'| == |c| - 1 && c'[j] == (if j < i then c[j] else c[j + 1]) && c'[j] != c[i]
      && After(c', j) == (if j < i - 1 then After(c, j) else After(c, j + 1))
      && Back(c', j) == (if j < i - 1 then Back(c, j) else Back(c, j + 1)) && Back(c', j) != c[i]
  {
  }

  lemma WithoutMembers(c: seq<Entry>, i: nat)
    requires Distinct(c) && i < |c|
    ensures Distinct(Without(c, i)) && forall n :: n in Without(c, i) <==> n in c && n != c[i]
  {
    var c' := Without(c, i);
    assert forall j :: 0 <= j < |c'| ==> c'[j] == if j < i then c[j] else c[j + 1];
    forall n | n in c && n != c[i] ensures n in c' {
      var j :| 0 <= j < |c| && c[j] == n;
      assert c'[if j < i then j else j - 1] == n;
    }
  }

  /** TAILQ_REMOVE writes two slots: the one before the element and the link back of the one after it. */
  lemma Removed(c: seq<Entry>, m: Heap, m': Heap, i: nat)
    requires Linked(c, m) && 1 <= i < |c|
    requires forall n :: n in c && n != c[i] ==> n in m' && m'[n].next == if n == c[i - 1] then After(c, i) else m[n].next
    requires forall n :: n in c && n != c[i] ==> m'[n].prev == if n == Back(c, i) then c[i - 1] else m[n].prev
    ensures Linked(Without(c, i), m')
  {
    var c' := Without(c, i);
    WithoutMembers(c, i);
    WithoutAt(c, i, 0);
    forall j | 0 <= j < |c'|
      ensures c'[j] in m' && Back(c', j) in m' && m'[c'[j]].next == After(c', j) && m'[Back(c', j)].prev == c'[j]
    {
      RemovedAt(c, m, m', i, j);
    }
  }

  lemma RemovedAt(c: seq<Entry>, m: Heap, m': Heap, i: nat, j: nat)
    requires Linked(c, m) && 1 <= i < |c| && j < |c| - 1
    requires forall n :: n in c && n != c[i] ==> n in m' && m'[n].next == if n == c[i - 1] then After(c, i) else m[n].next
    requires forall n :: n in c && n != c[i] ==> m'[n].prev == if n == Back(c, i) then c[i - 1] else m[n].prev
    ensures |Without(c, i)| == |c| - 1
    ensures var c' := Without(c, i);
      c'[j] in m' && Back(c', j) in m' && m'[c'[j]].next == After(c', j) && m'[Back(c', j)].prev == c'[j]
  {
    WithoutAt(c, i, j);
    var k := if j < i then j else j + 1;
    var b := if j < i - 1 then j else j + 1;
    BackOnce(c, i, k);
    BackOnce(c, i, b);
    assert c[k] in c && c[k] == c[i - 1] <==> k == i - 1;
    hide After, Back, Without;
    assert m[c[k]].next == After(c, k) && m[Back(c, b)].prev == c[b];
  }

  lemma RemovedNow(c: seq<Entry>, m: Heap, i: nat)
    requires Linked(c, m) && 1 <= i < |c|
    requires forall n :: n in c && n != c[i] ==> n.next == if n == c[i - 1] then After(c, i) else m[n].next
    requires forall n :: n in c && n != c[i] ==> n.prev == if n == Back(c, i) then c[i - 1] else m[n].prev
    ensures Holds(c[..i] + c[i + 1..])
  {
    WithoutMembers(c, i);
    assert Without(c, i) == c[..i] + c[i + 1..];
    hide Without, After, Back;
    Removed(c, m, Snap(Without(c, i)), i);
  }

  /** TAILQ_REMOVE. */
  method Remove(head: Entry, elm: Entry, ghost c: seq<Entry>, ghost i: nat)
    requires Holds(c) && c[0] == head && 1 <= i < |c| && c[i] == elm
    modifies c
    ensures Holds(c[..i] + c[i + 1..])
  {
    ghost var m := Snap(c);
    SlotAt(c, i);
    SlotAt(c, i - 1);
    assert After(c, i - 1) == elm;
    BackOnce(c, i, i - 1);
    hide After, Back, Linked, Distinct, Without;
    if elm.next != null {
      elm.next.prev := elm.prev;
    } else {
      head.prev := elm.prev;
    }
    elm.prev.next := elm.next;
    RemovedNow(c, m, i);
  }

  // ---------- two queues ----------

  /** The elements of `d` behind those of `c`. */
  function Joined(c: seq<Entry>, d: seq<Entry>): seq<Entry>
    requires d != []
  {
    c + d[1..]
  }

  lemma JoinedAt(c: seq<Entry>, d: seq<Entry>, j: nat)
    requires c != [] && |d| > 1 && j < |c| + |d| - 1
    ensures var e := Joined(c, d);
      && |e| == |c| + |d| - 1
      && e[j] == (if j < |c| then c[j] else d[j - |c| + 1])
      && After(e, j) == (if j < |c| - 1 then After(c, j) else if j == |c| - 1 then d[1] else After(d, j - |c| + 1))
      && Back(e, j) == (if j < |c| - 1 then Back(c, j) else if j == |c| - 1 then d[1]
                        else if j == |e| - 1 then c[0] else Back(d, j - |c| + 1))
  {
  }

  lemma JoinedDistinct(c: seq<Entry>, d: seq<Entry>)
    requires Distinct(c) && Distinct(d) && d != [] && forall n :: n in c ==> n !in d
    ensures Distinct(Joined(c, d)) && forall n :: n in Joined(c, d) <==> n in c || (n in d && n != d[0])
  {
    var e := Joined(c, d);
    assert forall j :: 0 <= j < |e| ==> e[j] == if j < |c| then c[j] else d[j - |c| + 1];
    forall i, j | 0 <= i < j < |e| ensures e[i] != e[j] {
      if i < |c| <= j { assert e[i] in c && e[j] in d; }
    }
    forall n | n in d && n != d[0] ensures n in e {
      var j :| 0 <= j < |d| && d[j] == n;
      assert e[|c| + j - 1] == n;
    }
  }

  /** The four slots that TAILQ_CONCAT writes in the two queues, besides emptying the second head. */
  lemma JoinedLinks(c: seq<Entry>, m: Heap, d: seq<Entry>, k: Heap, m': Heap)
    requires Linked(c, m) && Linked(d, k) && |d| > 1 && forall n :: n in c ==> n !in d
    requires forall n :: n in c ==> n in m' && m'[n].next == if n == c[|c| - 1] then d[1] else m[n].next
    requires forall n :: n in c ==> m'[n].prev == if n == c[0] then d[|d| - 1] else m[n].prev
    requires forall n :: n in d && n != d[0] ==> n in m' && m'[n].next == k[n].next
    requires forall n :: n in d && n != d[0] ==> m'[n].prev == if n == d[1] then c[|c| - 1] else k[n].prev
    ensures Linked(Joined(c, d), m')
  {
    var e := Joined(c, d);
    JoinedDistinct(c, d);
    JoinedAt(c, d, 0);
    forall j | 0 <= j < |e|
      ensures e[j] in m' && Back(e, j) in m' && m'[e[j]].next == After(e, j) && m'[Back(e, j)].prev == e[j]
    {
      JoinedAt(c, d, j);
      JoinedOne(c, m, d, k, m', j);
    }
  }

  lemma JoinedOne(c: seq<Entry>, m: Heap, d: seq<Entry>, k: Heap, m': Heap, j: nat)
    requires Linked(c, m) && Linked(d, k) && |d| > 1 && j < |c| + |d| - 1
    requires forall n :: n in c ==> n in m' && m'[n].next == if n == c[|c| - 1] then d[1] else m[n].next
    requires forall n :: n in c ==> m'[n].prev == if n == c[0] then d[|d| - 1] else m[n].prev
    requires forall n :: n in d && n != d[0] ==> n in m' && m'[n].next == k[n].next
    requires forall n :: n in d && n != d[0] ==> m'[n].prev == if n == d[1] then c[|c| - 1] else k[n].prev
    ensures var e := Joined(c, d);
      |e| == |c| + |d| - 1 && e[j] in m' && Back(e, j) in m'
    ensures var e := Joined(c, d);
      m'[e[j]].next == After(e, j) && m'[Back(e, j)].prev == e[j]
  {
    JoinedAt(c, d, j);
    if j < |c| {
      assert c[j] in c && m[c[j]].next == After(c, j) && m[Back(c, j)].prev == c[j];
    } else {
      var i := j - |c| + 1;
      assert d[i] in d && d[i] != d[0] && k[d[i]].next == After(d, i) && k[Back(d, i)].prev == d[i];
    }
    hide Joined;
  }

  lemma JoinedNow(c: seq<Entry>, m: Heap, d: seq<Entry>, k: Heap)
    requires Linked(c, m) && Linked(d, k) && |d| > 1 && forall n :: n in c ==> n !in d
    requires forall n :: n in c ==> n.next == if n == c[|c| - 1] then d[1] else m[n].next
    requires forall n :: n in c ==> n.prev == if n == c[0] then d[|d| - 1] else m[n].prev
    requires forall n :: n in d && n != d[0] ==> n.next == k[n].next
    requires forall n :: n in d && n != d[0] ==> n.prev == if n == d[1] then c[|c| - 1] else k[n].prev
    ensures Holds(c + d[1..])
  {
    JoinedDistinct(c, d);
    assert Joined(c, d) == c + d[1..];
    hide Joined;
    JoinedLinks(c, m, d, k, Snap(Joined(c, d)));
  }

  /** The writes of TAILQ_CONCAT among the entries `cs` and `ds` of the two queues. */
  method Chain(head1: Entry, head2: Entry, ghost cs: set<Entry>, ghost ds: set<Entry>)
    requires head1 in cs && head2 in ds && cs !! ds && head1.prev in cs && head2.next in ds && head2.prev in ds
    requires head2.next != head2
    modifies cs, ds
    ensures forall n :: n in cs ==> n.next == if n == old(head1.prev) then old(head2.next) else old(n.next)
    ensures forall n :: n in cs ==> n.prev == if n == head1 then old(head2.prev) else old(n.prev)
    ensures forall n :: n in ds && n != head2 ==> n.next == old(n.next)
    ensures forall n :: n in ds && n != head2 ==> n.prev == if n == old(head2.next) then old(head1.prev) else old(n.prev)
    ensures Holds([head2])
  {
    head1.prev.next := head2.next;
    head2.next.prev := head1.prev;
    head1.prev := head2.prev;
    Init(head2);
  }

  /** TAILQ_CONCAT: the elements of the second queue go behind those of the first, which leaves it empty. */
  method Concat(head1: Entry, head2: Entry, ghost c: seq<Entry>, ghost d: seq<Entry>)
    requires Holds(c) && c[0] == head1 && Holds(d) && d[0] == head2 && forall n :: n in c ==> n !in d
    modifies c, d
    ensures Holds(c + d[1..]) && Holds([head2])
  {
    ghost var m, k := Snap(c), Snap(d);
    SlotAt(c, |c| - 1);
    SlotAt(d, 0);
    SlotAt(d, |d| - 1);
    assert head1.prev == c[|c| - 1] && head2.prev == d[|d| - 1] && head2.next == After(d, 0);
    if head2.next != null {
      assert head2.next == d[1] && d[1] in d && d[1] != d[0];
      hide After, Back, Linked, Distinct, Joined;
      Chain(head1, head2, set n | n in c, set n | n in d);
      JoinedNow(c, m, d, k);
    } else {
      assert d == [head2] && c + d[1..] == c;
    }
  }

  function OtherHead(c: seq<Entry>, h: Entry): seq<Entry>
    requires c != []
  {
    [h] + c[1..]
  }

  lemma OtherHeadMembers(c: seq<Entry>, h: Entry)
    requires Distinct(c) && c != []
    ensures forall n :: n in OtherHead(c, h) <==> n == h || (n in c && n != c[0])
  {
    forall n | n in c && n != c[0] ensures n in OtherHead(c, h) {
      var j :| 0 <= j < |c| && c[j] == n;
      assert OtherHead(c, h)[j] == n;
    }
    forall n | n in OtherHead(c, h) && n != h ensures n in c && n != c[0] {
      var j :| 0 <= j < |c| && OtherHead(c, h)[j] == n;
      assert c[j] == n;
    }
  }

  /** The elements of a queue under another head: only the two links that name the head change. */
  lemma Reheaded(c: seq<Entry>, m: Heap, m': Heap, h: Entry)
    requires Linked(c, m) && (h in c ==> h == c[0])
    requires h in m' && m'[h].next == m[c[0]].next && m'[h].prev == (if |c| == 1 then h else m[c[0]].prev)
    requires forall n :: n in c && n != c[0] ==> n in m' && m'[n].next == m[n].next
    requires forall n :: n in c && n != c[0] ==> m'[n].prev == if n == c[1] then h else m[n].prev
    ensures Linked(OtherHead(c, h), m')
  {
    var e := OtherHead(c, h);
    forall j | 0 <= j < |e|
      ensures e[j] in m' && Back(e, j) in m' && m'[e[j]].next == After(e, j) && m'[Back(e, j)].prev == e[j]
    {
      ReheadedAt(c, m, m', h, j);
    }
    ReheadedDistinct(c, h);
    OtherHeadMembers(c, h);
  }

  lemma ReheadedDistinct(c: seq<Entry>, h: Entry)
    requires c != [] && Distinct(c) && (h in c ==> h == c[0])
    ensures Distinct(OtherHead(c, h))
  {
    var e := OtherHead(c, h);
    assert forall j :: 0 <= j < |e| ==> e[j] == if j == 0 then h else c[j];
    assert forall j :: 0 < j < |e| ==> c[j] in c;
  }

  lemma ReheadedAt(c: seq<Entry>, m: Heap, m': Heap, h: Entry, j: nat)
    requires Linked(c, m) && (h in c ==> h == c[0]) && j < |c|
    requires h in m' && m'[h].next == m[c[0]].next && m'[h].prev == (if |c| == 1 then h else m[c[0]].prev)
    requires forall n :: n in c && n != c[0] ==> n in m' && m'[n].next == m[n].next
    requires forall n :: n in c && n != c[0] ==> m'[n].prev == if n == c[1] then h else m[n].prev
    ensures var e := OtherHead(c, h);
      e[j] in m' && Back(e, j) in m' && m'[e[j]].next == After(e, j) && m'[Back(e, j)].prev == e[j]
  {
    var e := OtherHead(c, h);
    assert forall k :: 1 <= k < |c| ==> e[k] == c[k];
    assert c[j] in c && m[c[j]].next == After(c, j) && m[Back(c, j)].prev == c[j];
    if j + 1 < |c| { assert c[j + 1] in c; }
  }

  lemma ReheadedNow(c: seq<Entry>, m: Heap, h: Entry)
    requires Linked(c, m) && (h in c ==> h == c[0])
    requires h.next == m[c[0]].next && h.prev == (if |c| == 1 then h else m[c[0]].prev)
    requires forall n :: n in c && n != c[0] ==> n.next == m[n].next
    requires forall n :: n in c && n != c[0] ==> n.prev == if n == c[1] then h else m[n].prev
    ensures Holds([h] + c[1..])
  {
    OtherHeadMembers(c, h);
    assert OtherHead(c, h) == [h] + c[1..];
    hide OtherHead;
    Reheaded(c, m, Snap(OtherHead(c, h)), h);
  }

  /** TAILQ_SWAP among the entries `cs` and `ds` of the two queues. */
  method SwapHeads(head1: Entry, head2: Entry, ghost cs: set<Entry>, ghost ds: set<Entry>)
    requires head1 in cs && head2 in ds && cs !! ds
    requires (head1.next != null ==> head1.next in cs && head1.next != head1)
    requires (head2.next != null ==> head2.next in ds && head2.next != head2)
    modifies cs, ds
    ensures head1.next == old(head2.next) && head1.prev == if old(head2.next) == null then head1 else old(head2.prev)
    ensures head2.next == old(head1.next) && head2.prev == if old(head1.next) == null then head2 else old(head1.prev)
    ensures forall n :: n in cs && n != head1 ==> n.next == old(n.next)
    ensures forall n :: n in ds && n != head2 ==> n.next == old(n.next)
    ensures forall n :: n in cs && n != head1 ==> n.prev == if n == old(head1.next) then head2 else old(n.prev)
    ensures forall n :: n in ds && n != head2 ==> n.prev == if n == old(head2.next) then head1 else old(n.prev)
  {
    var swapFirst, swapLast := head1.next, head1.prev;
    head1.next := head2.next;
    head1.prev := head2.prev;
    head2.next := swapFirst;
    head2.prev := swapLast;
    swapFirst := head1.next;
    if swapFirst != null {
      swapFirst.prev := head1;
    } else {
      head1.prev := head1;
    }
    swapFirst := head2.next;
    if swapFirst != null {
      swapFirst.prev := head2;
    } else {
      head2.prev := head2;
    }
  }

  /** TAILQ_SWAP: the two heads exchange their elements. */
  method Swap(head1: Entry, head2: Entry, ghost c: seq<Entry>, ghost d: seq<Entry>)
    requires Holds(c) && c[0] == head1 && Holds(d) && d[0] == head2 && forall n :: n in c ==> n !in d
    modifies c, d
    ensures Holds([head1] + d[1..]) && Holds([head2] + c[1..])
  {
    ghost var m, k := Snap(c), Snap(d);
    SlotAt(c, 0);
    SlotAt(d, 0);
    assert head1.next == (if |c| == 1 then null else c[1]) && head2.next == (if |d| == 1 then null else d[1]);
    assert (|c| > 1 ==> c[1] in c && c[1] != c[0]) && (|d| > 1 ==> d[1] in d && d[1] != d[0]);
    hide After, Back, Linked, Distinct, OtherHead;
    SwapHeads(head1, head2, set n | n in c, set n | n in d);
    ReheadedNow(d, k, head1);
    ReheadedNow(c, m, head2);
  }
}
