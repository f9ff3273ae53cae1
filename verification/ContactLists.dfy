/** The group lists of Contacts_task.c: linked both ways and sorted by name. */
module ContactLists {
  import opened CStrings

  datatype Entry = Entry(name: CString, phone: CString)

  class Person {
    const name: CString
    const phone: CString
    var next: Person?
    var previous: Person?

    constructor (name: CString, phone: CString)
      ensures this.name == name && this.phone == phone
    {
      this.name, this.phone := name, phone;
      next, previous := null, null;
    }
  }

  // ---------- names and groups ----------

  /** The name starts with the letter number `g`, small or capital. */
  predicate Starts(name: CString, g: int) { name != [] && (name[0] == 65 + g || name[0] == 97 + g) }

  /** get_name_index: the letter a name starts with, in either case, or -1. */
  function NameIndex(name: CString): (i: int)
    ensures -1 <= i < 26 && (i < 0 ==> forall g :: 0 <= g < 26 ==> !Starts(name, g)) && (0 <= i ==> Starts(name, i))
  {
    if name == [] then -1
    else
      var first: int := if 97 <= name[0] <= 122 then name[0] - 32 else name[0];
      if 65 <= first <= 90 then first - 65 else -1
  }

  /** Group `g` is that of the names that start with letter number `g` of the alphabet, from A on and from a on. */
  lemma LettersOf(name: CString, g: int)
    requires 0 <= g < 26
    ensures NameIndex(name) == g <==> name != [] && (name[0] == 'A' as int + g || name[0] == 'a' as int + g)
    ensures 'A' as int + 25 == 'Z' as int && 'a' as int + 25 == 'z' as int
  {
  }

  /** In the order of strcmp, equal names allowed. */
  ghost predicate Sorted(s: seq<Entry>) {
    forall i, j :: 0 <= i < j < |s| ==> StrCmp(s[i].name, s[j].name) <= 0
  }

  /** The first place whose entry is not before the name. */
  function PlaceOf(s: seq<Entry>, name: CString): (p: nat)
    ensures p <= |s| && (p < |s| ==> StrCmp(name, s[p].name) <= 0)
    ensures forall i :: 0 <= i < p ==> StrCmp(name, s[i].name) > 0
  {
    if s == [] || StrCmp(name, s[0].name) <= 0 then 0 else 1 + PlaceOf(s[1..], name)
  }

  function Insorted(s: seq<Entry>, e: Entry): seq<Entry> {
    s[..PlaceOf(s, e.name)] + [e] + s[PlaceOf(s, e.name)..]
  }

  lemma CmpLeTrans(a: CString, b: CString, c: CString)
    requires StrCmp(a, b) <= 0 && StrCmp(b, c) <= 0
    ensures StrCmp(a, c) <= 0
  {
    StrCmpZero(a, b);
    StrCmpZero(b, c);
    if StrCmp(a, b) < 0 && StrCmp(b, c) < 0 { StrCmpTrans(a, b, c); }
  }

  /** Of two entries with different names the earlier name, byte by byte, stands first. */
  ghost predicate ByName(s: seq<Entry>) {
    forall i, j :: 0 <= i < j < |s| ==> s[i].name == s[j].name || Earlier(s[i].name, s[j].name)
  }

  lemma SortedByName(s: seq<Entry>)
    ensures Sorted(s) <==> ByName(s)
  {
    hide StrCmp, Earlier;
    forall i, j | 0 <= i < j < |s|
      ensures StrCmp(s[i].name, s[j].name) <= 0 <==> s[i].name == s[j].name || Earlier(s[i].name, s[j].name)
    {
      StrCmpZero(s[i].name, s[j].name);
      StrCmpLex(s[i].name, s[j].name);
    }
  }

  /** An insertion keeps the order of the names' bytes; it adds one entry and loses none. */
  lemma InsortedSorted(s: seq<Entry>, e: Entry)
    requires Sorted(s)
    ensures Sorted(Insorted(s, e)) && ByName(Insorted(s, e)) && multiset(Insorted(s, e)) == multiset(s) + multiset{e}
  {
    var p, u := PlaceOf(s, e.name), Insorted(s, e);
    assert s == s[..p] + s[p..];
    hide StrCmp, PlaceOf;
    forall i, j | 0 <= i < j < |u| ensures StrCmp(u[i].name, u[j].name) <= 0 {
      InsortedPair(s, e, i, j);
    }
    SortedByName(u);
  }

  lemma InsortedPair(s: seq<Entry>, e: Entry, i: nat, j: nat)
    requires Sorted(s) && i < j <= |s|
    ensures |Insorted(s, e)| == |s| + 1 && StrCmp(Insorted(s, e)[i].name, Insorted(s, e)[j].name) <= 0
  {
    var p, u := PlaceOf(s, e.name), Insorted(s, e);
    hide StrCmp, PlaceOf;
    assert u[i] == (if i < p then s[i] else if i == p then e else s[i - 1]);
    assert u[j] == (if j < p then s[j] else if j == p then e else s[j - 1]);
    if j == p {
      StrCmpFlip(s[i].name, e.name);
    } else if i == p && j > p + 1 {
      CmpLeTrans(e.name, s[p].name, s[j - 1].name);
    }
  }

  // ---------- the links ----------

  datatype Cell = Cell(next: Person?, previous: Person?)
  type Heap = map<Person, Cell>

  ghost function Snap(c: seq<Person>): Heap
    reads c
  {
    map n | n in c :: Cell(n.next, n.previous)
  }

  function At(c: seq<Person>, j: nat): Person? {
    if j < |c| then c[j] else null
  }

  function Prior(c: seq<Person>, j: nat): Person?
    requires j <= |c|
  {
    if j > 0 then c[j - 1] else null
  }

  ghost predicate Distinct(c: seq<Person>) {
    forall i, j :: 0 <= i < j < |c| ==> c[i] != c[j]
  }

  ghost predicate Linked(c: seq<Person>, head: Person?, m: Heap) {
    && Distinct(c) && head == At(c, 0)
    && (forall j :: 0 <= j < |c| ==> c[j] in m && m[c[j]].next == At(c, j + 1) && m[c[j]].previous == Prior(c, j))
  }

  ghost function Entries(c: seq<Person>): (e: seq<Entry>)
    ensures |e| == |c| && forall j :: 0 <= j < |c| ==> e[j] == Entry(c[j].name, c[j].phone)
  {
    seq(|c|, j requires 0 <= j < |c| => Entry(c[j].name, c[j].phone))
  }

  /** The group of letter `g`: a consistent list, sorted, and of that letter only. */
  ghost predicate Group(g: int, c: seq<Person>, head: Person?)
    reads c
  {
    Linked(c, head, Snap(c)) && Sorted(Entries(c)) && forall n :: n in c ==> NameIndex(n.name) == g
  }

  lemma FieldsAt(c: seq<Person>, head: Person?, j: nat)
    requires Linked(c, head, Snap(c)) && j < |c|
    ensures c[j] in c && c[j].next == At(c, j + 1) && c[j].previous == Prior(c, j)
  {
    var m := Snap(c);
    assert c[j] in m && m[c[j]].next == At(c, j + 1);
  }

  function With(c: seq<Person>, p: nat, x: Person): seq<Person>
    requires p <= |c|
  {
    c[..p] + [x] + c[p..]
  }

  lemma WithAt(c: seq<Person>, p: nat, x: Person, j: nat)
    requires p <= |c| && j <= |c|
    ensures var d := With(c, p, x);
      && |d| == |c| + 1
      && d[j] == (if j < p then c[j] else if j == p then x else c[j - 1])
      && At(d, j + 1) == (if j + 1 == p then x else if j < p then At(c, j + 1) else At(c, j))
      && Prior(d, j) == (if j == p + 1 then x else if j <= p then Prior(c, j) else Prior(c, j - 1))
  {
  }

  lemma WithMembers(c: seq<Person>, p: nat, x: Person)
    requires p <= |c| && x !in c && Distinct(c)
    ensures Distinct(With(c, p, x)) && forall n :: n in With(c, p, x) <==> n in c || n == x
  {
  }

  lemma InsertedLinks(c: seq<Person>, head: Person?, m: Heap, m': Heap, p: nat, x: Person)
    requires Linked(c, head, m) && p <= |c| && x !in c
    requires x in m' && m'[x] == Cell(At(c, p), Prior(c, p))
    requires forall n :: n in c ==> n in m' && m'[n].next == if n == Prior(c, p) then x else m[n].next
    requires forall n :: n in c ==> m'[n].previous == if n == At(c, p) then x else m[n].previous
    ensures Linked(With(c, p, x), if p == 0 then x else head, m')
  {
    var d := With(c, p, x);
    WithMembers(c, p, x);
    WithAt(c, p, x, 0);
    forall j | 0 <= j < |d|
      ensures d[j] in m' && m'[d[j]].next == At(d, j + 1) && m'[d[j]].previous == Prior(d, j)
    {
      WithAt(c, p, x, j);
      if j != p {
        var i := if j < p then j else j - 1;
        assert c[i] in m && c[i] in c;
      }
    }
  }

  function Without(c: seq<Person>, p: nat): seq<Person>
    requires p < |c|
  {
    c[..p] + c[p + 1..]
  }

  lemma WithoutAt(c: seq<Person>, p: nat, j: nat)
    requires p < |c| && j < |c| - 1
    ensures var d := Without(c, p);
      && |d| == |c| - 1
      && d[j] == (if j < p then c[j] else c[j + 1])
      && At(d, j + 1) == (if j + 1 < p then At(c, j + 1) else At(c, j + 2))
      && Prior(d, j) == (if j <= p then Prior(c, j) else Prior(c, j + 1))
  {
  }

  lemma WithoutMembers(c: seq<Person>, p: nat)
    requires p < |c| && Distinct(c)
    ensures Distinct(Without(c, p)) && forall n :: n in Without(c, p) <==> n in c && n != c[p]
  {
    var d := Without(c, p);
    assert forall j :: 0 <= j < |d| ==> d[j] == if j < p then c[j] else c[j + 1];
    forall n | n in c && n != c[p] ensures n in d {
      var j :| 0 <= j < |c| && c[j] == n;
      assert d[if j < p then j else j - 1] == n;
    }
  }

  lemma DeletedLinks(c: seq<Person>, head: Person?, m: Heap, m': Heap, p: nat)
    requires Linked(c, head, m) && p < |c|
    requires forall n :: n in c && n != c[p] ==> n in m' && m'[n].next == if n == Prior(c, p) then At(c, p + 1) else m[n].next
    requires forall n :: n in c && n != c[p] ==> m'[n].previous == if n == At(c, p + 1) then Prior(c, p) else m[n].previous
    ensures Linked(Without(c, p), if p == 0 then At(c, 1) else head, m')
  {
    var d := Without(c, p);
    WithoutMembers(c, p);
    if |c| > 1 { WithoutAt(c, p, 0); }
    forall j | 0 <= j < |d|
      ensures d[j] in m' && m'[d[j]].next == At(d, j + 1) && m'[d[j]].previous == Prior(d, j)
    {
      WithoutAt(c, p, j);
      var i := if j < p then j else j + 1;
      assert c[i] in m && c[i] in c && c[i] != c[p];
    }
  }

  /** The same two lemmas told by the fields. */
  lemma InsertedNow(c: seq<Person>, head: Person?, m: Heap, p: nat, x: Person)
    requires Linked(c, head, m) && p <= |c| && x !in c
    requires x.next == At(c, p) && x.previous == Prior(c, p)
    requires forall n :: n in c ==> n.next == if n == Prior(c, p) then x else m[n].next
    requires forall n :: n in c ==> n.previous == if n == At(c, p) then x else m[n].previous
    ensures Linked(With(c, p, x), if p == 0 then x else head, Snap(With(c, p, x)))
  {
    WithMembers(c, p, x);
    hide With, At, Prior;
    InsertedLinks(c, head, m, Snap(With(c, p, x)), p, x);
  }

  lemma DeletedNow(c: seq<Person>, head: Person?, m: Heap, p: nat)
    requires Linked(c, head, m) && p < |c|
    requires forall n :: n in c && n != c[p] ==> n.next == if n == Prior(c, p) then At(c, p + 1) else m[n].next
    requires forall n :: n in c && n != c[p] ==> n.previous == if n == At(c, p + 1) then Prior(c, p) else m[n].previous
    ensures Linked(Without(c, p), if p == 0 then At(c, 1) else head, Snap(Without(c, p)))
  {
    WithoutMembers(c, p);
    hide Without, At, Prior;
    DeletedLinks(c, head, m, Snap(Without(c, p)), p);
  }

  lemma WithEntries(c: seq<Person>, p: nat, x: Person, g: int)
    requires p <= |c| && Sorted(Entries(c)) && p == PlaceOf(Entries(c), x.name)
    requires NameIndex(x.name) == g && forall n :: n in c ==> NameIndex(n.name) == g
    ensures Entries(With(c, p, x)) == Insorted(Entries(c), Entry(x.name, x.phone))
    ensures Sorted(Entries(With(c, p, x))) && forall n :: n in With(c, p, x) ==> NameIndex(n.name) == g
    ensures ByName(Entries(With(c, p, x)))
  {
    hide StrCmp, PlaceOf, NameIndex, ByName;
    var d, e := With(c, p, x), Entry(x.name, x.phone);
    assert forall j :: 0 <= j < |d| ==> d[j] == if j < p then c[j] else if j == p then x else c[j - 1];
    assert Entries(d) == Insorted(Entries(c), e);
    InsortedSorted(Entries(c), e);
  }

  lemma EntriesWithout(c: seq<Person>, p: nat)
    requires p < |c|
    ensures |Without(c, p)| == |c| - 1 && Entries(Without(c, p)) == Entries(c)[..p] + Entries(c)[p + 1..]
    ensures forall n :: n in Without(c, p) ==> n in c
  {
    var d := Without(c, p);
    assert forall j :: 0 <= j < |d| ==> d[j] == if j < p then c[j] else c[j + 1];
  }

  lemma SortedCut(s: seq<Entry>, p: nat)
    requires p < |s| && Sorted(s)
    ensures Sorted(s[..p] + s[p + 1..])
  {
    hide StrCmp;
    var u := s[..p] + s[p + 1..];
    forall i, j | 0 <= i < j < |u| ensures StrCmp(u[i].name, u[j].name) <= 0 {
      assert u[i] == s[if i < p then i else i + 1] && u[j] == s[if j < p then j else j + 1];
    }
  }

  lemma WithoutEntries(c: seq<Person>, p: nat, g: int)
    requires p < |c| && Sorted(Entries(c)) && forall n :: n in c ==> NameIndex(n.name) == g
    ensures Entries(Without(c, p)) == Entries(c)[..p] + Entries(c)[p + 1..]
    ensures Sorted(Entries(Without(c, p))) && forall n :: n in Without(c, p) ==> NameIndex(n.name) == g
  {
    hide NameIndex, Sorted, Without, Entries;
    EntriesWithout(c, p);
    SortedCut(Entries(c), p);
  }

  // ---------- the operations on one group ----------

  /** The walk of person_insert to the place of a name. */
  method FindPlace(head: Person?, name: CString, ghost g: int, ghost c: seq<Person>)
    returns (current: Person?, prev: Person?, ghost p: nat)
    requires Group(g, c, head)
    ensures p == PlaceOf(Entries(c), name) && current == At(c, p) && prev == Prior(c, p)
  {
    HeadIs(c, head);
    hide StrCmp, PlaceOf, Sorted, Linked;
    current, prev, p := head, null, 0;
    while current != null && StrCmp(name, current.name) > 0
      invariant p <= |c| && current == At(c, p) && prev == Prior(c, p)
      invariant forall i :: 0 <= i < p ==> StrCmp(name, c[i].name) > 0
      decreases |c| - p
    {
      FieldsAt(c, head, p);
      prev := current;
      current := current.next;
      p := p + 1;
    }
    OnlyPlaceOf(c, name, p);
  }

  lemma GroupLinks(g: int, c: seq<Person>, head: Person?)
    requires Group(g, c, head)
    ensures Linked(c, head, Snap(c)) && head == At(c, 0)
  {
  }

  lemma HeadIs(c: seq<Person>, head: Person?)
    requires Linked(c, head, Snap(c))
    ensures head == At(c, 0)
  {
  }

  lemma OnlyPlaceOf(c: seq<Person>, name: CString, p: nat)
    requires p <= |c| && (p < |c| ==> StrCmp(name, c[p].name) <= 0)
    requires forall i :: 0 <= i < p ==> StrCmp(name, c[i].name) > 0
    ensures p == PlaceOf(Entries(c), name)
  {
    hide StrCmp, PlaceOf;
    OnlyPlace(Entries(c), name, p);
  }

  lemma {:induction false} OnlyPlace(s: seq<Entry>, name: CString, p: nat)
    requires p <= |s| && (p < |s| ==> StrCmp(name, s[p].name) <= 0)
    requires forall i :: 0 <= i < p ==> StrCmp(name, s[i].name) > 0
    ensures p == PlaceOf(s, name)
  {
    hide StrCmp;
    if p > 0 { OnlyPlace(s[1..], name, p - 1); }
  }

  /** person_insert: the group stays a sorted list, with the new entry before any of the same name. */
  method PersonInsert(head: Person?, person: Person, ghost g: int, ghost c: seq<Person>)
    returns (head': Person?, ghost p: nat)
    requires Group(g, c, head) && person !in c && NameIndex(person.name) == g
    modifies person, c
    ensures p == PlaceOf(Entries(c), person.name) && p <= |c| && Group(g, With(c, p, person), head')
    ensures Entries(With(c, p, person)) == Insorted(Entries(c), Entry(person.name, person.phone))
    ensures ByName(Entries(With(c, p, person)))
  {
    ghost var m := Snap(c);
    p := PlaceOf(Entries(c), person.name);
    WithEntries(c, p, person, g);
    hide ByName;
    if head == null {
      person.next := null;
      person.previous := null;
      head' := person;
      assert c == [] && With(c, 0, person) == [person];
    } else {
      var current, prev;
      current, prev, p := FindPlace(head, person.name, g, c);
      NeighboursIn(c, p);
      assert Linked(c, head, m);
      hide Linked, At, Prior, With, Sorted, PlaceOf, StrCmp, Distinct;
      head' := LinkBetween(head, person, current, prev, set n | n in c);
      InsertedNow(c, head, m, p, person);
    }
  }

  lemma NeighboursIn(c: seq<Person>, p: nat)
    requires Distinct(c) && p <= |c|
    ensures At(c, p) != null ==> At(c, p) in c
    ensures Prior(c, p) != null ==> Prior(c, p) in c && Prior(c, p) != At(c, p)
    ensures p == 0 <==> Prior(c, p) == null
  {
  }

  /** The writes at the end of person_insert, among the nodes `s`. */
  method LinkBetween(head: Person?, person: Person, current: Person?, prev: Person?, ghost s: set<Person>) returns (head': Person?)
    requires person !in s && (current != null ==> current in s) && (prev != null ==> prev in s && prev != current)
    modifies person, s
    ensures person.next == current && person.previous == prev
    ensures forall n :: n in s ==> n.next == if n == prev then person else old(n.next)
    ensures forall n :: n in s ==> n.previous == if n == current then person else old(n.previous)
    ensures head' == if prev == null then person else head
  {
    head' := head;
    person.next := current;
    person.previous := prev;
    if prev != null { prev.next := person; } else { head' := person; }
    if current != null { current.previous := person; }
  }

  /** person_search_in_group: the first entry of that name. */
  method PersonSearchInGroup(head: Person?, name: CString, ghost g: int, ghost c: seq<Person>)
    returns (item: Person?, ghost i: nat)
    requires Group(g, c, head)
    ensures item == null <==> forall n :: n in c ==> n.name != name
    ensures item != null ==> i < |c| && c[i] == item && item.name == name && forall k :: 0 <= k < i ==> c[k].name != name
  {
    hide Group, Snap, StrCmp, Linked;
    GroupLinks(g, c, head);
    item, i := head, 0;
    while item != null && StrCmp(item.name, name) != 0
      invariant i <= |c| && item == At(c, i) && forall k :: 0 <= k < i ==> c[k].name != name
      decreases |c| - i
    {
      FieldsAt(c, head, i);
      StrCmpZero(item.name, name);
      item := item.next;
      i := i + 1;
    }
    if item != null { StrCmpZero(item.name, name); }
    assert item == null ==> forall n :: n in c ==> n.name != name;
  }

  /** person_delete, the macro LIST_REMOVE. */
  method PersonDelete(head: Person?, person: Person, ghost g: int, ghost c: seq<Person>, ghost p: nat) returns (head': Person?)
    requires Group(g, c, head) && p < |c| && c[p] == person
    modifies c
    ensures Group(g, Without(c, p), head') && person.next == null && person.previous == null
    ensures Entries(Without(c, p)) == Entries(c)[..p] + Entries(c)[p + 1..]
  {
    ghost var m := Snap(c);
    WithoutEntries(c, p, g);
    FieldsAt(c, head, p);
    NeighboursIn(c, p);
    NeighboursIn(c, p + 1);
    assert head == person <==> p == 0;
    assert Linked(c, head, m) && At(c, p + 1) != person && Prior(c, p) != person;
    assert At(c, p + 1) != null ==> At(c, p + 1) in c;
    hide Linked, At, Prior, Without, Sorted, StrCmp, Distinct;
    head' := Unlink(head, person, set n | n in c);
    DeletedNow(c, head, m, p);
  }

  method Unlink(head: Person?, item: Person, ghost s: set<Person>) returns (head': Person?)
    requires item in s && (item.next != null ==> item.next in s && item.next != item)
    requires item.previous != null ==> item.previous in s && item.previous != item
    modifies s
    ensures forall n :: n in s && n != item ==> n.next == if n == old(item.previous) then old(item.next) else old(n.next)
    ensures forall n :: n in s && n != item ==> n.previous == if n == old(item.next) then old(item.previous) else old(n.previous)
    ensures item.next == null && item.previous == null && head' == if head == item then old(item.next) else head
  {
    head' := head;
    if item.previous != null { item.previous.next := item.next; }
    if item.next != null { item.next.previous := item.previous; }
    if head' == item { head' := item.next; }
    item.previous := null;
    item.next := null;
  }
}
